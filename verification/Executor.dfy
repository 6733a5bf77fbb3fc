/** The REST executor (exchange/executor.go): attempts of limiter, builder, sender and body,
    repeated for reads only. */
module Executor {
  import opened Results

  datatype Operation = Read | Mutation

  datatype Category = Internal | Timeout | Validation | Network | UnknownExecutionState | ExchangeUnavailable

  /** An API error with its category and the retry hint, or any other error. */
  datatype ExecutionError = Api(category: Category, retryable: bool) | Plain

  /** Why the sender failed. */
  datatype SendError = BadRoute | ContextEnded | OtherNetwork

  /** What the limiter, the request builder, the sender and the body reader answer, should they be
      asked. The builder's error is the caller's own and may be anything. */
  datatype Turn = Granted | LimiterFails(contextEnded: bool)

  datatype Built = Request | NoRequest | BuildFails(error: ExecutionError)

  datatype Sent = Answered(status: int) | SendFails(cause: SendError)

  datatype Body = Complete | TooLarge | BodyFails

  /** All that one attempt may meet; `contextDone` is what the context says after a failure. */
  datatype Attempt = Attempt(turn: Turn, built: Built, sent: Sent, body: Body, contextDone: bool)

  datatype Call = Acquire | Build | Do | ReadBody | Block

  /** What `executeAttempt` returns. */
  datatype AttemptResult = AttemptResult(status: Option<int>, retry: bool, error: Option<ExecutionError>)

  // ---------- One attempt ----------

  function TransportError(operation: Operation, cause: SendError): ExecutionError {
    if cause.BadRoute? then Api(Validation, false)
    else if operation.Mutation? then Api(UnknownExecutionState, false)
    else Api(if cause.ContextEnded? then Timeout else Network, true)
  }

  function ResponseError(operation: Operation): ExecutionError {
    if operation.Mutation? then Api(UnknownExecutionState, false) else Api(ExchangeUnavailable, true)
  }

  predicate RetryableReadStatus(status: int) {
    status == 408 || status == 425 || status == 500 || status == 502 || status == 503 || status == 504
  }

  predicate RetryableApiError(error: ExecutionError) {
    error.Api? && error.retryable
  }

  predicate RateLimited(status: int) {
    status == 429 || status == 418
  }

  /** What an attempt amounts to. */
  function ResultOf(operation: Operation, a: Attempt): AttemptResult {
    if a.turn.LimiterFails? then
      AttemptResult(None, false, Some(if a.turn.contextEnded then Api(Timeout, true) else Api(Internal, false)))
    else if a.built.BuildFails? then AttemptResult(None, false, Some(a.built.error))
    else if a.built.NoRequest? then AttemptResult(None, false, Some(Plain))
    else if a.sent.SendFails? then
      var error := TransportError(operation, a.sent.cause);
      AttemptResult(None, operation.Read? && RetryableApiError(error) && !a.contextDone, Some(error))
    else if a.body.BodyFails? then
      AttemptResult(None, operation.Read? && !a.contextDone, Some(ResponseError(operation)))
    else if a.body.TooLarge? then AttemptResult(None, false, Some(ResponseError(operation)))
    else AttemptResult(Some(a.sent.status), operation.Read? && RetryableReadStatus(a.sent.status), None)
  }

  predicate Sends(a: Attempt) {
    a.turn.Granted? && a.built.Request?
  }

  predicate Blocks(a: Attempt) {
    Sends(a) && a.sent.Answered? && a.body.Complete? && RateLimited(a.sent.status)
  }

  /** How many of its calls, in their fixed order, an attempt makes. */
  function Depth(a: Attempt): (n: nat)
    ensures 1 <= n <= 5
  {
    if a.turn.LimiterFails? then 1
    else if !a.built.Request? then 2
    else if a.sent.SendFails? then 3
    else if !Blocks(a) then 4
    else 5
  }

  const ORDER := [Acquire, Build, Do, ReadBody, Block]

  function CallsOf(a: Attempt): seq<Call> {
    ORDER[..Depth(a)]
  }

  /** What the executor depends on, answering from a script and writing down every call. */
  class Dependencies {
    const script: seq<Attempt>
    const waits: seq<bool>
    var at: nat
    var calls: seq<Call>

    constructor (script: seq<Attempt>, waits: seq<bool>)
      requires |waits| >= |script|
      ensures this.script == script && this.waits == waits && at == 0 && calls == []
    {
      this.script, this.waits, at, calls := script, waits, 0, [];
    }

    method WaitForTurn() returns (turn: Turn)
      requires at < |script|
      modifies `calls
      ensures turn == script[at].turn && calls == old(calls) + [Acquire]
    {
      calls := calls + [Acquire];
      turn := script[at].turn;
    }

    method BuildRequest() returns (built: Built)
      requires at < |script|
      modifies `calls
      ensures built == script[at].built && calls == old(calls) + [Build]
    {
      calls := calls + [Build];
      built := script[at].built;
    }

    method Send() returns (sent: Sent)
      requires at < |script|
      modifies `calls
      ensures sent == script[at].sent && calls == old(calls) + [Do]
    {
      calls := calls + [Do];
      sent := script[at].sent;
    }

    method ReadAll() returns (body: Body)
      requires at < |script|
      modifies `calls
      ensures body == script[at].body && calls == old(calls) + [ReadBody]
    {
      calls := calls + [ReadBody];
      body := script[at].body;
    }

    /** `applyRetryAfter`: the limiter is told to hold back the keys of this execution. */
    method BlockKeys()
      modifies `calls
      ensures calls == old(calls) + [Block]
    {
      calls := calls + [Block];
    }

    method ContextDone() returns (done: bool)
      requires at < |script|
      ensures done == script[at].contextDone
    {
      done := script[at].contextDone;
    }

    /** The wait between two attempts. */
    method Pause() returns (completed: bool)
      requires at < |waits|
      modifies `at
      ensures at == old(at) + 1 && completed == waits[old(at)]
    {
      completed := waits[at];
      at := at + 1;
    }
  }

  /** `executeAttempt`. */
  method ExecuteAttempt(operation: Operation, d: Dependencies) returns (result: AttemptResult)
    requires d.at < |d.script|
    modifies d`calls
    ensures result == ResultOf(operation, d.script[d.at])
    ensures d.calls == old(d.calls) + CallsOf(d.script[d.at])
  {
    var turn := d.WaitForTurn();
    if turn.LimiterFails? {
      var error := if turn.contextEnded then Api(Timeout, true) else Api(Internal, false);
      return AttemptResult(None, false, Some(error));
    }

    var built := d.BuildRequest();
    if built.BuildFails? {
      return AttemptResult(None, false, Some(built.error));
    }
    if built.NoRequest? {
      return AttemptResult(None, false, Some(Plain));
    }

    var sent := d.Send();
    if sent.SendFails? {
      var error := TransportError(operation, sent.cause);
      var done := d.ContextDone();
      return AttemptResult(None, operation.Read? && RetryableApiError(error) && !done, Some(error));
    }

    var body := d.ReadAll();
    if body.BodyFails? {
      var done := d.ContextDone();
      return AttemptResult(None, operation.Read? && !done, Some(ResponseError(operation)));
    }
    if body.TooLarge? {
      return AttemptResult(None, false, Some(ResponseError(operation)));
    }

    if RateLimited(sent.status) {
      d.BlockKeys();
    }
    result := AttemptResult(Some(sent.status), operation.Read? && RetryableReadStatus(sent.status), None);
  }

  // ---------- Execute ----------

  /** What the caller gets and which calls were made. */
  datatype Execution = Execution(status: Option<int>, error: Option<ExecutionError>, calls: seq<Call>)

  function AttemptsAllowed(operation: Operation, policyAttempts: nat): nat {
    if operation.Mutation? then 1 else policyAttempts
  }

  /** The context ended during the wait before another attempt. */
  function WaitFailed(operation: Operation): ExecutionError {
    TransportError(operation, ContextEnded)
  }

  /** The loop of `Execute`; the return behind it is never reached. */
  method Execute(operation: Operation, policyAttempts: nat, d: Dependencies)
    returns (status: Option<int>, error: Option<ExecutionError>)
    requires 1 <= policyAttempts <= 5
    requires |d.script| >= AttemptsAllowed(operation, policyAttempts) && |d.waits| >= |d.script|
    requires d.at == 0 && d.calls == []
    modifies d
    ensures Execution(status, error, d.calls)
         == Outcome(operation, AttemptsAllowed(operation, policyAttempts), d.script, d.waits, [])
  {
    var maxAttempts := AttemptsAllowed(operation, policyAttempts);
    var attempt := 1;
    while attempt <= maxAttempts
      invariant 1 <= attempt <= maxAttempts && d.at == attempt - 1
      invariant Outcome(operation, maxAttempts, d.script, d.waits, [])
             == Outcome(operation, maxAttempts - (attempt - 1), d.script[d.at..], d.waits[d.at..], d.calls)
      decreases maxAttempts - attempt
    {
      var result := ExecuteAttempt(operation, d);
      if result.error.None? && !result.retry {
        return result.status, None;
      }
      if !result.retry || attempt == maxAttempts {
        return result.status, result.error;
      }
      assert d.script[d.at..][1..] == d.script[d.at + 1..] && d.waits[d.at..][1..] == d.waits[d.at + 1..];
      var completed := d.Pause();
      if !completed {
        return None, Some(WaitFailed(operation));
      }
      attempt := attempt + 1;
    }
    assert false;
  }

  /** The same, one attempt after the other. */
  function Outcome(
    operation: Operation, attempts: nat, script: seq<Attempt>, waits: seq<bool>, before: seq<Call>): Execution
    requires attempts >= 1 && |script| >= attempts && |waits| >= attempts
    decreases attempts
  {
    var result, calls := ResultOf(operation, script[0]), before + CallsOf(script[0]);
    if !result.retry || attempts == 1 then Execution(result.status, result.error, calls)
    else if !waits[0] then Execution(None, Some(WaitFailed(operation)), calls)
    else Outcome(operation, attempts - 1, script[1..], waits[1..], calls)
  }

  // ---------- What the executor promises ----------

  function Count(calls: seq<Call>, c: Call): nat {
    if calls == [] then 0
    else Count(calls[..|calls| - 1], c) + (if calls[|calls| - 1] == c then 1 else 0)
  }

  lemma {:induction false} CountConcat(one: seq<Call>, two: seq<Call>, c: Call)
    ensures Count(one + two, c) == Count(one, c) + Count(two, c)
  {
    if two == [] {
      assert one + two == one;
    } else {
      var front := two[..|two| - 1];
      CountConcat(one, front, c);
      assert (one + two)[..|one + two| - 1] == one + front;
    }
  }

  lemma CountSnoc(calls: seq<Call>, last: Call, c: Call)
    ensures Count(calls + [last], c) == Count(calls, c) + (if last == c then 1 else 0)
  {
    assert (calls + [last])[..|calls|] == calls;
  }

  lemma {:induction false} CountsOfPrefix(n: nat)
    requires n <= 5
    ensures Count(ORDER[..n], Acquire) == if n >= 1 then 1 else 0
    ensures Count(ORDER[..n], Do) == if n >= 3 then 1 else 0
  {
    if n > 0 {
      CountsOfPrefix(n - 1);
      assert ORDER[..n] == ORDER[..n - 1] + [ORDER[n - 1]];
      CountSnoc(ORDER[..n - 1], ORDER[n - 1], Acquire);
      CountSnoc(ORDER[..n - 1], ORDER[n - 1], Do);
    }
  }

  lemma CountsOfAttempt(a: Attempt)
    ensures Count(CallsOf(a), Acquire) == 1
    ensures Count(CallsOf(a), Do) == if Sends(a) then 1 else 0
  {
    CountsOfPrefix(Depth(a));
  }

  /** Every attempt asks the limiter once and sends at most once; there are never more attempts
      than allowed. */
  lemma {:induction false} CallsAreBounded(
    operation: Operation, attempts: nat, script: seq<Attempt>, waits: seq<bool>, before: seq<Call>)
    requires attempts >= 1 && |script| >= attempts && |waits| >= attempts
    ensures var calls := Outcome(operation, attempts, script, waits, before).calls;
            && Count(before, Acquire) + 1 <= Count(calls, Acquire) <= Count(before, Acquire) + attempts
            && Count(calls, Do) - Count(before, Do) <= Count(calls, Acquire) - Count(before, Acquire)
    decreases attempts
  {
    var calls := before + CallsOf(script[0]);
    CountConcat(before, CallsOf(script[0]), Acquire);
    CountConcat(before, CallsOf(script[0]), Do);
    CountsOfAttempt(script[0]);
    if ResultOf(operation, script[0]).retry && attempts > 1 && waits[0] {
      CallsAreBounded(operation, attempts - 1, script[1..], waits[1..], calls);
    }
  }

  /** A mutation is sent at most once, a read at most as often as the policy says. */
  lemma SentAtMost(operation: Operation, policyAttempts: nat, script: seq<Attempt>, waits: seq<bool>)
    requires policyAttempts >= 1
    requires |script| >= AttemptsAllowed(operation, policyAttempts) && |waits| >= |script|
    ensures var r := Outcome(operation, AttemptsAllowed(operation, policyAttempts), script, waits, []);
            Count(r.calls, Do) <= Count(r.calls, Acquire) <= if operation == Mutation then 1 else policyAttempts
  {
    CallsAreBounded(operation, AttemptsAllowed(operation, policyAttempts), script, waits, []);
  }

  /** Every send comes right after its own build and its own turn at the limiter, and a block for a
      rate-limit answer only after a response was read. */
  ghost predicate EachSendAcquired(calls: seq<Call>) {
    && (forall i {:trigger calls[i]} | 0 <= i < |calls| && calls[i] == Do ::
          i >= 2 && calls[i - 1] == Build && calls[i - 2] == Acquire)
    && (forall i {:trigger calls[i]} | 0 <= i < |calls| && calls[i] == Block ::
          i >= 4 && calls[i - 1] == ReadBody && calls[i - 2] == Do)
  }

  lemma AttemptKeepsOrder(before: seq<Call>, a: Attempt)
    requires EachSendAcquired(before)
    ensures EachSendAcquired(before + CallsOf(a))
  {
    var calls := before + CallsOf(a);
    forall i {:trigger calls[i]} | 0 <= i < |calls|
      ensures calls[i] == Do ==> i >= 2 && calls[i - 1] == Build && calls[i - 2] == Acquire
      ensures calls[i] == Block ==> i >= 4 && calls[i - 1] == ReadBody && calls[i - 2] == Do
    {
      if i < |before| {
        assert calls[i] == before[i];
      } else {
        assert calls[i] == ORDER[i - |before|];
      }
    }
  }

  lemma {:induction false} SendsAreAcquired(
    operation: Operation, attempts: nat, script: seq<Attempt>, waits: seq<bool>, before: seq<Call>)
    requires attempts >= 1 && |script| >= attempts && |waits| >= attempts
    requires EachSendAcquired(before)
    ensures EachSendAcquired(Outcome(operation, attempts, script, waits, before).calls)
    decreases attempts
  {
    AttemptKeepsOrder(before, script[0]);
    if ResultOf(operation, script[0]).retry && attempts > 1 && waits[0] {
      SendsAreAcquired(operation, attempts - 1, script[1..], waits[1..], before + CallsOf(script[0]));
    }
  }

  /** A mutation reports an error as retryable only if nothing was sent; once something was sent,
      an error says that the state is unknown, or that the route never existed. */
  lemma MutationErrors(script: seq<Attempt>, waits: seq<bool>)
    requires |script| >= 1 && |waits| >= 1
    ensures var r := Outcome(Mutation, 1, script, waits, []);
            && (r.error.Some? && RetryableApiError(r.error.value) ==> Count(r.calls, Do) == 0)
            && (r.error.Some? && Count(r.calls, Do) > 0 ==>
                  r.error.value == Api(UnknownExecutionState, false) || r.error.value == Api(Validation, false))
            && (r.error.None? <==> Sends(script[0]) && script[0].sent.Answered? && script[0].body.Complete?)
  {
    CountsOfAttempt(script[0]);
    CountConcat([], CallsOf(script[0]), Do);
  }

  // ---------- What is repeated, and what the caller gets ----------

  /** The attempt was answered, and the answer was read to its end. */
  predicate CompleteAnswer(a: Attempt) {
    a.turn == Granted && a.built == Request && a.sent.Answered? && a.body == Complete
  }

  /** What a read tries again: an answer that says the server was not able to, and a request or an
      answer lost on the way while the caller still waits. A request without a route is not. */
  predicate WorthRepeating(a: Attempt) {
    && a.turn == Granted && a.built == Request
    && match a.sent
       case Answered(status) =>
         (a.body == Complete && status in {408, 425, 500, 502, 503, 504}) || (a.body == BodyFails && !a.contextDone)
       case SendFails(cause) => cause != BadRoute && !a.contextDone
  }

  lemma RetriedExactly(operation: Operation, a: Attempt)
    ensures ResultOf(operation, a).retry <==> operation == Read && WorthRepeating(a)
  {
  }

  /** What the caller of a single attempt gets: the status of a complete answer, and otherwise the
      error of the first of the four that failed. */
  lemma AnswerOf(operation: Operation, a: Attempt)
    ensures var r := ResultOf(operation, a);
            && (CompleteAnswer(a) ==> r.status == Some(a.sent.status) && r.error == None)
            && (!CompleteAnswer(a) ==> r.status == None && r.error.Some?)
            && (a.turn == LimiterFails(true) ==> r.error == Some(Api(Timeout, true)))
            && (a.turn == LimiterFails(false) ==> r.error == Some(Api(Internal, false)))
            && (a.turn == Granted ==>
                  && (a.built.BuildFails? ==> r.error == Some(a.built.error))
                  && (a.built == NoRequest ==> r.error == Some(Plain))
                  && (a.built == Request && a.sent.SendFails? ==>
                        r.error == Some(if a.sent.cause == BadRoute then Api(Validation, false)
                                        else if operation == Mutation then Api(UnknownExecutionState, false)
                                        else if a.sent.cause == ContextEnded then Api(Timeout, true)
                                        else Api(Network, true)))
                  && (a.built == Request && a.sent.Answered? && a.body != Complete ==>
                        r.error == Some(if operation == Mutation then Api(UnknownExecutionState, false)
                                        else Api(ExchangeUnavailable, true))))
  {
  }

  /** Which calls an attempt makes: the limiter's keys are held back exactly after a complete answer
      of 429 or 418, and each call needs the one before it to have succeeded. */
  lemma CallsAre(a: Attempt)
    ensures a.turn != Granted ==> CallsOf(a) == [Acquire]
    ensures a.turn == Granted && a.built != Request ==> CallsOf(a) == [Acquire, Build]
    ensures a.turn == Granted && a.built == Request && a.sent.SendFails? ==> CallsOf(a) == [Acquire, Build, Do]
    ensures a.turn == Granted && a.built == Request && a.sent.Answered? ==>
              CallsOf(a) == [Acquire, Build, Do, ReadBody]
                            + (if a.body == Complete && a.sent.status in {429, 418} then [Block] else [])
  {
  }

  /** A complete answer with a status below 300 ends the execution, of a read or a mutation, with
      that status and exactly one more send. */
  lemma SuccessEndsTheExecution(
    operation: Operation, attempts: nat, script: seq<Attempt>, waits: seq<bool>, before: seq<Call>)
    requires attempts >= 1 && |script| >= attempts && |waits| >= attempts
    requires CompleteAnswer(script[0]) && 200 <= script[0].sent.status < 300
    ensures var r := Outcome(operation, attempts, script, waits, before);
            && r.status == Some(script[0].sent.status) && r.error == None
            && r.calls == before + [Acquire, Build, Do, ReadBody]
            && Count(r.calls, Do) == Count(before, Do) + 1
  {
    RetriedExactly(operation, script[0]);
    assert CallsOf(script[0]) == [Acquire, Build, Do, ReadBody];
    CountConcat(before, CallsOf(script[0]), Do);
    CountsOfAttempt(script[0]);
  }

  /** A mutation is attempted once, whatever comes of it. */
  lemma MutationIsAttemptedOnce(policyAttempts: nat, script: seq<Attempt>, waits: seq<bool>, before: seq<Call>)
    requires |script| >= 1 && |waits| >= 1
    ensures AttemptsAllowed(Mutation, policyAttempts) == 1
    ensures var r := Outcome(Mutation, 1, script, waits, before);
            && r.status == ResultOf(Mutation, script[0]).status && r.error == ResultOf(Mutation, script[0]).error
            && r.calls == before + CallsOf(script[0])
  {
    RetriedExactly(Mutation, script[0]);
  }

  /** A read goes on to another attempt exactly when attempts are left, the last one is worth
      repeating and the wait in between completes. The limiter is asked once per attempt made, and
      the caller gets what the last attempt came to, or a timeout when a wait was cut short. */
  lemma {:induction false} ReadStopsWhenSettled(
    attempts: nat, script: seq<Attempt>, waits: seq<bool>, before: seq<Call>) returns (n: nat)
    requires attempts >= 1 && |script| >= attempts && |waits| >= attempts
    ensures n < attempts
    ensures forall i | 0 <= i < n :: WorthRepeating(script[i]) && waits[i]
    ensures n == attempts - 1 || !WorthRepeating(script[n]) || !waits[n]
    ensures Count(Outcome(Read, attempts, script, waits, before).calls, Acquire) == Count(before, Acquire) + n + 1
    ensures var r, last := Outcome(Read, attempts, script, waits, before), ResultOf(Read, script[n]);
            if WorthRepeating(script[n]) && n < attempts - 1
            then r.status.None? && r.error == Some(Api(Timeout, true))
            else r.status == last.status && r.error == last.error
    decreases attempts
  {
    var calls := before + CallsOf(script[0]);
    RetriedExactly(Read, script[0]);
    CountConcat(before, CallsOf(script[0]), Acquire);
    CountsOfAttempt(script[0]);
    if WorthRepeating(script[0]) && attempts > 1 && waits[0] {
      var m := ReadStopsWhenSettled(attempts - 1, script[1..], waits[1..], calls);
      n := m + 1;
      forall i | 0 <= i < n ensures WorthRepeating(script[i]) && waits[i] {
        assert i > 0 ==> script[i] == script[1..][i - 1] && waits[i] == waits[1..][i - 1];
      }
    } else {
      n := 0;
    }
  }
}
