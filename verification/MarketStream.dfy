/** The Binance market stream object (exchange/binance/websocket.go): its remembered streams and
    the commands that change them. What the session answers to a write is a parameter. */
module MarketStream {
  import opened Results
  import opened Texts
  import opened Sorting
  import opened MarketStreams

  datatype StreamError = NoStreams | TooManyStreams | InvalidName | ControlCharacter | DuplicateStream
                       | SlotNotFree | WriteFailed

  /** `unicode.IsControl`. */
  predicate IsControl(c: char) {
    c <= '\U{1F}' || '\U{7F}' <= c <= '\U{9F}'
  }

  ghost predicate ValidName(name: string) {
    name != "" && TrimSpace(name) == name && forall i | 0 <= i < |name| :: !IsControl(name[i])
  }

  ghost predicate Distinct(names: seq<string>) {
    forall i, j | 0 <= i < j < |names| :: names[i] != names[j]
  }

  ghost predicate ValidStreams(names: seq<string>) {
    && 0 < |names| <= MAX_MARKET_STREAMS
    && (forall i | 0 <= i < |names| :: ValidName(names[i]))
    && Distinct(names)
  }

  method ContainsControl(name: string) returns (found: bool)
    ensures found <==> exists i :: 0 <= i < |name| && IsControl(name[i])
  {
    for i := 0 to |name|
      invariant forall k | 0 <= k < i :: !IsControl(name[k])
    {
      if IsControl(name[i]) {
        return true;
      }
    }
    return false;
  }

  method ValidateMarketStreams(names: seq<string>) returns (r: Result<seq<string>, StreamError>)
    ensures r.Ok? <==> ValidStreams(names)
    ensures r.Ok? ==> r.value == names
  {
    if |names| == 0 {
      return Err(NoStreams);
    }
    if |names| > MAX_MARKET_STREAMS {
      return Err(TooManyStreams);
    }
    var validated, seen := [], {};
    for i := 0 to |names|
      invariant validated == names[..i] && seen == set n | n in names[..i]
      invariant forall k | 0 <= k < i :: ValidName(names[k])
      invariant Distinct(names[..i])
    {
      var name := names[i];
      if name == "" || TrimSpace(name) != name {
        return Err(InvalidName);
      }
      var control := ContainsControl(name);
      if control {
        return Err(ControlCharacter);
      }
      if name in seen {
        var k :| 0 <= k < i && names[k] == name;
        assert !Distinct(names);
        return Err(DuplicateStream);
      }
      assert names[..i + 1] == names[..i] + [name];
      seen := seen + {name};
      validated := validated + [name];
    }
    assert names[..|names|] == names;
    return Ok(validated);
  }

  class MarketStream {
    var streams: set<string>
    var nextID: nat

    constructor (names: seq<string>)
      requires ValidStreams(names)
      ensures streams == SetOf(names) && nextID == 0
    {
      streams := set n | n in names;
      nextID := 0;
    }

    method PickNames(names: seq<string>, remembered: bool) returns (picked: seq<string>)
      ensures picked == Pick(names, streams, remembered)
    {
      picked := [];
      for i := 0 to |names|
        invariant picked == Pick(names[..i], streams, remembered)
      {
        assert names[..i + 1][..i] == names[..i];
        if (names[i] in streams) == remembered {
          picked := picked + [names[i]];
        }
      }
      assert names[..|names|] == names;
    }

    /** `sent` is the command that went out; without one nothing has changed. */
    method Subscribe(names: seq<string>, slotFree: bool, writeOk: bool)
      returns (sent: seq<string>, error: Option<StreamError>)
      requires |streams| <= MAX_MARKET_STREAMS
      modifies this
      ensures |streams| <= MAX_MARKET_STREAMS
      ensures sent == if ValidStreams(names) && slotFree && writeOk
                      then ToSend(true, names, old(streams)) else []
      ensures streams == After(true, sent, old(streams))
      ensures error.None? ==> SetOf(names) <= streams
      ensures !ValidStreams(names) ==> error.Some?
      ensures ValidStreams(names) ==>
                var newStreams := Pick(names, old(streams), false);
                error == if |old(streams)| + |newStreams| > MAX_MARKET_STREAMS then Some(TooManyStreams)
                         else if newStreams == [] then None
                         else if !slotFree then Some(SlotNotFree)
                         else if !writeOk then Some(WriteFailed) else None
    {
      sent, error := [], None;
      var validated := ValidateMarketStreams(names);
      if validated.Err? {
        error := Some(validated.error);
        return;
      }
      var newStreams := PickNames(names, false);
      if |streams| + |newStreams| > MAX_MARKET_STREAMS {
        error := Some(TooManyStreams);
        return;
      }
      if |newStreams| == 0 {
        NoneLeft(names, streams, false);
        return;
      }
      if !slotFree {
        error := Some(SlotNotFree);
        return;
      }
      nextID := nextID + 1;
      if !writeOk {
        error := Some(WriteFailed);
        return;
      }
      LimitKept(true, names, streams);
      sent := newStreams;
      AddAll(newStreams);
      NowRemembered(names, old(streams));
    }

    method AddAll(names: seq<string>)
      modifies `streams
      ensures streams == After(true, names, old(streams))
    {
      for i := 0 to |names|
        invariant streams == old(streams) + SetOf(names[..i])
      {
        assert names[..i + 1] == names[..i] + [names[i]];
        SetOfSnoc(names[..i], names[i]);
        streams := streams + {names[i]};
      }
      assert names[..|names|] == names;
    }

    method DeleteAll(names: seq<string>)
      modifies `streams
      ensures streams == After(false, names, old(streams))
    {
      for i := 0 to |names|
        invariant streams == old(streams) - SetOf(names[..i])
      {
        assert names[..i + 1] == names[..i] + [names[i]];
        SetOfSnoc(names[..i], names[i]);
        streams := streams - {names[i]};
      }
      assert names[..|names|] == names;
    }

    method Unsubscribe(names: seq<string>, slotFree: bool, writeOk: bool)
      returns (sent: seq<string>, error: Option<StreamError>)
      modifies this
      ensures sent == if ValidStreams(names) && slotFree && writeOk
                      then ToSend(false, names, old(streams)) else []
      ensures streams == After(false, sent, old(streams))
      ensures error.None? ==> SetOf(names) !! streams
      ensures !ValidStreams(names) ==> error.Some?
      ensures ValidStreams(names) ==>
                error == if Pick(names, old(streams), true) == [] then None
                         else if !slotFree then Some(SlotNotFree)
                         else if !writeOk then Some(WriteFailed) else None
    {
      sent, error := [], None;
      var validated := ValidateMarketStreams(names);
      if validated.Err? {
        error := Some(validated.error);
        return;
      }
      var active := PickNames(names, true);
      if |active| == 0 {
        NoneLeft(names, streams, true);
        return;
      }
      if !slotFree {
        error := Some(SlotNotFree);
        return;
      }
      nextID := nextID + 1;
      if !writeOk {
        error := Some(WriteFailed);
        return;
      }
      sent := active;
      DeleteAll(active);
      NoLongerRemembered(names, old(streams));
    }

    /** The connect hook sends all remembered streams in one command, in ascending order. */
    method Resubscribe(writeOk: bool) returns (sent: seq<string>, ok: bool)
      modifies `nextID
      ensures ok <==> streams == {} || writeOk
      ensures ok ==> SetOf(sent) == streams && SortedBy(sent, LexLess)
    {
      var names := CollectNames();
      sent := SortSlice(names, LexLess);
      NamesSorted(names);
      if |sent| == 0 {
        assert |names| == 0 && SetOf(names) == {};
        return sent, true;
      }
      assert names[0] in SetOf(names);
      nextID := nextID + 1;
      if !writeOk {
        return sent, false;
      }
      return sent, true;
    }

    method CollectNames() returns (names: seq<string>)
      ensures SetOf(names) == streams && Distinct(names)
    {
      names := [];
      var pending := streams;
      while pending != {}
        invariant pending <= streams && SetOf(names) == streams - pending && Distinct(names)
      {
        var name :| name in pending;
        assert name !in SetOf(names);
        SetOfSnoc(names, name);
        names := names + [name];
        pending := pending - {name};
      }
    }
  }

  lemma NoneLeft(names: seq<string>, streams: set<string>, remembered: bool)
    requires Pick(names, streams, remembered) == []
    ensures forall n | n in names :: (n in streams) != remembered
  {
    forall n | n in names ensures (n in streams) != remembered {
      assert n !in Pick(names, streams, remembered);
    }
  }

  lemma NowRemembered(names: seq<string>, streams: set<string>)
    ensures SetOf(names) <= After(true, Pick(names, streams, false), streams)
  {
    forall n | n in SetOf(names) ensures n in After(true, Pick(names, streams, false), streams) {
      assert n in streams || n in Pick(names, streams, false);
    }
  }

  lemma NoLongerRemembered(names: seq<string>, streams: set<string>)
    ensures SetOf(names) !! After(false, Pick(names, streams, true), streams)
  {
    forall n | n in SetOf(names) ensures n !in After(false, Pick(names, streams, true), streams) {
      assert n !in streams || n in Pick(names, streams, true);
    }
  }

  lemma NamesSorted(names: seq<string>)
    requires Distinct(names)
    ensures SortedBy(SortSlice(names, LexLess), LexLess)
    ensures SetOf(SortSlice(names, LexLess)) == SetOf(names)
  {
    forall i, j | 0 <= i < |names| && 0 <= j < |names| && i != j
      ensures LexLess(names[i], names[j]) <==> !LexLess(names[j], names[i])
    {
      assert names[i] != names[j];
      LexTotal(names[i], names[j]);
    }
    forall a, b, c | a in names && b in names && c in names && LexLess(a, b) && LexLess(b, c)
      ensures LexLess(a, c)
    {
      LexTransitive(a, b, c);
    }
    SortSliceSorts(names, LexLess);
    forall n ensures n in SortSlice(names, LexLess) <==> n in names {
      SameElements(names, SortSlice(names, LexLess), n);
    }
  }
}
