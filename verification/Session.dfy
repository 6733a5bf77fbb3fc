/** The session's fields and the methods that change them under its lock (stream/session.go). Each
    method is one critical section; the calls on the connection that follow it are the caller's. */
module Session {
  import opened Results
  import opened SessionProtocol

  datatype StartError = AlreadyClosed | AlreadyRun

  class Session {
    var connection: Option<nat>
    var generation: nat
    var started: bool
    var closed: bool
    var reconnect: bool

    ghost function Abs(): Shared
      reads this
    {
      Shared(connection, generation, started, closed, reconnect)
    }

    constructor ()
      ensures Abs() == NEW_SESSION
    {
      connection, generation, started, closed, reconnect := None, 0, false, false, false;
    }

    method Begin() returns (error: Option<StartError>)
      modifies this
      ensures Abs() == LockStart(old(Abs()))
      ensures error == if old(closed) then Some(AlreadyClosed)
                       else if old(started) then Some(AlreadyRun) else None
    {
      if closed {
        return Some(AlreadyClosed);
      }
      if started {
        return Some(AlreadyRun);
      }
      started := true;
      return None;
    }

    method Install(c: nat) returns (installedGeneration: nat, accepted: bool)
      modifies this
      ensures Abs() == LockInstall(old(Abs()), c)
      ensures accepted == !old(closed) && installedGeneration == generation
    {
      if closed {
        return generation, false;
      }
      connection := Some(c);
      reconnect := false;
      generation := generation + 1;
      return generation, true;
    }

    method Remove(c: nat)
      modifies this
      ensures Abs() == LockRemove(old(Abs()), c)
    {
      if connection == Some(c) {
        connection := None;
      }
    }

    /** Whether the connection ended because a reconnect was requested. */
    method ReconnectCause(c: nat) returns (requested: bool)
      modifies this
      ensures Abs() == LockAttribute(old(Abs()), c)
      ensures requested <==> Requested(old(Abs()), c)
    {
      if connection == Some(c) && reconnect {
        reconnect := false;
        return true;
      }
      return false;
    }

    /** The connection to close, or why there is none. */
    method Reconnect() returns (result: Result<nat, WriteError>)
      modifies this
      ensures Abs() == LockReconnect(old(Abs()))
      ensures result == LockTarget(old(Abs()))
    {
      if closed {
        return Err(SessionClosed);
      }
      if connection.None? {
        return Err(NotConnected);
      }
      reconnect := true;
      return Ok(connection.value);
    }

    /** The connection the caller of Close still has to close. */
    method Close() returns (left: Option<nat>)
      modifies this
      ensures Abs() == LockClose(old(Abs()))
      ensures left == if old(closed) then None else old(connection)
    {
      if closed {
        return None;
      }
      closed := true;
      reconnect := false;
      left := connection;
      connection := None;
    }

    method Finish() returns (left: Option<nat>)
      modifies this
      ensures Abs() == LockFinish(old(Abs())) && left == old(connection)
    {
      left := connection;
      connection := None;
    }

    /** The connection a Write goes to. */
    method Target() returns (result: Result<nat, WriteError>)
      ensures result == LockTarget(Abs())
    {
      if closed {
        return Err(SessionClosed);
      }
      if connection.None? {
        return Err(NotConnected);
      }
      return Ok(connection.value);
    }

    /** `Write`: outside the lock the message goes to the target, which may refuse it. */
    method Write(accepts: bool) returns (receiver: Option<nat>, error: Option<WriteError>)
      ensures receiver.Some? <==> LockTarget(Abs()).Ok?
      ensures receiver.Some? ==> LockTarget(Abs()) == Ok(receiver.value)
      ensures error.None? <==> receiver.Some? && accepts
      ensures receiver.None? ==> LockTarget(Abs()) == Err(error.value)
    {
      var target := Target();
      if target.Err? {
        return None, Some(target.error);
      }
      return Some(target.value), if accepts then None else Some(ConnectionFailed);
    }
  }
}
