/** A shell session that outlives its connections: the lock sections of one session, as functions
    and as the methods of the class that holds the fields. */
module ShellSessions {
  import opened Options
  import opened ByteRings

  /** The idle timer field: unset, waiting, or still pointing at a timer whose callback has begun. */
  datatype Timer = NoTimer | Armed | Fired

  /** The fields the session's mutex guards; `replay` is what the ring holds. */
  datatype Session = Session(closed: bool, attach: Option<nat>, timer: Timer, replay: seq<byte>)

  function AttachLock(s: Session, sink: nat): Session {
    if s.closed then s else s.(attach := Some(sink), timer := NoTimer)
  }

  function DetachLock(s: Session, sink: nat): Session {
    if s.attach == Some(sink) then s.(attach := None) else s
  }

  function ScheduleLock(s: Session): Session {
    s.(timer := Armed)
  }

  function ReadLock(s: Session, chunk: seq<byte>, size: nat): Session {
    s.(replay := LastN(s.replay + chunk, size))
  }

  function DestroyLock(s: Session): Session {
    if s.closed then s else s.(closed := true, attach := None, timer := NoTimer)
  }

  class ManagedSession {
    var closed: bool
    var attach: Option<nat>
    var idleTimer: Timer
    const ring: ByteRing

    ghost predicate Valid()
      reads this, ring, ring.buf
    {
      ring.Valid()
    }

    ghost function View(): Session
      requires Valid()
      reads this, ring, ring.buf
    {
      Session(closed, attach, idleTimer, LastN(ring.written, ring.size))
    }

    constructor (ringBytes: int)
      ensures Valid() && fresh(ring) && fresh(ring.buf)
      ensures View() == Session(false, None, NoTimer, [])
    {
      closed, attach, idleTimer := false, None, NoTimer;
      ring := new ByteRing(ringBytes);
    }

    method CancelIdleLocked()
      modifies this`idleTimer
      ensures idleTimer == NoTimer
    {
      if idleTimer != NoTimer {
        idleTimer := NoTimer;
      }
    }

    /** Attaching to an open session hands back the scrollback; a closed one refuses. */
    method Attach(sink: nat) returns (snapshot: Result<seq<byte>>)
      requires Valid()
      modifies this
      ensures Valid() && View() == AttachLock(old(View()), sink)
      ensures snapshot == if old(closed) then Err else Ok(old(View()).replay)
    {
      if closed {
        return Err;
      }
      CancelIdleLocked();
      attach := Some(sink);
      var out := ring.Snapshot();
      snapshot := Ok(out);
    }

    /** The locked part of a detach; `released` tells the caller to schedule the idle timer next. */
    method DetachLocked(sink: nat) returns (released: bool)
      requires Valid()
      modifies this
      ensures Valid() && View() == DetachLock(old(View()), sink)
      ensures released <==> old(attach) == Some(sink)
    {
      if attach == Some(sink) {
        attach := None;
        return true;
      }
      released := false;
    }

    method ScheduleIdle()
      requires Valid()
      modifies this
      ensures Valid() && View() == ScheduleLock(old(View()))
    {
      CancelIdleLocked();
      idleTimer := Armed;
    }

    /** The locked part of the read loop: record the chunk and pick who gets it. */
    method Record(chunk: seq<byte>) returns (sink: Option<nat>)
      requires Valid()
      modifies ring, ring.buf
      ensures Valid() && View() == ReadLock(old(View()), chunk, ring.size)
      ensures sink == attach
    {
      LastNAppend(ring.written, chunk, ring.size);
      ring.Write(chunk);
      sink := attach;
    }

    /** The locked part of a destroy; only the caller told `won` goes on to close the terminal. */
    method DestroyLocked() returns (won: bool)
      requires Valid()
      modifies this
      ensures Valid() && View() == DestroyLock(old(View()))
      ensures won <==> !old(closed)
    {
      if closed {
        return false;
      }
      closed := true;
      CancelIdleLocked();
      attach := None;
      won := true;
    }
  }
}
