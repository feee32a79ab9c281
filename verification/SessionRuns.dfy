/** Every interleaving of the threads around one session: connection handlers, the terminal read
    loop, idle-timer callbacks and whoever destroys the session. Each action is one lock section or
    one call made outside the lock. */
module SessionRuns {
  import opened Options
  import opened ByteRings
  import opened Words
  import opened ShellSessions

  /** One connection's time as a sink. `start` and `end` are offsets in the terminal's output;
      `handed` is what the read loop picked for it, `sent` what went out on its connection, of
      which the first `early` bytes left before the scrollback did. */
  datatype Attachment = Attachment(
    start: nat, end: Option<nat>, snapshot: seq<byte>, handed: seq<byte>, sent: seq<byte>, early: nat)

  /** A connection handler: attached but not yet replayed, serving, between the two halves of its
      detach, or gone. */
  datatype Handler = Greeting | Serving | Releasing | Gone

  datatype Reader = Reading | Sending(chunk: seq<byte>, sink: Option<nat>) | Ending | Stopped

  /** A timer callback: about to look the session up, about to check it, about to destroy it. */
  datatype Callback = Looking | Found | Condemned

  datatype World = World(
    size: nat, session: Session, registered: bool, stream: seq<byte>,
    attachments: map<nat, Attachment>, handlers: map<nat, Handler>,
    reader: Reader, callbacks: map<nat, Callback>,
    unregistering: set<nat>, closing: set<nat>, ptyCloses: nat)

  datatype Action =
    | Attach(a: nat)
    | Replay(a: nat)
    | Detach(a: nat)
    | Schedule(a: nat)
    | Kill(thread: nat)
    | Fire(c: nat)
    | Look(c: nat)
    | Check(c: nat)
    | IdleDestroy(c: nat, thread: nat)
    | Read(chunk: seq<byte>)
    | Send
    | ReadError
    | EndReader(thread: nat)
    | Unregister(thread: nat)
    | ClosePty(thread: nat)

  ghost predicate Idle(w: World, thread: nat) {
    thread !in w.unregistering && thread !in w.closing
  }

  ghost predicate Enabled(w: World, act: Action) {
    match act
    case Attach(a) => a !in w.handlers && a !in w.attachments
    case Replay(a) => a in w.handlers && w.handlers[a].Greeting? && a in w.attachments
    case Detach(a) => a in w.handlers && w.handlers[a].Serving?
    case Schedule(a) => a in w.handlers && w.handlers[a].Releasing?
    case Kill(t) => Idle(w, t)
    case Fire(c) => w.session.timer.Armed? && c !in w.callbacks
    case Look(c) => c in w.callbacks && w.callbacks[c].Looking?
    case Check(c) => c in w.callbacks && w.callbacks[c].Found?
    case IdleDestroy(c, t) => c in w.callbacks && w.callbacks[c].Condemned? && Idle(w, t)
    case Read(chunk) => w.reader.Reading? && chunk != [] && Attended(w)
    case Send => w.reader.Sending? && (w.reader.sink.Some? ==> w.reader.sink.value in w.attachments)
    case ReadError => w.reader.Reading?
    case EndReader(t) => w.reader.Ending? && Idle(w, t)
    case Unregister(t) => t in w.unregistering
    case ClosePty(t) => t in w.closing
  }

  /** The sink in place, if any, is a known connection. */
  predicate Attended(w: World) {
    w.session.attach.Some? ==> w.session.attach.value in w.attachments
  }

  /** Whoever is attached stops being so at this point of the output. */
  function EndCurrent(w: World): map<nat, Attachment> {
    if w.session.attach.Some? && w.session.attach.value in w.attachments
    then w.attachments[w.session.attach.value :=
                         w.attachments[w.session.attach.value].(end := Some(|w.stream|))]
    else w.attachments
  }

  function DoAttach(w: World, a: nat): World {
    if w.session.closed then w.(session := AttachLock(w.session, a))
    else w.(session := AttachLock(w.session, a),
            attachments := EndCurrent(w)[a := Attachment(|w.stream|, None, w.session.replay, [], [], 0)],
            handlers := w.handlers[a := Greeting])
  }

  function DoReplay(w: World, a: nat): World
    requires a in w.attachments
  {
    var at := w.attachments[a];
    w.(attachments := w.attachments[a := at.(sent := at.sent + at.snapshot, early := |at.sent|)],
       handlers := w.handlers[a := Serving])
  }

  function DoDetach(w: World, a: nat): World {
    if w.session.attach == Some(a)
    then w.(session := DetachLock(w.session, a), attachments := EndCurrent(w),
            handlers := w.handlers[a := Releasing])
    else w.(session := DetachLock(w.session, a), handlers := w.handlers[a := Gone])
  }

  /** The lock section of a destroy; a thread that finds the session open goes on to tear it down. */
  function DoDestroy(w: World, thread: nat): World {
    if w.session.closed then w.(session := DestroyLock(w.session))
    else w.(session := DestroyLock(w.session), attachments := EndCurrent(w),
            unregistering := w.unregistering + {thread})
  }

  function DoRead(w: World, chunk: seq<byte>): World
    requires Attended(w)
  {
    var sink := w.session.attach;
    w.(session := ReadLock(w.session, chunk, w.size), stream := w.stream + chunk,
       reader := Sending(chunk, sink),
       attachments := if sink.None? then w.attachments
                      else w.attachments[sink.value :=
                             w.attachments[sink.value].(handed := w.attachments[sink.value].handed + chunk)])
  }

  function DoSend(w: World): World
    requires w.reader.Sending? && (w.reader.sink.Some? ==> w.reader.sink.value in w.attachments)
  {
    var sink := w.reader.sink;
    w.(reader := Reading,
       attachments := if sink.None? then w.attachments
                      else w.attachments[sink.value :=
                             w.attachments[sink.value].(sent := w.attachments[sink.value].sent + w.reader.chunk)])
  }

  function DoLook(w: World, c: nat): World {
    w.(callbacks := if w.registered then w.callbacks[c := Found] else w.callbacks - {c})
  }

  function DoCheck(w: World, c: nat): World {
    w.(callbacks := if w.session.attach.Some? then w.callbacks - {c} else w.callbacks[c := Condemned])
  }

  ghost function Next(w: World, act: Action): World
    requires Enabled(w, act)
  {
    match act
    case Attach(a) => DoAttach(w, a)
    case Replay(a) => DoReplay(w, a)
    case Detach(a) => DoDetach(w, a)
    case Schedule(a) => w.(session := ScheduleLock(w.session), handlers := w.handlers[a := Gone])
    case Kill(t) => DoDestroy(w, t)
    case Fire(c) => w.(session := w.session.(timer := Fired), callbacks := w.callbacks[c := Looking])
    case Look(c) => DoLook(w, c)
    case Check(c) => DoCheck(w, c)
    case IdleDestroy(c, t) => DoDestroy(w.(callbacks := w.callbacks - {c}), t)
    case Read(chunk) => DoRead(w, chunk)
    case Send => DoSend(w)
    case ReadError => w.(reader := Ending)
    case EndReader(t) => DoDestroy(w.(reader := Stopped), t)
    case Unregister(t) => w.(unregistering := w.unregistering - {t}, closing := w.closing + {t}, registered := false)
    case ClosePty(t) => w.(closing := w.closing - {t}, ptyCloses := w.ptyCloses + 1)
  }

  function Created(size: nat): World {
    World(size, Session(false, None, NoTimer, []), true, [], map[], map[], Reading, map[], {}, {}, 0)
  }

  // ------------------------------------------------------------------------------ a single close

  /** Exactly one thread ever tears a closed session down, and none tears down an open one. */
  ghost predicate CloseInv(w: World) {
    && w.unregistering !! w.closing
    && |w.unregistering| + |w.closing| + w.ptyCloses == (if w.session.closed then 1 else 0)
    && (w.session.closed ==> w.session.attach.None?)
    && (!w.session.closed ==> w.registered)
  }

  lemma CloseStep(w: World, act: Action)
    requires CloseInv(w) && Enabled(w, act)
    ensures CloseInv(Next(w, act))
    ensures w.session.closed ==> Next(w, act).session.closed
    ensures w.ptyCloses <= Next(w, act).ptyCloses <= 1
  {
    match act
    case Kill(t) => DestroyCloses(w, t);
    case IdleDestroy(c, t) => DestroyCloses(w.(callbacks := w.callbacks - {c}), t);
    case EndReader(t) => DestroyCloses(w.(reader := Stopped), t);
    case Unregister(t) => assert |w.unregistering - {t}| == |w.unregistering| - 1;
    case ClosePty(t) => assert |w.closing - {t}| == |w.closing| - 1;
    case _ => OtherStepKeepsClose(w, act);
  }

  lemma DestroyCloses(w: World, thread: nat)
    requires CloseInv(w) && Idle(w, thread)
    ensures CloseInv(DoDestroy(w, thread)) && DoDestroy(w, thread).ptyCloses == w.ptyCloses <= 1
    ensures DoDestroy(w, thread).session.closed
  {
  }

  lemma OtherStepKeepsClose(w: World, act: Action)
    requires CloseInv(w) && Enabled(w, act)
    requires !act.Kill? && !act.IdleDestroy? && !act.EndReader? && !act.Unregister? && !act.ClosePty?
    ensures CloseInv(Next(w, act)) && Next(w, act).ptyCloses == w.ptyCloses
    ensures Next(w, act).session.closed == w.session.closed
  {
  }

  // -------------------------------------------------------------------------- no session is leaked

  ghost predicate SomeoneReleasing(w: World) {
    exists a :: a in w.handlers && w.handlers[a].Releasing?
  }

  /** An open session that was attached and no longer is has something that will destroy it. */
  ghost predicate NoLeak(w: World) {
    !w.session.closed && w.attachments != map[] && w.session.attach.None? ==>
      w.session.timer.Armed? || w.callbacks != map[] || SomeoneReleasing(w)
  }

  lemma LeakStep(w: World, act: Action)
    requires CloseInv(w) && NoLeak(w) && Attended(w) && Enabled(w, act)
    ensures NoLeak(Next(w, act))
  {
    var next := Next(w, act);
    match act
    case Detach(a) =>
      if w.session.attach == Some(a) {
        assert a in next.handlers && next.handlers[a].Releasing?;
      } else {
        ReleasingStays(w, next, a);
      }
    case Replay(a) =>
      ReleasingStays(w, next, a);
    case Fire(c) =>
      assert c in next.callbacks;
    case Look(c) =>
      assert c in w.callbacks;
      assert w.registered ==> c in next.callbacks;
    case Check(c) =>
      assert w.session.attach.None? ==> c in next.callbacks;
    case _ =>
  }

  lemma ReleasingStays(w: World, next: World, a: nat)
    requires a in w.handlers && !w.handlers[a].Releasing?
    requires next.handlers.Keys == w.handlers.Keys
    requires forall b :: b in w.handlers && b != a ==> next.handlers[b] == w.handlers[b]
    ensures SomeoneReleasing(w) ==> SomeoneReleasing(next)
  {
    if SomeoneReleasing(w) {
      var b :| b in w.handlers && w.handlers[b].Releasing?;
      assert next.handlers[b].Releasing?;
    }
  }

  // ----------------------------------------------------------------------------- exactly-once bytes

  function EndOf(w: World, at: Attachment): nat {
    if at.end.Some? then at.end.value else |w.stream|
  }

  /** The snapshot is the scrollback before the attach, and the bytes handed over are exactly the
      output from the attach up to the end of the attachment. */
  ghost predicate Faithful(w: World, at: Attachment) {
    && at.start <= EndOf(w, at) <= |w.stream|
    && at.snapshot == LastN(w.stream[..at.start], w.size)
    && at.handed == w.stream[at.start..EndOf(w, at)]
  }

  ghost predicate StreamInv(w: World) {
    && w.session.replay == LastN(w.stream, w.size)
    && (forall a :: a in w.attachments ==> Faithful(w, w.attachments[a]))
    && (forall a :: a in w.attachments ==> (w.attachments[a].end.None? <==> w.session.attach == Some(a)))
    && Attended(w)
  }

  /** Ending the current attachment at the present offset keeps every attachment faithful. */
  lemma EndKeepsFaithful(w: World)
    requires StreamInv(w)
    ensures var ended := EndCurrent(w);
            && ended.Keys == w.attachments.Keys
            && (forall a :: a in ended ==> Faithful(w, ended[a]) && ended[a].end.Some?)
  {
    var ended := EndCurrent(w);
    forall a | a in ended
      ensures Faithful(w, ended[a]) && ended[a].end.Some?
    {
      assert Faithful(w, w.attachments[a]);
    }
  }

  lemma AttachKeepsStream(w: World, a: nat)
    requires StreamInv(w) && Enabled(w, Attach(a))
    ensures StreamInv(DoAttach(w, a))
  {
    EndKeepsFaithful(w);
    var next := DoAttach(w, a);
    assert w.stream[..|w.stream|] == w.stream;
    if !w.session.closed {
      forall b | b in next.attachments
        ensures Faithful(next, next.attachments[b])
      {
        if b != a {
          assert Faithful(w, EndCurrent(w)[b]);
        }
      }
    }
  }

  lemma DetachKeepsStream(w: World, a: nat)
    requires StreamInv(w)
    ensures StreamInv(DoDetach(w, a))
  {
    EndKeepsFaithful(w);
    SameStream(w, DoDetach(w, a));
  }

  lemma DestroyKeepsStream(w: World, thread: nat)
    requires StreamInv(w) && (w.session.closed ==> w.session.attach.None?)
    ensures StreamInv(DoDestroy(w, thread))
  {
    EndKeepsFaithful(w);
    SameStream(w, DoDestroy(w, thread));
  }

  lemma SameStream(w: World, next: World)
    requires next.stream == w.stream && next.size == w.size
    ensures forall at :: Faithful(w, at) ==> Faithful(next, at)
  {
  }

  /** Replaying and sending only change what is on the wire. */
  lemma WireChangeKeepsStream(w: World, next: World, a: nat)
    requires StreamInv(w) && a in w.attachments
    requires next.stream == w.stream && next.size == w.size && next.session == w.session
    requires exists sent, early ::
               next.attachments == w.attachments[a := w.attachments[a].(sent := sent, early := early)]
    ensures StreamInv(next)
  {
    SameStream(w, next);
    forall b | b in next.attachments
      ensures Faithful(next, next.attachments[b])
    {
      assert Faithful(w, w.attachments[b]);
    }
  }

  lemma ReadKeepsStream(w: World, chunk: seq<byte>)
    requires StreamInv(w)
    ensures StreamInv(DoRead(w, chunk))
  {
    LastNAppend(w.stream, chunk, w.size);
    var next := DoRead(w, chunk);
    forall a | a in next.attachments
      ensures Faithful(next, next.attachments[a])
    {
      ReadKeepsFaithful(w, chunk, a);
    }
  }

  lemma StreamStep(w: World, act: Action)
    requires StreamInv(w) && CloseInv(w) && Enabled(w, act)
    ensures StreamInv(Next(w, act))
  {
    match act
    case Attach(a) => AttachKeepsStream(w, a);
    case Replay(a) =>
      var at := w.attachments[a];
      assert DoReplay(w, a).attachments == w.attachments[a := at.(sent := at.sent + at.snapshot, early := |at.sent|)];
      WireChangeKeepsStream(w, DoReplay(w, a), a);
    case Detach(a) => DetachKeepsStream(w, a);
    case Kill(t) => DestroyKeepsStream(w, t);
    case IdleDestroy(c, t) => DestroyKeepsStream(w.(callbacks := w.callbacks - {c}), t);
    case EndReader(t) => DestroyKeepsStream(w.(reader := Stopped), t);
    case Read(chunk) => ReadKeepsStream(w, chunk);
    case Send =>
      if w.reader.sink.Some? {
        var a := w.reader.sink.value;
        var at := w.attachments[a];
        assert DoSend(w).attachments == w.attachments[a := at.(sent := at.sent + w.reader.chunk, early := at.early)];
        WireChangeKeepsStream(w, DoSend(w), a);
      } else {
        SameStream(w, DoSend(w));
      }
    case _ => SameStream(w, Next(w, act));
  }

  lemma ReadKeepsFaithful(w: World, chunk: seq<byte>, a: nat)
    requires StreamInv(w) && a in w.attachments
    ensures var next := DoRead(w, chunk); a in next.attachments && Faithful(next, next.attachments[a])
  {
    var at, next := w.attachments[a], DoRead(w, chunk);
    var e := EndOf(w, at);
    assert next.stream[..at.start] == w.stream[..at.start];
    assert next.stream[at.start..e] == w.stream[at.start..e];
    if w.session.attach == Some(a) {
      assert next.stream[at.start..] == w.stream[at.start..] + chunk;
      assert w.stream[at.start..] == w.stream[at.start..|w.stream|];
      assert next.stream[at.start..] == next.stream[at.start..|next.stream|];
    }
  }

  // --------------------------------------------------------------------------- what went out, in order

  /** The chunk picked for a sink but not yet written to it. */
  function InHand(w: World, a: nat): seq<byte> {
    if w.reader.Sending? && w.reader.sink == Some(a) then w.reader.chunk else []
  }

  /** The bytes written so far: live output in order, with the scrollback put in after `early` bytes. */
  ghost predicate Delivered(w: World, a: nat, live: seq<byte>)
    requires a in w.attachments && a in w.handlers
  {
    var at := w.attachments[a];
    && live + InHand(w, a) == at.handed
    && at.early <= |live|
    && at.sent == if w.handlers[a].Greeting? then live else live[..at.early] + at.snapshot + live[at.early..]
  }

  function Live(w: World, a: nat): seq<byte>
    requires a in w.attachments
  {
    var n := |InHand(w, a)|;
    var h := w.attachments[a].handed;
    if n <= |h| then h[..|h| - n] else []
  }

  ghost predicate Carried(w: World, a: nat) {
    a in w.attachments && a in w.handlers && Delivered(w, a, Live(w, a))
  }

  /** Handlers and attachments go together, and the read loop only holds chunks for known sinks. */
  ghost predicate Paired(w: World) {
    && w.handlers.Keys == w.attachments.Keys
    && (w.reader.Sending? && w.reader.sink.Some? ==> w.reader.sink.value in w.attachments)
  }

  ghost predicate WireInv(w: World) {
    Paired(w) && forall a :: a in w.attachments ==> Carried(w, a)
  }

  lemma PairedStep(w: World, act: Action)
    requires Paired(w) && Attended(w) && Enabled(w, act)
    ensures Paired(Next(w, act))
  {
  }

  lemma WireStep(w: World, act: Action)
    requires WireInv(w) && Attended(w) && Enabled(w, act)
    ensures WireInv(Next(w, act))
  {
    PairedStep(w, act);
    forall a | a in Next(w, act).attachments
      ensures Carried(Next(w, act), a)
    {
      assert a in w.attachments ==> Carried(w, a);
      WireStepOne(w, act, a);
    }
  }

  /** The bytes of an attachment move only when it is replayed to, read for or sent to. */
  lemma WireStepOne(w: World, act: Action, a: nat)
    requires Paired(w) && (a in w.attachments ==> Carried(w, a))
    requires Attended(w) && Enabled(w, act) && a in Next(w, act).attachments
    ensures Carried(Next(w, act), a)
  {
    PairedStep(w, act);
    if a in w.attachments {
      match act
      case Replay(b) => ReplayStep(w, b, a);
      case Read(chunk) => ReadStep(w, chunk, a);
      case Send => SendStep(w, a);
      case _ => QuietStep(w, act, a);
    } else {
      assert act == Attach(a);
      assert InHand(Next(w, act), a) == [];
    }
  }

  lemma ReplayStep(w: World, b: nat, a: nat)
    requires Carried(w, a) && b in w.attachments && b in w.handlers && w.handlers[b].Greeting?
    ensures Carried(DoReplay(w, b), a)
  {
    var live := Live(w, a);
    assert Delivered(w, a, live);
    assert Live(DoReplay(w, b), a) == live;
    if a == b {
      assert live[..|live|] + w.attachments[a].snapshot + live[|live|..] == live + w.attachments[a].snapshot;
    }
  }

  lemma ReadStep(w: World, chunk: seq<byte>, a: nat)
    requires Carried(w, a) && Attended(w) && w.reader.Reading?
    ensures Carried(DoRead(w, chunk), a)
  {
    assert Delivered(w, a, Live(w, a));
    assert Live(w, a) == w.attachments[a].handed;
    assert Live(DoRead(w, chunk), a) == Live(w, a);
  }

  lemma SendStep(w: World, a: nat)
    requires Carried(w, a) && Enabled(w, Send)
    ensures Carried(DoSend(w), a)
  {
    var live, at, next := Live(w, a), w.attachments[a], DoSend(w);
    if w.reader.sink == Some(a) {
      AppendLive(live, w.reader.chunk, at.snapshot, at.early);
      assert Live(next, a) == at.handed == live + w.reader.chunk;
      assert InHand(next, a) == [];
      assert next.attachments[a] == at.(sent := at.sent + w.reader.chunk);
    } else {
      assert next.attachments[a] == at && Live(next, a) == live;
    }
  }

  lemma AppendLive(live: seq<byte>, chunk: seq<byte>, snapshot: seq<byte>, early: nat)
    requires early <= |live|
    ensures live[..early] + snapshot + live[early..] + chunk
            == (live + chunk)[..early] + snapshot + (live + chunk)[early..]
  {
    assert (live + chunk)[..early] == live[..early];
    assert (live + chunk)[early..] == live[early..] + chunk;
  }

  lemma QuietStep(w: World, act: Action, a: nat)
    requires Carried(w, a) && Attended(w) && Enabled(w, act)
    requires !act.Replay? && !act.Read? && !act.Send?
    ensures Carried(Next(w, act), a)
  {
    var next := Next(w, act);
    assert Delivered(w, a, Live(w, a));
    assert next.attachments[a].handed == w.attachments[a].handed;
    assert InHand(next, a) == InHand(w, a);
    assert next.handlers[a].Greeting? <==> w.handlers[a].Greeting?;
  }

  // ---------------------------------------------------------------------------------------- runs

  ghost predicate Inv(w: World) {
    CloseInv(w) && NoLeak(w) && StreamInv(w) && WireInv(w)
  }

  ghost predicate Path(ws: seq<World>, acts: seq<Action>) {
    && |ws| == |acts| + 1
    && (forall i {:trigger acts[i]} :: 0 <= i < |acts| ==>
          Enabled(ws[i], acts[i]) && ws[i + 1] == Next(ws[i], acts[i]))
  }

  ghost predicate Run(ws: seq<World>, acts: seq<Action>) {
    Path(ws, acts) && exists size :: ws[0] == Created(size)
  }

  lemma {:induction false} PathKeepsInv(ws: seq<World>, acts: seq<Action>, i: nat)
    requires Path(ws, acts) && Inv(ws[0]) && i < |ws|
    ensures Inv(ws[i])
  {
    if i > 0 {
      var w, act := ws[i - 1], acts[i - 1];
      PathKeepsInv(ws, acts, i - 1);
      CloseStep(w, act);
      LeakStep(w, act);
      StreamStep(w, act);
      WireStep(w, act);
    }
  }

  lemma RunKeepsInv(ws: seq<World>, acts: seq<Action>, i: nat)
    requires Run(ws, acts) && i < |ws|
    ensures Inv(ws[i])
  {
    PathKeepsInv(ws, acts, i);
  }

  /** In every run the terminal is closed at most once and nobody is attached to a closed session;
      an open session that was used and is not attached always has a timer, a callback or a handler
      that will end it. */
  lemma NoLeakAndSingleClose(ws: seq<World>, acts: seq<Action>, i: nat)
    requires Run(ws, acts) && i < |ws|
    ensures ws[i].session.closed ==> ws[i].session.attach.None?
    ensures ws[i].ptyCloses <= 1 && (ws[i].ptyCloses == 1 ==> ws[i].session.closed)
    ensures NoLeak(ws[i])
  {
    RunKeepsInv(ws, acts, i);
  }

  /** Closing is permanent. */
  lemma {:induction false} ClosedForever(ws: seq<World>, acts: seq<Action>, i: nat, j: nat)
    requires Run(ws, acts) && i <= j < |ws| && ws[i].session.closed
    ensures ws[j].session.closed
  {
    if i < j {
      ClosedForever(ws, acts, i, j - 1);
      CloseMonotone(ws, acts, j - 1);
    }
  }

  lemma CloseMonotone(ws: seq<World>, acts: seq<Action>, i: nat)
    requires Run(ws, acts) && i < |acts|
    ensures ws[i].session.closed ==> ws[i + 1].session.closed
  {
    var act := acts[i];
    RunKeepsInv(ws, acts, i);
    CloseStep(ws[i], act);
  }

  /** In every run, every attachment got exactly the scrollback before it and then, once and in
      order, every byte of output from its attach to its end; what is on the wire is all of it but
      the chunk in the read loop's hand. */
  lemma ResumeExactlyOnce(ws: seq<World>, acts: seq<Action>, i: nat, a: nat)
    requires Run(ws, acts) && i < |ws| && a in ws[i].attachments
    ensures var w := ws[i];
            var at := w.attachments[a];
            && Faithful(w, at)
            && at.handed == Live(w, a) + InHand(w, a)
            && (at.end.None? <==> w.session.attach == Some(a))
  {
    RunKeepsInv(ws, acts, i);
    assert Faithful(ws[i], ws[i].attachments[a]);
    assert Carried(ws[i], a);
  }

  // --------------------------------------------------------------------- what went out before the replay

  /** The bytes the read loop sent to a sink in steps i to j - 1. */
  ghost function SentTo(ws: seq<World>, acts: seq<Action>, a: nat, i: nat, j: nat): seq<byte>
    requires |ws| == |acts| + 1 && j < |ws|
  {
    if j <= i then []
    else SentTo(ws, acts, a, i, j - 1) + if acts[j - 1].Send? then InHand(ws[j - 1], a) else []
  }

  /** Until its replay a sink has been sent exactly these bytes. */
  ghost predicate Greeted(w: World, a: nat, bytes: seq<byte>) {
    && a in w.handlers && a in w.attachments
    && (w.handlers[a].Greeting? ==> w.attachments[a].sent == bytes)
  }

  /** What a step puts on the wire of a known sink. */
  function Wired(w: World, act: Action, a: nat): seq<byte>
    requires a in w.attachments
  {
    if act == Replay(a) then w.attachments[a].snapshot else if act.Send? then InHand(w, a) else []
  }

  lemma WireMoves(w: World, act: Action, a: nat)
    requires Enabled(w, act) && a in w.handlers && a in w.attachments
    ensures var v := Next(w, act);
            && a in v.handlers && a in v.attachments
            && v.attachments[a].sent == w.attachments[a].sent + Wired(w, act, a)
            && v.attachments[a].early == (if act == Replay(a) then |w.attachments[a].sent| else w.attachments[a].early)
            && (v.handlers[a].Greeting? ==> w.handlers[a].Greeting? && act != Replay(a))
            && (act == Replay(a) ==> w.handlers[a].Greeting?)
  {
    assert w.attachments[a].sent + [] == w.attachments[a].sent;
  }

  lemma GreetedStep(w: World, act: Action, a: nat, bytes: seq<byte>)
    requires Enabled(w, act) && Greeted(w, a, bytes)
    ensures Greeted(Next(w, act), a, bytes + if act.Send? then InHand(w, a) else [])
  {
    WireMoves(w, act, a);
  }

  lemma AttachStep(w: World, a: nat)
    requires Enabled(w, Attach(a)) && !w.session.closed
    ensures Greeted(Next(w, Attach(a)), a, [])
  {
  }

  lemma {:induction false} GreetingSent(ws: seq<World>, acts: seq<Action>, a: nat, i: nat, k: nat)
    requires Path(ws, acts) && i < k < |ws| && acts[i] == Attach(a) && !ws[i].session.closed
    ensures Greeted(ws[k], a, SentTo(ws, acts, a, i + 1, k))
  {
    var act := acts[k - 1];
    if k == i + 1 {
      AttachStep(ws[i], a);
    } else {
      GreetingSent(ws, acts, a, i, k - 1);
      GreetedStep(ws[k - 1], act, a, SentTo(ws, acts, a, i + 1, k - 1));
    }
  }

  /** Since its replay a sink's output begins with these bytes, and they are the ones that went early. */
  ghost predicate Replayed(w: World, a: nat, bytes: seq<byte>) {
    && a in w.handlers && a in w.attachments && !w.handlers[a].Greeting?
    && w.attachments[a].early == |bytes| <= |w.attachments[a].sent|
    && w.attachments[a].sent[..|bytes|] == bytes
  }

  lemma ReplayStepSent(w: World, a: nat, bytes: seq<byte>)
    requires Enabled(w, Replay(a)) && Greeted(w, a, bytes)
    ensures Replayed(Next(w, Replay(a)), a, bytes)
  {
  }

  lemma ReplayedStep(w: World, act: Action, a: nat, bytes: seq<byte>)
    requires Enabled(w, act) && Replayed(w, a, bytes)
    ensures Replayed(Next(w, act), a, bytes)
  {
    WireMoves(w, act, a);
  }

  lemma {:induction false} ReplayedStays(ws: seq<World>, acts: seq<Action>, a: nat, j: nat, k: nat, bytes: seq<byte>)
    requires Path(ws, acts) && j <= k < |ws| && Replayed(ws[j], a, bytes)
    ensures Replayed(ws[k], a, bytes)
  {
    if j < k {
      var act := acts[k - 1];
      ReplayedStays(ws, acts, a, j, k - 1, bytes);
      ReplayedStep(ws[k - 1], act, a, bytes);
    }
  }

  /** What went out early is what the read loop sent to the sink between its attach and its replay. */
  lemma EarlyIsSentBefore(ws: seq<World>, acts: seq<Action>, a: nat, i: nat, j: nat, k: nat)
    requires Path(ws, acts) && i < j < k < |ws| && acts[i] == Attach(a) && !ws[i].session.closed
    requires acts[j] == Replay(a)
    ensures Replayed(ws[k], a, SentTo(ws, acts, a, i + 1, j))
  {
    var early := SentTo(ws, acts, a, i + 1, j);
    GreetingSent(ws, acts, a, i, j);
    ReplayStepSent(ws[j], a, early);
    ReplayedStays(ws, acts, a, j + 1, k, early);
  }

  /** The read loop may write to a new sink before the handler has replayed the scrollback to it. Ever
      after, the client has seen the scrollback and then the live output exactly if nothing was sent to it
      between its attach and its replay, or that and the scrollback repeat one and the same piece. */
  lemma ReplayInOrderIff(ws: seq<World>, acts: seq<Action>, a: nat, i: nat, j: nat, k: nat)
    requires Run(ws, acts) && i < j < k < |ws| && acts[i] == Attach(a) && !ws[i].session.closed
    requires acts[j] == Replay(a)
    ensures a in ws[k].attachments
    ensures var at := ws[k].attachments[a];
            var early := SentTo(ws, acts, a, i + 1, j);
            && (at.early == 0 <==> early == [])
            && (at.sent == at.snapshot + Live(ws[k], a) <==> early == [] || ShareRoot(early, at.snapshot))
  {
    EarlyIsSentBefore(ws, acts, a, i, j, k);
    WireHolds(ws, acts, k, a);
    var early := SentTo(ws, acts, a, i + 1, j);
    InOrderIff(ws[k], a, early);
    CommuteIff(early, ws[k].attachments[a].snapshot);
  }

  lemma InOrderIff(w: World, a: nat, early: seq<byte>)
    requires Carried(w, a) && Replayed(w, a, early)
    ensures var at := w.attachments[a];
            && (at.sent == at.snapshot + Live(w, a) <==> early + at.snapshot == at.snapshot + early)
            && (early == [] ==> at.sent == at.snapshot + Live(w, a))
  {
    var at, live := w.attachments[a], Live(w, a);
    assert Delivered(w, a, live);
    assert at.sent[..at.early] == live[..at.early];
    assert live == live[..at.early] + live[at.early..];
    SwapFront(early, at.snapshot, live[at.early..]);
  }

  lemma WireHolds(ws: seq<World>, acts: seq<Action>, i: nat, a: nat)
    requires Run(ws, acts) && i < |ws| && a in ws[i].attachments
    ensures Carried(ws[i], a)
  {
    RunKeepsInv(ws, acts, i);
  }

  lemma SwapFront(x: seq<byte>, y: seq<byte>, rest: seq<byte>)
    ensures x + y + rest == y + (x + rest) <==> x + y == y + x
    ensures x == [] ==> x + y + rest == y + (x + rest)
  {
    var n := |x| + |y|;
    assert (x + y + rest)[..n] == x + y;
    assert (y + (x + rest))[..n] == y + x;
    assert (x + y + rest)[n..] == rest == (y + (x + rest))[n..];
    assert x + y + rest == (x + y + rest)[..n] + (x + y + rest)[n..];
    assert y + (x + rest) == (y + (x + rest))[..n] + (y + (x + rest))[n..];
  }

  /** It happens: the byte 1 is in the scrollback, the client attaches, the byte 2 is read and sent, and only
      then the scrollback is replayed. The client sees 2 before 1. */
  lemma LiveOutputCanOvertake(size: nat) returns (ws: seq<World>, acts: seq<Action>)
    requires size > 0
    ensures Run(ws, acts) && acts == [Read([1]), Send, Attach(0), Read([2]), Send, Replay(0)]
    ensures 0 in ws[6].attachments && var at := ws[6].attachments[0]; at.snapshot == [1] && at.sent == [2, 1]
  {
    ws, acts := RunToGreeting(size);
    ws, acts := Extend(ws, acts, Read([2]));
    ws, acts := Extend(ws, acts, Send);
    ws, acts := Extend(ws, acts, Replay(0));
  }

  lemma RunToGreeting(size: nat) returns (ws: seq<World>, acts: seq<Action>)
    requires size > 0
    ensures Run(ws, acts) && acts == [Read([1]), Send, Attach(0)]
    ensures var w := ws[3];
            && w.session.attach == Some(0) && w.reader.Reading? && w.handlers == map[0 := Greeting]
            && w.attachments == map[0 := Attachment(1, None, [1], [], [], 0)]
  {
    ws, acts := [Created(size)], [];
    ws, acts := Extend(ws, acts, Read([1]));
    ws, acts := Extend(ws, acts, Send);
    assert LastN([] + [1], size) == [1];
    ws, acts := Extend(ws, acts, Attach(0));
  }

  lemma Extend(ws: seq<World>, acts: seq<Action>, act: Action) returns (us: seq<World>, bs: seq<Action>)
    requires Run(ws, acts) && Enabled(ws[|acts|], act)
    ensures Run(us, bs) && bs == acts + [act] && us == ws + [Next(ws[|acts|], act)]
  {
    us, bs := ws + [Next(ws[|acts|], act)], acts + [act];
    forall i | 0 <= i < |bs|
      ensures Enabled(us[i], bs[i]) && us[i + 1] == Next(us[i], bs[i])
    {
      if i < |acts| {
        assert bs[i] == acts[i] && us[i] == ws[i] && us[i + 1] == ws[i + 1];
      }
    }
  }

  // ------------------------------------------------------------------------ what the lock sections promise

  /** A refused attach, a stale sink's detach and a second destroy leave the session alone. */
  lemma LateCallsChangeNothing(w: World, act: Action)
    requires Enabled(w, act)
    requires || (w.session.closed && (act.Attach? || act.Kill? || act.IdleDestroy? || act.EndReader?))
             || (act.Detach? && w.session.attach != Some(act.a))
    ensures Next(w, act).session == w.session
    ensures Next(w, act).attachments == w.attachments && Next(w, act).unregistering == w.unregistering
  {
  }

  /** The step attaches to the open session or destroys it. */
  predicate Disarms(w: World, act: Action) {
    !w.session.closed && (act.Attach? || act.Kill? || act.IdleDestroy? || act.EndReader?)
  }

  lemma DisarmedAfter(w: World, act: Action)
    requires Enabled(w, act) && Disarms(w, act)
    ensures Next(w, act).session.timer == NoTimer
  {
  }

  lemma OnlyScheduleArms(w: World, act: Action)
    requires Enabled(w, act) && !w.session.timer.Armed? && !act.Schedule?
    ensures !Next(w, act).session.timer.Armed?
  {
  }

  lemma {:induction false} StaysDisarmed(ws: seq<World>, acts: seq<Action>, i: nat, k: nat)
    requires Path(ws, acts) && i <= k < |ws| && !ws[i].session.timer.Armed?
    requires forall j :: i <= j < k ==> !acts[j].Schedule?
    ensures !ws[k].session.timer.Armed?
  {
    if i < k {
      var act := acts[k - 1];
      StaysDisarmed(ws, acts, i, k - 1);
      OnlyScheduleArms(ws[k - 1], act);
    }
  }

  /** An attach or a destroy cancels the idle timer: in every run, one that fires later was scheduled since. */
  lemma FireNeedsSchedule(ws: seq<World>, acts: seq<Action>, i: nat, k: nat)
    requires Path(ws, acts) && i < k < |acts| && Disarms(ws[i], acts[i]) && acts[k].Fire?
    ensures exists j :: i < j < k && acts[j].Schedule?
  {
    var act, fire := acts[i], acts[k];
    DisarmedAfter(ws[i], act);
    if forall j :: i + 1 <= j < k ==> !acts[j].Schedule? {
      StaysDisarmed(ws, acts, i + 1, k);
    }
  }

  /** A closed session can have a timer: a handler that left before the session was closed schedules it after. */
  lemma ClosedCanHaveTimer(size: nat) returns (ws: seq<World>, acts: seq<Action>)
    ensures Run(ws, acts) && acts == [Attach(0), Replay(0), Detach(0), Kill(0), Schedule(0)]
    ensures ws[5].session.closed && ws[5].session.timer == Armed
  {
    ws, acts := RunToDetach(size);
    ws, acts := Extend(ws, acts, Kill(0));
    ws, acts := Extend(ws, acts, Schedule(0));
  }

  /** One client came, and its handler is about to schedule the idle timer. */
  lemma RunToDetach(size: nat) returns (ws: seq<World>, acts: seq<Action>)
    ensures Run(ws, acts) && acts == [Attach(0), Replay(0), Detach(0)]
    ensures Deserted(ws[3]) && ws[3].handlers[0].Releasing? && ws[3].callbacks == map[]
  {
    ws, acts := [Created(size)], [];
    ws, acts := Extend(ws, acts, Attach(0));
    ws, acts := Extend(ws, acts, Replay(0));
    ws, acts := Extend(ws, acts, Detach(0));
  }

  // ------------------------------------------------------------- when the idle timer ends an attachment

  /** The callback has found nobody attached and will destroy the session next. */
  ghost predicate IsCondemned(w: World, c: nat) {
    c in w.callbacks && w.callbacks[c].Condemned?
  }

  ghost predicate AttachedThroughout(ws: seq<World>, i: nat, j: nat) {
    forall k :: i <= k <= j && k < |ws| ==> ws[k].session.attach.Some?
  }

  lemma CondemnedStep(w: World, act: Action, c: nat)
    requires Enabled(w, act) && w.session.attach.Some? && IsCondemned(Next(w, act), c)
    ensures IsCondemned(w, c)
  {
  }

  /** While somebody is attached no callback gets to pass its check: one that has passed it at the end had
      passed it at the beginning. */
  lemma {:induction false} CondemnedBefore(ws: seq<World>, acts: seq<Action>, i: nat, j: nat, c: nat)
    requires Path(ws, acts) && i <= j < |ws| && AttachedThroughout(ws, i, j) && IsCondemned(ws[j], c)
    ensures IsCondemned(ws[i], c)
  {
    if i < j {
      var act := acts[j - 1];
      CondemnedStep(ws[j - 1], act, c);
      CondemnedBefore(ws, acts, i, j - 1, c);
    }
  }

  /** Some continuation keeps somebody attached until an idle callback destroys the session. */
  ghost predicate TimerCanDrop(w: World) {
    exists ws, acts :: DropsByTimer(w, ws, acts)
  }

  ghost predicate DropsByTimer(w: World, ws: seq<World>, acts: seq<Action>) {
    && Path(ws, acts) && ws[0] == w && acts != [] && AttachedThroughout(ws, 0, |acts| - 1)
    && acts[|acts| - 1].IdleDestroy? && ws[|acts|].session.closed
  }

  /** An attached client can lose its session to the idle timer exactly if some callback has passed its
      check already, so before anybody attached: the timer never ends an attachment made without one. */
  lemma TimerCanDropIff(w: World)
    requires CloseInv(w) && w.session.attach.Some?
    ensures TimerCanDrop(w) <==> exists c :: IsCondemned(w, c)
  {
    if ws, acts :| DropsByTimer(w, ws, acts) {
      DropNeedsCondemned(w, ws, acts);
    }
    if c :| IsCondemned(w, c) {
      CondemnedCanDrop(w, c);
    }
  }

  lemma DropNeedsCondemned(w: World, ws: seq<World>, acts: seq<Action>)
    requires DropsByTimer(w, ws, acts)
    ensures exists c :: IsCondemned(w, c)
  {
    var last: Action := acts[|acts| - 1];
    CondemnedBefore(ws, acts, 0, |acts| - 1, last.c);
  }

  lemma CondemnedCanDrop(w: World, c: nat)
    requires CloseInv(w) && w.session.attach.Some? && IsCondemned(w, c)
    ensures TimerCanDrop(w)
  {
    assert w.unregistering == {} && w.closing == {};
    var act := IdleDestroy(c, 0);
    var v := Next(w, act);
    assert v.session.closed;
    OneStepPath(w, act);
    assert DropsByTimer(w, [w, v], [act]);
  }

  lemma OneStepPath(w: World, act: Action)
    requires Enabled(w, act)
    ensures Path([w, Next(w, act)], [act])
  {
  }

  /** It happens: a client leaves, the idle timer fires and its callback finds nobody, another client attaches,
      and the callback destroys the session under it. */
  lemma TimerDropsNewClient(size: nat) returns (ws: seq<World>, acts: seq<Action>)
    ensures Run(ws, acts)
    ensures acts == [Attach(0), Replay(0), Detach(0), Schedule(0), Fire(0), Look(0), Check(0), Attach(1),
                     IdleDestroy(0, 0)]
    ensures ws[8].session.attach == Some(1) && ws[9].session.closed && ws[9].session.attach.None?
  {
    ws, acts := RunToCheck(size);
    ws, acts := Extend(ws, acts, Attach(1));
    ws, acts := Extend(ws, acts, IdleDestroy(0, 0));
  }

  /** One client came and went, and nobody tears the session down. */
  ghost predicate Deserted(w: World) {
    && !w.session.closed && w.session.attach.None? && w.registered
    && w.handlers.Keys == {0} && w.attachments.Keys == {0}
    && w.unregistering == {} && w.closing == {}
  }

  lemma RunToSchedule(size: nat) returns (ws: seq<World>, acts: seq<Action>)
    ensures Run(ws, acts) && acts == [Attach(0), Replay(0), Detach(0), Schedule(0)]
    ensures Deserted(ws[4]) && ws[4].session.timer.Armed? && ws[4].callbacks == map[]
  {
    ws, acts := RunToDetach(size);
    ws, acts := Extend(ws, acts, Schedule(0));
  }

  lemma RunToCheck(size: nat) returns (ws: seq<World>, acts: seq<Action>)
    ensures Run(ws, acts)
    ensures acts == [Attach(0), Replay(0), Detach(0), Schedule(0), Fire(0), Look(0), Check(0)]
    ensures Deserted(ws[7]) && IsCondemned(ws[7], 0)
  {
    ws, acts := RunToSchedule(size);
    ws, acts := Extend(ws, acts, Fire(0));
    ws, acts := Extend(ws, acts, Look(0));
    ws, acts := Extend(ws, acts, Check(0));
  }

  /** In every run, if somebody is attached from state i up to the moment an idle callback destroys the
      session, that callback had passed its check by state i. */
  lemma TimerDropsOnlyCondemned(ws: seq<World>, acts: seq<Action>, i: nat, j: nat)
    requires Run(ws, acts) && i <= j < |acts| && acts[j].IdleDestroy? && AttachedThroughout(ws, i, j)
    ensures IsCondemned(ws[i], acts[j].c)
  {
    var act := acts[j];
    CondemnedBefore(ws, acts, i, j, act.c);
  }

  /** A callback that found nobody attached destroys the session even if somebody attached since. */
  lemma IdleDestroyCanDropAttachment(w: World, c: nat, a: nat, thread: nat)
    requires Inv(w) && !w.session.closed && c in w.callbacks && w.callbacks[c].Condemned?
    requires Enabled(w, Attach(a)) && Idle(w, thread)
    ensures var attached := Next(w, Attach(a));
            && attached.session.attach == Some(a)
            && Enabled(attached, IdleDestroy(c, thread))
            && var dropped := Next(attached, IdleDestroy(c, thread));
               dropped.session.closed && dropped.attachments[a].end == Some(|w.stream|)
  {
  }
}
