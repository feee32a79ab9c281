/** One pod replicating a table that other pods write: database commits, the event log and its
    pruning, the clock, the phases of the pod's poll and any number of reloads at a time, each split
    at its database reads and lock sections and interleaved in every order. */
module Replication {
  import opened Options
  import opened Fingerprints
  import opened EnvSync
  import opened Environments

  const MAX_WATCHER_ROWS: nat := 1000

  /** An event ever appended to the log, with the number of table versions committed by then. */
  datatype LogEntry = LogEntry(id: nat, upTo: nat)

  /** Where the poll is between two database reads or lock sections. */
  datatype Phase =
    | Idle
    | Asking
    | Asked(maxId: nat)
    | Deciding(changed: bool)
    | Loading(audit: bool, seen: string)
    | Comparing(audit: bool, seen: string, rows: seq<Row>, version: nat, loadedAt: nat)
    | PollCalling(audit: bool, rows: seq<Row>)
    | Stamping
    | Cursoring

  /** A reload, from a request or for another pod's message, which carries an event id. */
  datatype Reload =
    | Starting(message: Option<nat>)
    | Applying(message: Option<nat>, rows: seq<Row>, version: nat, loadedAt: nat)
    | ReloadCalling(message: Option<nat>, rows: seq<Row>)
    | Merging(eventId: nat)

  /** `versions` holds every table ever committed and `commits` the commit times; `log` is every
      event ever appended and `events` what pruning left of it. The rows in place are those of
      version `shown`, loaded at time `loadTime`; the last poll began at `pollStart`. */
  datatype World = World(
    versions: seq<seq<Row>>, commits: seq<nat>,
    log: seq<LogEntry>, events: seq<nat>, published: set<nat>,
    clock: nat, pod: Pod, phase: Phase, reloads: map<nat, Reload>,
    shown: nat, loadTime: nat, pollStart: nat)

  datatype Setup = Setup(hash: Hash, pins: Pins)

  datatype Action =
    | Write(rows: seq<Row>, ids: seq<nat>)
    | Publish(id: nat)
    | Prune
    | Tick(seconds: nat)
    | BeginPoll
    | ReadMax(ok: bool)
    | CheckCursor
    | Decide
    | LoadRows(ok: bool)
    | CompareRows
    | PollCall
    | Stamp
    | Cursor(ok: bool)
    | BeginReload(r: nat, message: Option<nat>)
    | ReloadRows(r: nat, ok: bool)
    | ApplyRows(r: nat)
    | ReloadCall(r: nat)
    | Merge(r: nat)
    | SetHooks

  function MaxId(events: seq<nat>): nat {
    if events == [] then 0 else events[|events| - 1]
  }

  function LastId(log: seq<LogEntry>): nat {
    if log == [] then 0 else log[|log| - 1].id
  }

  ghost predicate Increasing(ids: seq<nat>, above: nat) {
    && (forall i :: 0 <= i < |ids| ==> ids[i] > above)
    && (forall i, j :: 0 <= i < j < |ids| ==> ids[i] < ids[j])
  }

  /** Pruning keeps the newest events. */
  function Pruned(events: seq<nat>): seq<nat> {
    if |events| <= MAX_WATCHER_ROWS then events else events[|events| - MAX_WATCHER_ROWS..]
  }

  /** Pruning keeps the newest thousand events, or all if there are fewer. */
  lemma PruningKeepsNewest(events: seq<nat>)
    ensures |Pruned(events)| == if |events| < 1000 then |events| else 1000
    ensures exists older :: events == older + Pruned(events)
  {
    assert events == events[..|events| - |Pruned(events)|] + Pruned(events);
  }

  function EntriesFor(ids: seq<nat>, upTo: nat): (r: seq<LogEntry>)
    ensures |r| == |ids| && forall i :: 0 <= i < |ids| ==> r[i] == LogEntry(ids[i], upTo)
  {
    seq(|ids|, i requires 0 <= i < |ids| => LogEntry(ids[i], upTo))
  }

  ghost predicate Enabled(w: World, a: Action) {
    match a
    case Write(rows, ids) => Loaded(rows) && ids != [] && Increasing(ids, LastId(w.log))
    case Publish(id) => id > LastId(w.log)
    case Prune => true
    case Tick(_) => true
    case BeginPoll => w.phase.Idle?
    case ReadMax(_) => w.phase.Asking?
    case CheckCursor => w.phase.Asked?
    case Decide => w.phase.Deciding?
    case LoadRows(_) => w.phase.Loading?
    case CompareRows => w.phase.Comparing?
    case PollCall => w.phase.PollCalling?
    case Stamp => w.phase.Stamping?
    case Cursor(_) => w.phase.Cursoring?
    case BeginReload(r, message) => r !in w.reloads && (message.Some? ==> message.value in w.published)
    case ReloadRows(r, _) => r in w.reloads && w.reloads[r].Starting?
    case ApplyRows(r) => r in w.reloads && w.reloads[r].Applying?
    case ReloadCall(r) => r in w.reloads && w.reloads[r].ReloadCalling?
    case Merge(r) => r in w.reloads && w.reloads[r].Merging?
    case SetHooks => true
  }

  // ------------------------------------------------------------------------ the database's steps

  /** A transaction commits a new table; the triggers append one event per changed row. */
  function DoWrite(w: World, rows: seq<Row>, ids: seq<nat>): World {
    w.(versions := w.versions + [rows], commits := w.commits + [w.clock],
       log := w.log + EntriesFor(ids, |w.versions| + 1), events := w.events + ids)
  }

  /** A pod appends a signal of its own and announces its id. */
  function DoPublish(w: World, id: nat): World {
    w.(log := w.log + [LogEntry(id, |w.versions|)], events := w.events + [id],
       published := w.published + {id})
  }

  // ---------------------------------------------------------------------------- the poll's steps

  function DoReadMax(w: World, ok: bool): World {
    w.(phase := if ok then Asked(MaxId(w.events)) else Idle)
  }

  function DoCheckCursor(w: World): World
    requires w.phase.Asked?
  {
    w.(phase := Deciding(RevisionChanged(w.pod, w.phase.maxId)))
  }

  function DoDecide(w: World): World
    requires w.phase.Deciding?
  {
    match PlanPoll(w.phase.changed, AuditDue(w.pod, w.pollStart))
    case Skip => w.(phase := Idle)
    case Load(audit) => w.(phase := Loading(audit, w.pod.synced.fingerprint))
  }

  function Newest(w: World): nat
    requires w.versions != []
  {
    |w.versions| - 1
  }

  function DoLoadRows(w: World, ok: bool): World
    requires w.phase.Loading? && w.versions != []
  {
    if !ok then w.(phase := Idle)
    else w.(phase := Comparing(w.phase.audit, w.phase.seen, w.versions[Newest(w)], Newest(w), w.clock))
  }

  /** The rows in hand are not those the poll saw in place: they are synced. */
  predicate Syncs(s: Setup, w: World)
    requires w.phase.Comparing?
  {
    Fingerprint(s.hash, w.phase.rows) != w.phase.seen
  }

  /** The rows in hand pass for the ones in place when the poll began, but a reload has put others in
      place since: they are dropped. */
  predicate Drops(s: Setup, w: World)
    requires w.phase.Comparing?
  {
    !Syncs(s, w) && w.pod.synced.fingerprint != w.phase.seen
  }

  function AfterSync(audit: bool): Phase {
    if audit then Stamping else Cursoring
  }

  /** The compare, with the lock section of the sync it may lead to; the call of the hook is still due. */
  function DoCompare(s: Setup, w: World): World
    requires w.phase.Comparing?
  {
    var next := w.(pod := if Syncs(s, w) then LockSync(s.hash, s.pins, w.pod, w.phase.rows) else w.pod,
                   phase := if Syncs(s, w) && w.pod.hooked then PollCalling(w.phase.audit, w.phase.rows)
                            else AfterSync(w.phase.audit));
    if Drops(s, w) then next else next.(shown := w.phase.version, loadTime := w.phase.loadedAt)
  }

  function DoPollCall(s: Setup, w: World): World
    requires w.phase.PollCalling?
  {
    w.(pod := CallHook(s.pins, w.pod, w.phase.rows), phase := AfterSync(w.phase.audit))
  }

  function DoStamp(w: World): World {
    w.(pod := StampAudit(w.pod, w.clock), phase := Cursoring)
  }

  function DoCursor(w: World, ok: bool): World {
    w.(pod := ReadCursor(w.pod, if ok then Ok(MaxId(w.events)) else Err), phase := Idle)
  }

  // --------------------------------------------------------------------------- a reload's steps

  function DoReloadRows(w: World, r: nat, ok: bool): World
    requires r in w.reloads && w.reloads[r].Starting? && w.versions != []
  {
    if !ok then w.(reloads := w.reloads - {r})
    else
      w.(reloads := w.reloads[r := Applying(w.reloads[r].message, w.versions[Newest(w)], Newest(w), w.clock)])
  }

  /** A reload for a message goes on to raise the cursor, any other is over. */
  function AfterReload(reloads: map<nat, Reload>, r: nat, message: Option<nat>): map<nat, Reload> {
    if message.Some? then reloads[r := Merging(message.value)] else reloads - {r}
  }

  function DoApply(s: Setup, w: World, r: nat): World
    requires r in w.reloads && w.reloads[r].Applying?
  {
    var hand := w.reloads[r];
    w.(pod := LockSync(s.hash, s.pins, w.pod, hand.rows),
       reloads := if w.pod.hooked then w.reloads[r := ReloadCalling(hand.message, hand.rows)]
                  else AfterReload(w.reloads, r, hand.message),
       shown := hand.version, loadTime := hand.loadedAt)
  }

  function DoReloadCall(s: Setup, w: World, r: nat): World
    requires r in w.reloads && w.reloads[r].ReloadCalling?
  {
    w.(pod := CallHook(s.pins, w.pod, w.reloads[r].rows),
       reloads := AfterReload(w.reloads, r, w.reloads[r].message))
  }

  function DoMerge(w: World, r: nat): World
    requires r in w.reloads && w.reloads[r].Merging?
  {
    w.(pod := MergeCursor(w.pod, w.reloads[r].eventId), reloads := w.reloads - {r})
  }

  ghost function Next(s: Setup, w: World, a: Action): World
    requires Enabled(w, a) && w.versions != []
  {
    match a
    case Write(rows, ids) => DoWrite(w, rows, ids)
    case Publish(id) => DoPublish(w, id)
    case Prune => w.(events := Pruned(w.events))
    case Tick(seconds) => w.(clock := w.clock + seconds)
    case BeginPoll => w.(phase := Asking, pollStart := w.clock)
    case ReadMax(ok) => DoReadMax(w, ok)
    case CheckCursor => DoCheckCursor(w)
    case Decide => DoDecide(w)
    case LoadRows(ok) => DoLoadRows(w, ok)
    case CompareRows => DoCompare(s, w)
    case PollCall => DoPollCall(s, w)
    case Stamp => DoStamp(w)
    case Cursor(ok) => DoCursor(w, ok)
    case BeginReload(r, message) => w.(reloads := w.reloads[r := Starting(message)])
    case ReloadRows(r, ok) => DoReloadRows(w, r, ok)
    case ApplyRows(r) => DoApply(s, w, r)
    case ReloadCall(r) => DoReloadCall(s, w, r)
    case Merge(r) => DoMerge(w, r)
    case SetHooks => w.(pod := w.pod.(hooked := true))
  }

  // ---------------------------------------------------------------------------------- invariants

  ghost predicate HasId(log: seq<LogEntry>, id: nat) {
    exists i :: 0 <= i < |log| && log[i].id == id
  }

  ghost predicate Ordered(log: seq<LogEntry>) {
    forall i, j :: 0 <= i < j < |log| ==> log[i].id < log[j].id
  }

  ghost predicate Bounded(log: seq<LogEntry>, versions: nat) {
    forall i :: 0 <= i < |log| ==> 0 < log[i].id && log[i].upTo <= versions
  }

  ghost predicate IsTail(events: seq<nat>, log: seq<LogEntry>) {
    && |events| <= |log|
    && forall i :: 0 <= i < |events| ==> events[i] == log[|log| - |events| + i].id
  }

  /** The log grows upwards, and the events table is its newest part. */
  ghost predicate LogInv(w: World) {
    && |w.commits| == |w.versions| > 0
    && (forall i :: 0 <= i < |w.commits| ==> w.commits[i] <= w.clock)
    && Bounded(w.log, |w.versions|) && Ordered(w.log) && IsTail(w.events, w.log)
    && (if w.log == [] then |w.versions| == 1 else w.log[|w.log| - 1].upTo == |w.versions|)
    && (w.log != [] ==> w.events != [])
  }

  ghost predicate Pending(reload: Reload, log: seq<LogEntry>) {
    match reload
    case Merging(id) => HasId(log, id)
    case _ => reload.message.Some? ==> HasId(log, reload.message.value)
  }

  /** Cursors, and the ids messages carry, only ever name events that were appended. */
  ghost predicate CursorInv(w: World) {
    && (w.pod.cursor == 0 || HasId(w.log, w.pod.cursor))
    && (forall id :: id in w.published ==> HasId(w.log, id))
    && (forall r :: r in w.reloads ==> Pending(w.reloads[r], w.log))
  }

  ghost predicate TablesInv(w: World) {
    forall v :: 0 <= v < |w.versions| ==> Loaded(w.versions[v])
  }

  /** Every version after `v` was committed at time `t` or later. */
  ghost predicate NewerThan(w: World, v: nat, t: nat) {
    v < |w.versions| && t <= w.clock && forall u :: v < u < |w.commits| ==> t <= w.commits[u]
  }

  /** Rows in hand are those of a version, and all that is not in them was committed later. */
  ghost predicate InHand(w: World, rows: seq<Row>, v: nat, t: nat) {
    NewerThan(w, v, t) && rows == w.versions[v]
  }

  ghost predicate HandsInv(w: World) {
    && w.pollStart <= w.clock
    && (w.phase.Comparing? ==>
          InHand(w, w.phase.rows, w.phase.version, w.phase.loadedAt) && w.pollStart <= w.phase.loadedAt)
    && (forall r :: r in w.reloads && w.reloads[r].Applying? ==>
                      InHand(w, w.reloads[r].rows, w.reloads[r].version, w.reloads[r].loadedAt))
  }

  /** The pod reflects version `shown`, under its fingerprint. */
  ghost predicate ShownInv(s: Setup, w: World) {
    && NewerThan(w, w.shown, w.loadTime)
    && w.pod.synced.fingerprint == Fingerprint(s.hash, w.versions[w.shown])
    && Reflects(s.hash, s.pins, w.pod.synced, w.versions[w.shown])
  }

  ghost predicate Inv(s: Setup, w: World) {
    LogInv(w) && CursorInv(w) && TablesInv(w) && HandsInv(w) && ShownInv(s, w)
  }

  lemma TablesStep(s: Setup, w: World, a: Action)
    requires TablesInv(w) && Enabled(w, a) && w.versions != []
    ensures TablesInv(Next(s, w, a))
  {
  }

  lemma LogStep(s: Setup, w: World, a: Action)
    requires LogInv(w) && Enabled(w, a)
    ensures LogInv(Next(s, w, a))
    ensures |w.log| <= |Next(s, w, a).log| && w.log == Next(s, w, a).log[..|w.log|]
  {
    match a
    case Write(rows, ids) => WriteKeepsLog(w, rows, ids);
    case Publish(id) => PublishKeepsLog(w, id);
    case Prune => PruneKeepsLog(w);
    case _ =>
  }

  lemma AppendKeepsOrder(log: seq<LogEntry>, ids: seq<nat>, upTo: nat)
    requires Ordered(log) && Increasing(ids, LastId(log))
    ensures Ordered(log + EntriesFor(ids, upTo))
  {
    var n := |log|;
    var longer := log + EntriesFor(ids, upTo);
    forall i, j | 0 <= i < j < |longer|
      ensures longer[i].id < longer[j].id
    {
      if i < n <= j {
        assert log[i].id <= LastId(log) < ids[j - n];
      }
    }
  }

  lemma AppendKeepsTail(log: seq<LogEntry>, events: seq<nat>, ids: seq<nat>, upTo: nat)
    requires IsTail(events, log)
    ensures IsTail(events + ids, log + EntriesFor(ids, upTo))
  {
  }

  lemma AppendKeepsBound(log: seq<LogEntry>, ids: seq<nat>, upTo: nat)
    requires upTo > 0 && Bounded(log, upTo - 1) && Increasing(ids, LastId(log))
    ensures Bounded(log + EntriesFor(ids, upTo), upTo)
  {
  }

  lemma CommitKeepsTimes(commits: seq<nat>, clock: nat)
    requires forall i :: 0 <= i < |commits| ==> commits[i] <= clock
    ensures forall i :: 0 <= i < |commits + [clock]| ==> (commits + [clock])[i] <= clock
  {
  }

  lemma WriteKeepsLog(w: World, rows: seq<Row>, ids: seq<nat>)
    requires LogInv(w) && ids != [] && Increasing(ids, LastId(w.log))
    ensures LogInv(DoWrite(w, rows, ids))
  {
    CommitKeepsTimes(w.commits, w.clock);
    AppendKeepsBound(w.log, ids, |w.versions| + 1);
    AppendKeepsOrder(w.log, ids, |w.versions| + 1);
    AppendKeepsTail(w.log, w.events, ids, |w.versions| + 1);
  }

  lemma PublishKeepsLog(w: World, id: nat)
    requires LogInv(w) && Enabled(w, Publish(id))
    ensures LogInv(DoPublish(w, id)) && DoPublish(w, id).log[..|w.log|] == w.log
  {
  }

  lemma PruneKeepsLog(w: World)
    requires LogInv(w)
    ensures LogInv(w.(events := Pruned(w.events)))
  {
  }

  lemma HasIdGrows(log: seq<LogEntry>, longer: seq<LogEntry>, id: nat)
    requires |log| <= |longer| && log == longer[..|log|] && HasId(log, id)
    ensures HasId(longer, id)
  {
    var i :| 0 <= i < |log| && log[i].id == id;
    assert longer[i].id == id;
  }

  /** The newest event in the table is the newest ever appended: pruning never lowers the maximum. */
  lemma MaxIsLast(w: World)
    requires LogInv(w)
    ensures MaxId(w.events) == LastId(w.log)
    ensures w.events != [] ==> HasId(w.log, MaxId(w.events))
    ensures forall id: nat :: HasId(w.log, id) ==> 0 < id <= MaxId(w.events)
  {
    if w.events != [] {
      assert w.log[|w.log| - 1].id == MaxId(w.events);
    }
  }

  lemma PendingStays(log: seq<LogEntry>, longer: seq<LogEntry>, reload: Reload)
    requires |log| <= |longer| && log == longer[..|log|] && Pending(reload, log)
    ensures Pending(reload, longer)
  {
    match reload
    case Merging(id) => HasIdGrows(log, longer, id);
    case _ => if reload.message.Some? { HasIdGrows(log, longer, reload.message.value); }
  }

  lemma LogGrowthKeepsCursor(w: World, next: World)
    requires |w.log| <= |next.log| && w.log == next.log[..|w.log|] && CursorInv(w)
    requires next.pod.cursor == w.pod.cursor && next.reloads == w.reloads
    requires forall id :: id in next.published ==> id in w.published || HasId(next.log, id)
    ensures CursorInv(next)
  {
    forall id: nat | HasId(w.log, id)
      ensures HasId(next.log, id)
    {
      HasIdGrows(w.log, next.log, id);
    }
    forall r | r in next.reloads
      ensures Pending(next.reloads[r], next.log)
    {
      PendingStays(w.log, next.log, w.reloads[r]);
    }
  }

  lemma CursorStep(s: Setup, w: World, a: Action)
    requires LogInv(w) && CursorInv(w) && Enabled(w, a)
    ensures CursorInv(Next(s, w, a))
  {
    var next := Next(s, w, a);
    match a
    case Write(rows, ids) =>
      LogGrowthKeepsCursor(w, next);
    case Publish(id) =>
      assert next.log[|w.log|].id == id;
      LogGrowthKeepsCursor(w, next);
    case Cursor(ok) =>
      MaxIsLast(w);
    case _ =>
      assert next.log == w.log && next.published == w.published;
  }

  /** Committing and waiting make no version older. */
  lemma NewerThanStays(w: World, next: World, v: nat, t: nat)
    requires |w.commits| == |w.versions| && NewerThan(w, v, t)
    requires w.clock <= next.clock
    requires || (next.versions == w.versions && next.commits == w.commits)
             || exists rows :: next.versions == w.versions + [rows] && next.commits == w.commits + [w.clock]
    ensures NewerThan(next, v, t) && next.versions[v] == w.versions[v]
  {
  }

  lemma ReloadsKeepHands(w: World, next: World)
    requires HandsInv(w) && LogInv(w) && next.reloads == w.reloads && w.clock <= next.clock
    requires || (next.versions == w.versions && next.commits == w.commits)
             || exists rows :: next.versions == w.versions + [rows] && next.commits == w.commits + [w.clock]
    ensures forall r :: r in next.reloads && next.reloads[r].Applying? ==>
                          InHand(next, next.reloads[r].rows, next.reloads[r].version, next.reloads[r].loadedAt)
  {
    forall r | r in next.reloads && next.reloads[r].Applying?
      ensures InHand(next, next.reloads[r].rows, next.reloads[r].version, next.reloads[r].loadedAt)
    {
      NewerThanStays(w, next, w.reloads[r].version, w.reloads[r].loadedAt);
    }
  }

  predicate ReloadAction(a: Action) {
    a.BeginReload? || a.ReloadRows? || a.ApplyRows? || a.ReloadCall? || a.Merge?
  }

  lemma ReloadStepKeepsHands(s: Setup, w: World, a: Action)
    requires LogInv(w) && HandsInv(w) && Enabled(w, a) && ReloadAction(a)
    ensures HandsInv(Next(s, w, a))
  {
    assert NewerThan(w, Newest(w), w.clock);
  }

  lemma HandsStep(s: Setup, w: World, a: Action)
    requires LogInv(w) && HandsInv(w) && Enabled(w, a)
    ensures HandsInv(Next(s, w, a))
  {
    if ReloadAction(a) {
      ReloadStepKeepsHands(s, w, a);
    } else {
      var next := Next(s, w, a);
      ReloadsKeepHands(w, next);
      if w.phase.Comparing? {
        NewerThanStays(w, next, w.phase.version, w.phase.loadedAt);
      }
    }
  }

  /** A compare that does not drop the rows in hand leaves them in place, applied or skipped. */
  lemma CompareShows(s: Setup, w: World)
    requires Injective(s.hash) && TablesInv(w) && HandsInv(w) && ShownInv(s, w) && w.phase.Comparing?
    ensures ShownInv(s, DoCompare(s, w))
    ensures !Drops(s, w) ==> Reflects(s.hash, s.pins, DoCompare(s, w).pod.synced, w.phase.rows)
  {
    if Fingerprint(s.hash, w.phase.rows) != w.phase.seen {
      ApplyReflects(s.hash, s.pins, w.pod.synced, w.phase.rows);
    } else if w.pod.synced.fingerprint == w.phase.seen {
      SkipRefinesReapply(s.hash, s.pins, w.pod.synced, w.versions[w.shown], w.phase.rows);
    }
  }

  lemma DroppedStays(s: Setup, w: World)
    requires w.phase.Comparing?
    ensures Drops(s, w) ==> DoCompare(s, w).pod == w.pod && DoCompare(s, w).shown == w.shown
  {
  }

  /** In every reachable state a compare, applied or skipped, ends with the pod reflecting exactly the
      rows in hand, unless it drops them. */
  lemma LoadingPollAgreesIff(s: Setup, w: World)
    requires Injective(s.hash) && TablesInv(w) && HandsInv(w) && ShownInv(s, w) && w.phase.Comparing?
    ensures Reflects(s.hash, s.pins, DoCompare(s, w).pod.synced, w.phase.rows) <==> !Drops(s, w)
  {
    CompareShows(s, w);
    DroppedStays(s, w);
    if Drops(s, w) && Reflects(s.hash, s.pins, w.pod.synced, w.phase.rows) {
      ReflectedFingerprint(s.hash, s.pins, w.pod.synced, w.phase.rows);
      assert false;
    }
  }

  /** The environment is the one the newest table gives. */
  ghost predicate ShowsNewest(s: Setup, w: World)
    requires w.versions != []
  {
    Reflects(s.hash, s.pins, w.pod.synced, w.versions[Newest(w)])
  }

  /** Among loaded tables the environment reflects exactly those with the entries of the rows in place. */
  lemma ReflectsIff(s: Setup, w: World, rows: seq<Row>)
    requires Injective(s.hash) && TablesInv(w) && ShownInv(s, w) && Loaded(rows)
    ensures Reflects(s.hash, s.pins, w.pod.synced, rows) <==> Entries(rows) == Entries(w.versions[w.shown])
  {
    FingerprintDeterminesLoaded(s.hash, rows, w.versions[w.shown]);
    if Reflects(s.hash, s.pins, w.pod.synced, rows) {
      ReflectedFingerprint(s.hash, s.pins, w.pod.synced, rows);
    }
    if Entries(rows) == Entries(w.versions[w.shown]) {
      SkipRefinesReapply(s.hash, s.pins, w.pod.synced, w.versions[w.shown], rows);
    }
  }

  lemma ApplyShows(s: Setup, w: World, r: nat)
    requires HandsInv(w) && r in w.reloads && w.reloads[r].Applying?
    ensures ShownInv(s, DoApply(s, w, r))
  {
    ApplyReflects(s.hash, s.pins, w.pod.synced, w.reloads[r].rows);
  }

  lemma ShownStep(s: Setup, w: World, a: Action)
    requires Injective(s.hash) && LogInv(w) && TablesInv(w) && HandsInv(w) && ShownInv(s, w) && Enabled(w, a)
    ensures ShownInv(s, Next(s, w, a))
  {
    match a
    case CompareRows => CompareShows(s, w);
    case ApplyRows(r) => ApplyShows(s, w, r);
    case _ => OtherStepsKeepShown(s, w, a);
  }

  lemma OtherStepsKeepShown(s: Setup, w: World, a: Action)
    requires LogInv(w) && ShownInv(s, w) && Enabled(w, a) && !a.CompareRows? && !a.ApplyRows?
    ensures ShownInv(s, Next(s, w, a))
    ensures Next(s, w, a).shown == w.shown && Next(s, w, a).loadTime == w.loadTime
    ensures Next(s, w, a).pod.synced == w.pod.synced
  {
    NewerThanStays(w, Next(s, w, a), w.shown, w.loadTime);
  }

  lemma InvStep(s: Setup, w: World, a: Action)
    requires Injective(s.hash) && Inv(s, w) && Enabled(w, a)
    ensures Inv(s, Next(s, w, a))
  {
    LogStep(s, w, a);
    CursorStep(s, w, a);
    TablesStep(s, w, a);
    HandsStep(s, w, a);
    ShownStep(s, w, a);
  }

  // ---------------------------------------------------------------------------------------- runs

  /** One step from a state that satisfies the invariant. */
  ghost predicate Step(s: Setup, w: World, a: Action, v: World) {
    Inv(s, w) && Enabled(w, a) && v == Next(s, w, a)
  }

  ghost predicate Path(s: Setup, ws: seq<World>, acts: seq<Action>) {
    && |ws| == |acts| + 1
    && (forall i {:trigger acts[i]} :: 0 <= i < |acts| ==>
          ws[i].versions != [] && Enabled(ws[i], acts[i]) && ws[i + 1] == Next(s, ws[i], acts[i]))
  }

  ghost predicate Run(s: Setup, ws: seq<World>, acts: seq<Action>) {
    Path(s, ws, acts) && Inv(s, ws[0])
  }

  lemma {:induction false} RunKeepsInv(s: Setup, ws: seq<World>, acts: seq<Action>, i: nat)
    requires Injective(s.hash) && Run(s, ws, acts) && i < |ws|
    ensures Inv(s, ws[i])
  {
    if i > 0 {
      RunKeepsInv(s, ws, acts, i - 1);
      InvStep(s, ws[i - 1], acts[i - 1]);
    }
  }

  lemma RunStep(s: Setup, ws: seq<World>, acts: seq<Action>, i: nat)
    requires Injective(s.hash) && Run(s, ws, acts) && i < |acts|
    ensures Step(s, ws[i], acts[i], ws[i + 1])
  {
    RunKeepsInv(s, ws, acts, i);
    assert ws[i + 1] == Next(s, ws[i], acts[i]);
  }

  lemma CursorRises(s: Setup, w: World, a: Action)
    requires LogInv(w) && CursorInv(w) && Enabled(w, a)
    ensures w.pod.cursor <= Next(s, w, a).pod.cursor
    ensures MaxId(w.events) <= MaxId(Next(s, w, a).events)
  {
    MaxIsLast(w);
    if a.Write? || a.Publish? || a.Prune? {
      LogStepRaisesMax(s, w, a);
    }
  }

  lemma LogStepRaisesMax(s: Setup, w: World, a: Action)
    requires LogInv(w) && Enabled(w, a) && (a.Write? || a.Publish? || a.Prune?)
    ensures MaxId(w.events) <= MaxId(Next(s, w, a).events)
  {
    MaxIsLast(w);
    if a.Write? {
      assert a.ids[|a.ids| - 1] > LastId(w.log);
    }
  }

  /** Under every interleaving of commits, pruning, messages and cursor updates, neither the newest
      event id nor the cursor ever goes down, and the cursor never passes the newest id. */
  lemma {:induction false} CursorSound(s: Setup, ws: seq<World>, acts: seq<Action>, i: nat, j: nat)
    requires Injective(s.hash) && Run(s, ws, acts) && i <= j < |ws|
    ensures ws[i].pod.cursor <= ws[j].pod.cursor <= MaxId(ws[j].events)
    ensures MaxId(ws[i].events) <= MaxId(ws[j].events)
  {
    CursorBelowMax(s, ws, acts, j);
    if i < j {
      CursorSound(s, ws, acts, i, j - 1);
      CursorStepRises(s, ws, acts, j - 1);
    }
  }

  lemma CursorBelowMax(s: Setup, ws: seq<World>, acts: seq<Action>, i: nat)
    requires Injective(s.hash) && Run(s, ws, acts) && i < |ws|
    ensures ws[i].pod.cursor <= MaxId(ws[i].events)
  {
    RunKeepsInv(s, ws, acts, i);
    MaxIsLast(ws[i]);
  }

  lemma CursorStepRises(s: Setup, ws: seq<World>, acts: seq<Action>, i: nat)
    requires Injective(s.hash) && Run(s, ws, acts) && i < |acts|
    ensures ws[i].pod.cursor <= ws[i + 1].pod.cursor
    ensures MaxId(ws[i].events) <= MaxId(ws[i + 1].events)
  {
    RunKeepsInv(s, ws, acts, i);
    CursorRises(s, ws[i], acts[i]);
  }

  /** The revision check stays quiet exactly when the cursor names the newest event of all, and then
      no table was committed after that event. */
  lemma QuietMeansNothingWritten(s: Setup, w: World)
    requires LogInv(w) && CursorInv(w)
    ensures !RevisionChanged(w.pod, MaxId(w.events)) <==>
            if w.log == [] then w.pod.cursor == 0 else w.pod.cursor == w.log[|w.log| - 1].id
    ensures !RevisionChanged(w.pod, MaxId(w.events)) ==>
              && (w.pod.cursor == 0 ==> |w.versions| == 1)
              && (forall i :: 0 <= i < |w.log| && w.log[i].id == w.pod.cursor ==> w.log[i].upTo == |w.versions|)
  {
    MaxIsLast(w);
  }

  // ------------------------------------------------- the machine's poll is the manager's poll

  /** Between two steps of the poll anything may have moved but the pod. */
  ghost predicate SamePod(w: World, later: World) {
    later.pod == w.pod && later.phase == w.phase && later.pollStart == w.pollStart && later.versions != []
  }

  /** Running the phases one by one, with any database activity in between, leaves the pod as the manager's
      `Poll` does on the values read, whichever reads fail. */
  lemma PhasesArePoll(s: Setup, ws: seq<World>, revisionOk: bool, loadOk: bool, cursorOk: bool)
    requires |ws| == 9 && ws[0].phase.Idle?
    requires SamePod(ws[0].(phase := Asking, pollStart := ws[0].clock), ws[1])
    requires SamePod(DoReadMax(ws[1], revisionOk), ws[2])
    requires revisionOk ==> SamePod(DoCheckCursor(ws[2]), ws[3]) && SamePod(DoDecide(ws[3]), ws[4])
    requires revisionOk && ws[4].phase.Loading? ==> SamePod(DoLoadRows(ws[4], loadOk), ws[5])
    requires revisionOk && ws[4].phase.Loading? && loadOk ==>
               && SamePod(DoCompare(s, ws[5]), ws[6])
               && SamePod(if ws[6].phase.PollCalling? then DoPollCall(s, ws[6]) else ws[6], ws[7])
               && SamePod(if ws[7].phase.Stamping? then DoStamp(ws[7]) else ws[7], ws[8])
    ensures ws[1].versions != [] && (revisionOk ==> ws[4].versions != [])
    ensures var revision := if revisionOk then Ok(MaxId(ws[1].events)) else Err;
            var load := if revisionOk && loadOk then Ok(ws[4].versions[Newest(ws[4])]) else Err;
            var newest := if cursorOk then Ok(MaxId(ws[8].events)) else Err;
            Polled(s.hash, s.pins, ws[0].pod, ws[0].clock, revision, load, ws[7].clock, newest)
            == if !revisionOk then ws[2].pod
               else if !ws[4].phase.Loading? then ws[4].pod
               else if !loadOk then ws[5].pod
               else DoCursor(ws[8], cursorOk).pod
  {
  }
}
