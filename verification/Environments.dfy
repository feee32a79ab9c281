/** The environments manager of one pod: the sync, the audit rule and the poll, as methods over
    the fields they update. Database reads arrive as arguments, so that a caller can let other
    pods write between them. */
module Environments {
  import opened Options
  import opened Fingerprints
  import opened EnvSync

  /** Seconds between two full audits. */
  const FULL_AUDIT_INTERVAL: nat := 300

  /** Everything a poll or a sync can change in a pod, whether a hook is registered, and the
      configuration the hook was last called with. */
  datatype Pod = Pod(
    synced: Synced, cursor: nat, lastAudit: Option<nat>, hooked: bool, handed: Option<ServerConfig>)

  predicate RevisionChanged(pod: Pod, maxId: nat) {
    maxId > pod.cursor
  }

  predicate AuditDue(pod: Pod, now: nat) {
    pod.lastAudit.None? || now >= pod.lastAudit.value + FULL_AUDIT_INTERVAL
  }

  /** What a poll decides to do once it has read the newest event id. */
  datatype Plan = Skip | Load(audit: bool)

  function PlanPoll(changed: bool, auditDue: bool): Plan {
    if changed then Load(false) else if auditDue then Load(true) else Skip
  }

  /** The lock section of a sync. */
  function LockSync(hash: Hash, pins: Pins, pod: Pod, rows: seq<Row>): Pod {
    pod.(synced := Apply(hash, pins, pod.synced, rows))
  }

  /** The call of the hook that a sync of these rows makes after its lock section. */
  function CallHook(pins: Pins, pod: Pod, rows: seq<Row>): Pod {
    pod.(handed := Some(HookConfig(pins, rows)))
  }

  /** A whole sync that no other overlaps. */
  function Sync(hash: Hash, pins: Pins, pod: Pod, rows: seq<Row>): Pod {
    if pod.hooked then CallHook(pins, LockSync(hash, pins, pod, rows), rows) else LockSync(hash, pins, pod, rows)
  }

  /** Syncing the same rows again changes nothing, and the hook is given the same configuration. */
  lemma SyncIdempotent(hash: Hash, pins: Pins, pod: Pod, rows: seq<Row>)
    ensures Sync(hash, pins, Sync(hash, pins, pod, rows), rows) == Sync(hash, pins, pod, rows)
  {
    ApplyReflects(hash, pins, pod.synced, rows);
  }

  /** The loaded rows are applied unless their fingerprint is the one seen when the poll began. */
  function Compare(hash: Hash, pins: Pins, pod: Pod, seen: string, rows: seq<Row>): Pod {
    if Fingerprint(hash, rows) == seen then pod else Sync(hash, pins, pod, rows)
  }

  function StampAudit(pod: Pod, now: nat): Pod {
    pod.(lastAudit := Some(now))
  }

  /** A failed read of the newest event id leaves the cursor alone. */
  function ReadCursor(pod: Pod, maxId: Result<nat>): Pod {
    if maxId.Ok? then pod.(cursor := maxId.value) else pod
  }

  function MergeCursor(pod: Pod, eventId: nat): Pod {
    if eventId > pod.cursor then pod.(cursor := eventId) else pod
  }

  /** A whole poll, phase by phase. */
  function Polled(hash: Hash, pins: Pins, pod: Pod, now: nat, revision: Result<nat>,
                  load: Result<seq<Row>>, done: nat, newest: Result<nat>): Pod
  {
    if revision.Err? then pod
    else
      var plan := PlanPoll(RevisionChanged(pod, revision.value), AuditDue(pod, now));
      if plan.Skip? || load.Err? then pod
      else
        var compared := Compare(hash, pins, pod, pod.synced.fingerprint, load.value);
        ReadCursor(if plan.audit then StampAudit(compared, done) else compared, newest)
  }

  /** The watcher's view at boot: a fingerprint of rows it does not apply, the newest event id and
      the time. */
  function InitWatcher(hash: Hash, pod: Pod, load: Result<seq<Row>>, maxId: Result<nat>, now: nat): Pod {
    if load.Err? then pod
    else
      var seen := pod.(synced := pod.synced.(fingerprint := Fingerprint(hash, load.value)));
      StampAudit(ReadCursor(seen, maxId), now)
  }

  /** What a poll moves, field by field. It loads if a newer event is visible or five minutes have passed
      since the last audit. Without a successful load nothing moves at all; with one, the cursor takes the
      id read at the end, the audit time moves only if no newer event was visible, and rows that differ
      from those recorded are synced and handed to the hook. */
  lemma PollMoves(hash: Hash, pins: Pins, pod: Pod, now: nat, revision: Result<nat>,
                  load: Result<seq<Row>>, done: nat, newest: Result<nat>)
    ensures var p := Polled(hash, pins, pod, now, revision, load, done, newest);
            var changed := revision.Ok? && revision.value > pod.cursor;
            var due := revision.Ok? && (pod.lastAudit.None? || now - pod.lastAudit.value >= 5 * 60);
            var loaded := (changed || due) && load.Ok?;
            var synced := loaded && Fingerprint(hash, load.value) != pod.synced.fingerprint;
            && p.cursor == (if loaded && newest.Ok? then newest.value else pod.cursor)
            && p.lastAudit == (if loaded && !changed then Some(done) else pod.lastAudit)
            && p.synced == (if synced then Apply(hash, pins, pod.synced, load.value) else pod.synced)
            && p.hooked == pod.hooked
            && p.handed == if synced && pod.hooked then Some(HookConfig(pins, load.value)) else pod.handed
  {
  }

  /** A message raises the cursor to its event, and never lowers it. */
  lemma MessageRaisesCursor(pod: Pod, eventId: nat)
    ensures var p := MergeCursor(pod, eventId);
            && p.cursor >= eventId && p.cursor >= pod.cursor && (p.cursor == eventId || p.cursor == pod.cursor)
            && p.(cursor := pod.cursor) == pod
  {
  }

  /** A watcher that could load starts from the id and the time it read and from the rows' fingerprint. */
  lemma WatcherStarts(hash: Hash, pod: Pod, load: Result<seq<Row>>, maxId: Result<nat>, now: nat)
    ensures var p := InitWatcher(hash, pod, load, maxId, now);
            if load.Err? then p == pod
            else
              && p.cursor == (if maxId.Ok? then maxId.value else pod.cursor) && p.lastAudit == Some(now)
              && p.synced.fingerprint == Fingerprint(hash, load.value)
              && p.synced.env == pod.synced.env && p.synced.managed == pod.synced.managed
              && p.hooked == pod.hooked && p.handed == pod.handed
  {
  }

  /** A manager nothing was synced into yet. */
  function Blank(environ: Environ): Pod {
    Pod(Synced(environ, {}, ""), 0, None, false, None)
  }

  function Reloaded(hash: Hash, pins: Pins, pod: Pod, load: Result<seq<Row>>): Pod {
    if load.Err? then pod else Sync(hash, pins, pod, load.value)
  }

  /** The manager as it is handed out: a first sync, which may fail, and then the watcher's view of a
      second load. */
  function Booted(hash: Hash, pins: Pins, environ: Environ, init: Result<seq<Row>>,
                  load: Result<seq<Row>>, maxId: Result<nat>, now: nat): Pod
  {
    InitWatcher(hash, Reloaded(hash, pins, Blank(environ), init), load, maxId, now)
  }

  method ComputeFingerprint(hash: Hash, rows: seq<Row>) returns (digest: string)
    ensures digest == Fingerprint(hash, rows)
  {
    if |rows| == 0 {
      return hash("");
    }
    var sorted := SortByName(Entries(rows));
    var message := "";
    for i := 0 to |sorted|
      invariant message == Message(sorted[..i])
    {
      MessageAppend(sorted[..i], sorted[i]);
      assert sorted[..i + 1] == sorted[..i] + [sorted[i]];
      message := message + Record(sorted[i]);
    }
    assert sorted[..|sorted|] == sorted;
    digest := hash(message);
  }

  class Manager {
    const hash: Hash
    const shellOverrides: Pins
    var environ: Environ
    var managedKeys: set<string>
    var lastFingerprint: string
    var hookRegistered: bool
    /** What the hook was last called with. */
    var handedConfig: Option<ServerConfig>
    var lastWatcherEventID: nat
    var lastFullAudit: Option<nat>

    ghost predicate Valid()
    {
      ValidPins(shellOverrides)
    }

    function View(): Pod
      reads this
    {
      Pod(Synced(environ, managedKeys, lastFingerprint), lastWatcherEventID, lastFullAudit,
          hookRegistered, handedConfig)
    }

    constructor (hash: Hash, pins: Pins, environ: Environ)
      requires ValidPins(pins)
      ensures Valid() && this.hash == hash && shellOverrides == pins
      ensures View() == Blank(environ)
    {
      this.hash, this.shellOverrides, this.environ := hash, pins, environ;
      managedKeys, lastFingerprint, hookRegistered, handedConfig := {}, "", false, None;
      lastWatcherEventID, lastFullAudit := 0, None;
    }

    /** Copies an enabled row into the configuration if it is marked core or has a core name. */
    method NoteCoreValue(ghost desired: map<string, string>, before: ServerConfig, row: Row, name: string)
      returns (cfg: ServerConfig)
      requires NormalizeName(name) == name && before == Overlay(EMPTY_CONFIG, desired)
      ensures cfg == Overlay(EMPTY_CONFIG, desired[name := row.value])
    {
      OverlayExtends(EMPTY_CONFIG, desired, name, row.value);
      cfg := before;
      if row.isCore || IsCoreName(name) {
        cfg := ApplyCoreValue(before, name, row.value);
      }
      IgnoredUnlessCore(before, name, row.value);
    }

    /** Collects what the rows ask for, in row order. */
    method ReadRows(rows: seq<Row>)
      returns (desired: map<string, string>, disabled: set<string>, cfg: ServerConfig)
      requires Valid()
      ensures desired == Desired(shellOverrides, rows) && disabled == Disabled(shellOverrides, rows)
      ensures cfg == Overlay(EMPTY_CONFIG, desired)
    {
      desired, disabled, cfg := map[], {}, EMPTY_CONFIG;
      for i := 0 to |rows|
        invariant desired == Desired(shellOverrides, rows[..i])
        invariant disabled == Disabled(shellOverrides, rows[..i])
        invariant cfg == Overlay(EMPTY_CONFIG, desired)
      {
        var row := rows[i];
        assert rows[..i + 1][..i] == rows[..i];
        NormalizeIdempotent(row.name);
        var name := NormalizeName(row.name);
        if name == "" || Pinned(shellOverrides, name) {
        } else if row.isDisabled {
          disabled := disabled + {name};
        } else {
          cfg := NoteCoreValue(desired, cfg, row, name);
          desired := desired[name := row.value];
        }
      }
      assert rows[..|rows|] == rows;
    }

    /** Pins override the configuration in whatever order they are visited. */
    method ApplyShellPinnedConfig(base: ServerConfig) returns (cfg: ServerConfig)
      requires Valid()
      ensures cfg == Overlay(base, shellOverrides)
    {
      cfg := base;
      var todo := shellOverrides.Keys;
      ghost var seen: map<string, string> := map[];
      while todo != {}
        invariant todo <= shellOverrides.Keys
        invariant seen == map n | n in shellOverrides && n !in todo :: shellOverrides[n]
        invariant cfg == Overlay(base, seen)
        decreases todo
      {
        var name :| name in todo;
        OverlayExtends(base, seen, name, shellOverrides[name]);
        cfg := ApplyCoreValue(cfg, name, shellOverrides[name]);
        seen := seen[name := shellOverrides[name]];
        todo := todo - {name};
      }
      assert seen == shellOverrides;
    }

    /** Sets every desired variable, in any order. */
    method SetAll(values: map<string, string>)
      modifies this`environ
      ensures forall n :: Lookup(environ, n) ==
                          if n in values && Settable(n, values[n]) then Some(values[n])
                          else Lookup(old(environ), n)
    {
      var todo := values.Keys;
      while todo != {}
        invariant todo <= values.Keys
        invariant forall n :: Lookup(environ, n) ==
                              if n in values && n !in todo && Settable(n, values[n]) then Some(values[n])
                              else Lookup(old(environ), n)
        decreases todo
      {
        var name :| name in todo;
        environ := Setenv(environ, name, values[name]);
        todo := todo - {name};
      }
    }

    /** Unsets every given variable that is neither pinned nor kept, in any order. */
    method UnsetAll(names: set<string>, keep: set<string>)
      modifies this`environ
      ensures forall n :: Lookup(environ, n) ==
                          if n in names && !Pinned(shellOverrides, n) && n !in keep then None
                          else Lookup(old(environ), n)
    {
      var todo := names;
      while todo != {}
        invariant todo <= names
        invariant forall n :: Lookup(environ, n) ==
                              if n in names && n !in todo && !Pinned(shellOverrides, n) && n !in keep then None
                              else Lookup(old(environ), n)
        decreases todo
      {
        var name :| name in todo;
        if !Pinned(shellOverrides, name) && name !in keep {
          environ := Unsetenv(environ, name);
        }
        todo := todo - {name};
      }
    }

    /** Everything a sync does before it lets go of the lock; what it read of the hook there decides
        whether it calls it. */
    method ApplyLocked(rows: seq<Row>) returns (cfg: ServerConfig, hooked: bool)
      requires Valid()
      modifies this`environ, this`managedKeys, this`lastFingerprint
      ensures Valid() && View() == LockSync(hash, shellOverrides, old(View()), rows)
      ensures cfg == HookConfig(shellOverrides, rows) && hooked == hookRegistered
    {
      var desired, disabled, base := ReadRows(rows);
      cfg := ApplyShellPinnedConfig(base);
      DisabledUnpinned(shellOverrides, rows);
      SetAll(desired);
      UnsetAll(disabled, {});
      UnsetAll(managedKeys, desired.Keys + disabled);
      SetAll(shellOverrides);
      SameLookups(environ, SyncedEnviron(shellOverrides, old(environ), old(managedKeys), rows));
      managedKeys := desired.Keys;
      lastFingerprint := ComputeFingerprint(hash, rows);
      hooked := hookRegistered;
    }

    method ApplySync(rows: seq<Row>)
      requires Valid()
      modifies this
      ensures Valid() && View() == Sync(hash, shellOverrides, old(View()), rows)
    {
      var cfg, hooked := ApplyLocked(rows);
      if hooked {
        handedConfig := Some(cfg);
      }
    }

    method SetHooks()
      modifies this`hookRegistered
      ensures View() == old(View()).(hooked := true)
    {
      hookRegistered := true;
    }

    /** Reload: load the rows and apply them; a failed load changes nothing. */
    method Reload(load: Result<seq<Row>>) returns (ok: bool)
      requires Valid()
      modifies this
      ensures Valid() && ok == load.Ok?
      ensures View() == Reloaded(hash, shellOverrides, old(View()), load)
    {
      if load.Err? {
        return false;
      }
      ApplySync(load.value);
      ok := true;
    }

    method UpdateSyncCursors(newest: Result<nat>)
      modifies this`lastWatcherEventID
      ensures View() == ReadCursor(old(View()), newest)
    {
      if newest.Ok? {
        lastWatcherEventID := newest.value;
      }
    }

    method PollFull(previous: string, load: Result<seq<Row>>, done: nat, newest: Result<nat>)
      requires Valid()
      modifies this
      ensures Valid()
      ensures View() == if load.Err? then old(View())
                        else
                          var compared := Compare(hash, shellOverrides, old(View()), previous, load.value);
                          ReadCursor(StampAudit(compared, done), newest)
    {
      if load.Err? {
        return;
      }
      var fp := ComputeFingerprint(hash, load.value);
      if fp == previous {
        lastFullAudit := Some(done);
        UpdateSyncCursors(newest);
        return;
      }
      ApplySync(load.value);
      lastFullAudit := Some(done);
      UpdateSyncCursors(newest);
    }

    /** One tick of the watcher. `now` is its start, `done` the time it records after an audit. */
    method Poll(now: nat, revision: Result<nat>, load: Result<seq<Row>>, done: nat, newest: Result<nat>)
      requires Valid()
      modifies this
      ensures Valid()
      ensures View() == Polled(hash, shellOverrides, old(View()), now, revision, load, done, newest)
    {
      if revision.Err? {
        return;
      }
      var changed := revision.value > lastWatcherEventID;
      var auditDue := lastFullAudit.None? || now >= lastFullAudit.value + FULL_AUDIT_INTERVAL;
      var seen := lastFingerprint;
      if !changed {
        if auditDue {
          PollFull(seen, load, done, newest);
        }
        return;
      }
      if load.Err? {
        return;
      }
      var fp := ComputeFingerprint(hash, load.value);
      if fp == seen {
        UpdateSyncCursors(newest);
        return;
      }
      ApplySync(load.value);
      UpdateSyncCursors(newest);
    }

    method InitWatcherState(load: Result<seq<Row>>, maxId: Result<nat>, now: nat)
      requires Valid()
      modifies this
      ensures Valid() && View() == InitWatcher(hash, old(View()), load, maxId, now)
    {
      if load.Err? {
        return;
      }
      lastFingerprint := ComputeFingerprint(hash, load.value);
      if maxId.Ok? {
        lastWatcherEventID := maxId.value;
      }
      lastFullAudit := Some(now);
    }

    /** A message from another pod: reload, and only then raise the cursor to the message's event. */
    method HandleSyncQueueMessage(fromSelf: bool, eventId: nat, load: Result<seq<Row>>)
      requires Valid()
      modifies this
      ensures Valid()
      ensures View() == if fromSelf || load.Err? then old(View())
                        else MergeCursor(Reloaded(hash, shellOverrides, old(View()), load), eventId)
    {
      if fromSelf {
        return;
      }
      var ok := Reload(load);
      if !ok {
        return;
      }
      if eventId > lastWatcherEventID {
        lastWatcherEventID := eventId;
      }
    }
  }

  /** Creating a manager: the first sync's failure is only logged. */
  method New(hash: Hash, pins: Pins, environ: Environ, init: Result<seq<Row>>,
             load: Result<seq<Row>>, maxId: Result<nat>, now: nat) returns (m: Manager)
    requires ValidPins(pins)
    ensures m.Valid() && m.hash == hash && m.shellOverrides == pins
    ensures m.View() == Booted(hash, pins, environ, init, load, maxId, now)
  {
    m := new Manager(hash, pins, environ);
    var _ := m.Reload(init);
    m.InitWatcherState(load, maxId, now);
  }

  /** A name that is no core name leaves the configuration alone, so testing for core names first
      changes nothing. */
  lemma IgnoredUnlessCore(cfg: ServerConfig, name: string, value: string)
    ensures !IsCoreName(name) ==> ApplyCoreValue(cfg, name, value) == cfg
  {
  }

  lemma {:induction false} DisabledUnpinned(pins: Pins, rows: seq<Row>)
    ensures forall n :: n in Disabled(pins, rows) ==> !Pinned(pins, n)
  {
    if rows != [] {
      DisabledUnpinned(pins, rows[..|rows| - 1]);
      NormalizeIdempotent(rows[|rows| - 1].name);
    }
  }
}
