/** How old the rows in place can be: bounds over whole runs in which polls tick on time and the
    database answers them, however many reloads overlap them. */
module Staleness {
  import opened Options
  import opened Fingerprints
  import opened EnvSync
  import opened Environments
  import opened Replication

  /** Polls begin at most `every` apart, a begun poll takes at most `length`, and a reload puts its
      rows in place at most `slow` after it loaded them. */
  datatype Pace = Pace(every: nat, length: nat, slow: nat)

  ghost predicate Timely(w: World, p: Pace) {
    && w.clock <= w.pollStart + (if w.phase.Idle? then p.every else p.length)
    && (forall r :: r in w.reloads && w.reloads[r].Applying? ==> w.clock <= w.reloads[r].loadedAt + p.slow)
  }

  /** The reads a poll needs succeed. The cursor's own read may fail, and so may reloads. */
  predicate ReadsSucceed(a: Action) {
    (a.ReadMax? ==> a.ok) && (a.LoadRows? ==> a.ok)
  }

  predicate AuditBefore(w: World, t: nat) {
    w.pod.lastAudit.Some? ==> w.pod.lastAudit.value <= t
  }

  /** The rows in place are not much older than the last audit and the last poll; if they changed since
      a poll looked at their fingerprint, a reload put them there. */
  ghost predicate FreshInv(w: World, p: Pace) {
    && AuditBefore(w, w.clock) && AuditBefore(w, w.pollStart + p.length)
    && AuditBefore(w, w.loadTime + p.length + p.slow)
    && w.pollStart < w.loadTime + p.length + p.slow + FULL_AUDIT_INTERVAL + (if w.phase.Idle? then 0 else p.every)
    && (w.phase.Loading? || w.phase.Comparing? ==>
          w.phase.seen == w.pod.synced.fingerprint || w.pollStart <= w.loadTime + p.slow)
    && (w.phase.PollCalling? || w.phase.Stamping? || w.phase.Cursoring? ==> w.pollStart <= w.loadTime + p.slow)
  }

  lemma FreshAfterCompare(w: World, next: World, dropped: bool, p: Pace)
    requires FreshInv(w, p) && w.phase.Comparing? && w.pollStart <= w.phase.loadedAt <= w.clock
    requires next.clock == w.clock && next.pollStart == w.pollStart && next.pod.lastAudit == w.pod.lastAudit
    requires next.phase.PollCalling? || next.phase.Stamping? || next.phase.Cursoring?
    requires next.loadTime == if dropped then w.loadTime else w.phase.loadedAt
    requires dropped ==> w.phase.seen != w.pod.synced.fingerprint
    ensures FreshInv(next, p)
  {
  }

  lemma CompareKeepsFresh(s: Setup, w: World, p: Pace)
    requires HandsInv(w) && w.phase.Comparing? && FreshInv(w, p)
    ensures FreshInv(DoCompare(s, w), p)
  {
    FreshAfterCompare(w, DoCompare(s, w), Drops(s, w), p);
  }

  lemma ApplyKeepsFresh(s: Setup, w: World, r: nat, p: Pace)
    requires HandsInv(w) && r in w.reloads && w.reloads[r].Applying? && Timely(w, p) && FreshInv(w, p)
    ensures FreshInv(DoApply(s, w, r), p)
  {
    assert w.clock <= w.reloads[r].loadedAt + p.slow;
  }

  lemma PollStepKeepsFresh(s: Setup, w: World, a: Action, p: Pace)
    requires HandsInv(w) && Enabled(w, a) && ReadsSucceed(a) && Timely(w, p) && FreshInv(w, p) && w.versions != []
    requires !a.CompareRows? && !ReloadAction(a)
    ensures FreshInv(Next(s, w, a), p)
  {
  }

  lemma FreshStep(s: Setup, w: World, a: Action, p: Pace)
    requires Inv(s, w) && Enabled(w, a) && ReadsSucceed(a) && Timely(w, p) && FreshInv(w, p)
    ensures FreshInv(Next(s, w, a), p)
  {
    if a.CompareRows? {
      CompareKeepsFresh(s, w, p);
    } else if a.ApplyRows? {
      ApplyKeepsFresh(s, w, a.r, p);
    } else if ReloadAction(a) {
      OtherStepsKeepShown(s, w, a);
    } else {
      PollStepKeepsFresh(s, w, a, p);
    }
  }

  /** A run on time whose polls are answered. */
  ghost predicate TimelyRun(s: Setup, ws: seq<World>, acts: seq<Action>, p: Pace) {
    && Injective(s.hash) && Run(s, ws, acts) && FreshInv(ws[0], p)
    && (forall k :: 0 <= k < |ws| ==> Timely(ws[k], p))
    && (forall k :: 0 <= k < |acts| ==> ReadsSucceed(acts[k]))
  }

  lemma RunStepKeepsFresh(s: Setup, ws: seq<World>, acts: seq<Action>, i: nat, p: Pace)
    requires TimelyRun(s, ws, acts, p) && i < |acts| && FreshInv(ws[i], p)
    ensures FreshInv(ws[i + 1], p)
  {
    var w, a := ws[i], acts[i];
    RunKeepsInv(s, ws, acts, i);
    assert Timely(w, p) && ReadsSucceed(a) && ws[i + 1] == Next(s, w, a);
    FreshStep(s, w, a, p);
  }

  lemma {:induction false} RunKeepsFresh(s: Setup, ws: seq<World>, acts: seq<Action>, i: nat, p: Pace)
    requires TimelyRun(s, ws, acts, p) && i < |ws|
    ensures FreshInv(ws[i], p)
  {
    if i > 0 {
      RunKeepsFresh(s, ws, acts, i - 1, p);
      RunStepKeepsFresh(s, ws, acts, i - 1, p);
    }
  }

  /** At every moment of every timely run the pod reflects a committed table that includes every
      version committed more than one audit interval, one poll interval, two poll lengths and one
      reload ago, even if the cursor skipped its event, a poll dropped its rows or put older rows back. */
  lemma BoundedStaleness(s: Setup, ws: seq<World>, acts: seq<Action>, i: nat, p: Pace)
    requires TimelyRun(s, ws, acts, p) && i < |ws|
    ensures var w := ws[i];
            && w.shown < |w.versions| == |w.commits|
            && Reflects(s.hash, s.pins, w.pod.synced, w.versions[w.shown])
            && forall v :: 0 <= v < |w.commits|
                           && w.commits[v] + FULL_AUDIT_INTERVAL + p.every + 2 * p.length + p.slow <= w.clock
                           ==> v <= w.shown
  {
    RunKeepsInv(s, ws, acts, i);
    RunKeepsFresh(s, ws, acts, i, p);
    assert Timely(ws[i], p);
  }

  /** In every timely run a poll that loads nothing began less than one audit interval, one poll length
      and one reload after the rows in place were loaded. */
  lemma SkippedPollIsRecent(s: Setup, ws: seq<World>, acts: seq<Action>, i: nat, p: Pace)
    requires TimelyRun(s, ws, acts, p) && i < |acts| && acts[i] == Decide && ws[i + 1].phase.Idle?
    ensures ws[i].pollStart < ws[i].loadTime + FULL_AUDIT_INTERVAL + p.length + p.slow
    ensures ws[i + 1].loadTime == ws[i].loadTime && ws[i + 1].shown == ws[i].shown
  {
    RunKeepsFresh(s, ws, acts, i, p);
    assert ws[i + 1] == Next(s, ws[i], acts[i]);
  }

  /** In a timely run a compare only drops rows if a reload has put others in place, loaded at most
      one reload before the poll began. */
  lemma DropsAfterReload(s: Setup, ws: seq<World>, acts: seq<Action>, i: nat, p: Pace)
    requires TimelyRun(s, ws, acts, p) && i < |ws| && ws[i].phase.Comparing? && Drops(s, ws[i])
    ensures ws[i].pollStart <= ws[i].loadTime + p.slow
  {
    RunKeepsFresh(s, ws, acts, i, p);
  }

  /** The reload that follows at boot makes every run's invariant true, whatever the watcher recorded
      before and whatever the pod held, with polls and other reloads under way. */
  lemma BootReloadEstablishes(s: Setup, w: World, r: nat, p: Pace)
    requires LogInv(w) && CursorInv(w) && TablesInv(w) && HandsInv(w)
    requires Enabled(w, ApplyRows(r))
    ensures Inv(s, Next(s, w, ApplyRows(r)))
    ensures Timely(w, p) && AuditBefore(w, w.clock) && AuditBefore(w, w.pollStart + p.length) ==>
              FreshInv(Next(s, w, ApplyRows(r)), p)
  {
    ApplyShows(s, w, r);
    LogStep(s, w, ApplyRows(r));
    CursorStep(s, w, ApplyRows(r));
    TablesStep(s, w, ApplyRows(r));
    HandsStep(s, w, ApplyRows(r));
  }

  /** A pod that has just put the only table in place, with no poll or reload under way. */
  function NewPod(s: Setup, environ: Environ, rows: seq<Row>): World {
    World([rows], [0], [], [], {}, 0, Reloaded(s.hash, s.pins, Blank(environ), Ok(rows)), Idle, map[], 0, 0, 0)
  }

  /** It satisfies what the theorems about runs ask of their first state, at any pace. */
  lemma NewPodStartsRuns(s: Setup, environ: Environ, rows: seq<Row>, p: Pace)
    requires Loaded(rows)
    ensures var w := NewPod(s, environ, rows); Inv(s, w) && FreshInv(w, p) && Timely(w, p)
  {
    ApplyReflects(s.hash, s.pins, Blank(environ).synced, rows);
  }
}
