/** When a poll ends up to date: exactly when, over every stretch of every run, and the runs in which it
    does not, because a commit or a reload overlaps it. */
module Overlaps {
  import opened Options
  import opened Fingerprints
  import opened EnvSync
  import opened Environments
  import opened Replication

  /** The rows in place are those of the last commit. */
  predicate ShowsLastCommit(w: World) {
    w.shown == |w.versions| - 1
  }

  predicate Quiet(w: World) {
    !RevisionChanged(w.pod, MaxId(w.events))
  }

  ghost predicate Extends(w: World, v: World) {
    |w.versions| <= |v.versions| && w.versions == v.versions[..|w.versions|]
  }

  lemma ExtendsTransitive(u: World, w: World, v: World)
    requires Extends(u, w) && Extends(w, v)
    ensures Extends(u, v)
  {
  }

  lemma StepExtends(s: Setup, w: World, a: Action, v: World)
    requires Enabled(w, a) && w.versions != [] && v == Next(s, w, a)
    ensures Extends(w, v)
  {
  }

  lemma RunStepExtends(s: Setup, ws: seq<World>, acts: seq<Action>, i: nat)
    requires Injective(s.hash) && Run(s, ws, acts) && i < |acts|
    ensures Extends(ws[i], ws[i + 1])
  {
    RunStep(s, ws, acts, i);
    StepExtends(s, ws[i], acts[i], ws[i + 1]);
  }

  lemma {:induction false} CommitsGrow(s: Setup, ws: seq<World>, acts: seq<Action>, i: nat, j: nat)
    requires Injective(s.hash) && Run(s, ws, acts) && i <= j < |ws|
    ensures Extends(ws[i], ws[j])
  {
    if i < j {
      CommitsGrow(s, ws, acts, i, j - 1);
      RunStepExtends(s, ws, acts, j - 1);
      ExtendsTransitive(ws[i], ws[j - 1], ws[j]);
    }
  }

  // ------------------------------------------------------------------ the rows a step puts in place

  ghost predicate Places(s: Setup, w: World, a: Action)
    requires Enabled(w, a)
  {
    a.ApplyRows? || (a.CompareRows? && !Drops(s, w))
  }

  /** The version whose rows the step puts in place. */
  ghost function Placed(w: World, a: Action): nat
    requires Enabled(w, a) && (a.ApplyRows? || a.CompareRows?)
  {
    if a.ApplyRows? then w.reloads[a.r].version else w.phase.version
  }

  lemma QuietStepKeepsShown(s: Setup, w: World, a: Action, v: World)
    requires Step(s, w, a, v) && !Places(s, w, a)
    ensures v.shown == w.shown
  {
    if a.CompareRows? {
      DroppedStays(s, w);
    } else {
      OtherStepsKeepShown(s, w, a);
    }
  }

  ghost predicate NothingPlaced(s: Setup, ws: seq<World>, acts: seq<Action>, i: nat, j: nat)
    requires |ws| == |acts| + 1
  {
    forall k {:trigger acts[k]} :: i <= k < j && k < |acts| ==> Enabled(ws[k], acts[k]) && !Places(s, ws[k], acts[k])
  }

  lemma {:induction false} ShownStays(s: Setup, ws: seq<World>, acts: seq<Action>, i: nat, j: nat)
    requires Injective(s.hash) && Run(s, ws, acts) && i <= j < |ws| && NothingPlaced(s, ws, acts, i, j)
    ensures ws[j].shown == ws[i].shown
  {
    if i < j {
      ShownStays(s, ws, acts, i, j - 1);
      RunStep(s, ws, acts, j - 1);
      QuietStepKeepsShown(s, ws[j - 1], acts[j - 1], ws[j]);
    }
  }

  lemma PlacingStepShows(s: Setup, w: World, a: Action)
    requires Enabled(w, a) && w.versions != [] && Places(s, w, a)
    ensures Next(s, w, a).shown == Placed(w, a)
  {
  }

  lemma PlacedShows(s: Setup, ws: seq<World>, acts: seq<Action>, k: nat)
    requires Path(s, ws, acts) && k < |acts|
    requires Enabled(ws[k], acts[k]) && Places(s, ws[k], acts[k])
    ensures ws[k + 1].shown == Placed(ws[k], acts[k])
  {
    var a := acts[k];
    PlacingStepShows(s, ws[k], a);
  }

  /** The rows the step puts in place. */
  ghost function PlacedRows(w: World, a: Action): seq<Row>
    requires Enabled(w, a) && (a.ApplyRows? || a.CompareRows?)
  {
    if a.ApplyRows? then w.reloads[a.r].rows else w.phase.rows
  }

  lemma PlacedIsInHand(w: World, a: Action)
    requires HandsInv(w) && Enabled(w, a) && (a.ApplyRows? || a.CompareRows?)
    ensures Placed(w, a) < |w.versions| && w.versions[Placed(w, a)] == PlacedRows(w, a)
  {
  }

  lemma PlacedRowsStay(s: Setup, ws: seq<World>, acts: seq<Action>, k: nat, j: nat)
    requires Injective(s.hash) && Run(s, ws, acts) && k < j < |ws|
    requires Enabled(ws[k], acts[k]) && Places(s, ws[k], acts[k]) && NothingPlaced(s, ws, acts, k + 1, j)
    ensures ws[j].shown < |ws[j].versions| && ws[j].versions[ws[j].shown] == PlacedRows(ws[k], acts[k])
  {
    PlacedShows(s, ws, acts, k);
    ShownStays(s, ws, acts, k + 1, j);
    CommitsGrow(s, ws, acts, k, j);
    RunKeepsInv(s, ws, acts, k);
    PlacedIsInHand(ws[k], acts[k]);
  }

  /** At any moment the environment is the newest table's exactly if that table holds the entries of the
      rows last put in place, be it by a poll or by a reload, and however long ago they were loaded. */
  lemma UpToDateIff(s: Setup, ws: seq<World>, acts: seq<Action>, k: nat, j: nat)
    requires Injective(s.hash) && Run(s, ws, acts) && k < j < |ws|
    requires Enabled(ws[k], acts[k]) && Places(s, ws[k], acts[k]) && NothingPlaced(s, ws, acts, k + 1, j)
    ensures ws[j].versions != []
    ensures ShowsNewest(s, ws[j]) <==> Entries(ws[j].versions[Newest(ws[j])]) == Entries(PlacedRows(ws[k], acts[k]))
  {
    PlacedRowsStay(s, ws, acts, k, j);
    RunKeepsInv(s, ws, acts, j);
    ReflectsIff(s, ws[j], ws[j].versions[Newest(ws[j])]);
  }

  // ------------------------------------------------------------ one poll, from its load to its end

  /** From just after a poll's load to its cursor read, with anything in between but another cursor read
      or a reload being put in place. */
  ghost predicate PollTail(s: Setup, ws: seq<World>, acts: seq<Action>) {
    && Injective(s.hash) && Run(s, ws, acts) && acts != []
    && ws[0].phase.Comparing? && ws[0].phase.version == |ws[0].versions| - 1
    && acts[|acts| - 1] == Cursor(true)
    && (forall i :: 0 <= i < |acts| - 1 ==> !acts[i].Cursor? && !acts[i].ApplyRows?)
  }

  /** Either the compare is still to come or it has been made. */
  ghost predicate TailAt(s: Setup, first: World, w: World)
    requires first.phase.Comparing?
  {
    || (w.phase == first.phase && w.shown == first.shown
        && w.pod.synced.fingerprint == first.pod.synced.fingerprint)
    || ((w.phase.PollCalling? || w.phase.Stamping? || w.phase.Cursoring?)
        && w.shown == if Drops(s, first) then first.shown else first.phase.version)
  }

  lemma TailStep(s: Setup, first: World, w: World, a: Action, v: World)
    requires first.phase.Comparing? && Step(s, w, a, v) && TailAt(s, first, w)
    requires !a.Cursor? && !a.ApplyRows?
    ensures TailAt(s, first, v)
  {
    if a.CompareRows? {
      assert Drops(s, w) == Drops(s, first);
    } else {
      OtherStepsKeepShown(s, w, a);
    }
  }

  lemma RunTailStep(s: Setup, ws: seq<World>, acts: seq<Action>, i: nat)
    requires PollTail(s, ws, acts) && i < |acts| - 1 && TailAt(s, ws[0], ws[i])
    ensures TailAt(s, ws[0], ws[i + 1])
  {
    RunStep(s, ws, acts, i);
    TailStep(s, ws[0], ws[i], acts[i], ws[i + 1]);
  }

  lemma {:induction false} TailHolds(s: Setup, ws: seq<World>, acts: seq<Action>, i: nat)
    requires PollTail(s, ws, acts) && i < |acts|
    ensures TailAt(s, ws[0], ws[i])
  {
    if i > 0 {
      TailHolds(s, ws, acts, i - 1);
      RunTailStep(s, ws, acts, i - 1);
    }
  }

  lemma TailEnds(s: Setup, first: World, w: World, a: Action, v: World)
    requires first.phase.Comparing? && Step(s, w, a, v) && TailAt(s, first, w) && a == Cursor(true)
    ensures Quiet(v) && v.versions == w.versions
    ensures v.shown == if Drops(s, first) then first.shown else first.phase.version
  {
  }

  lemma RunTailEnds(s: Setup, ws: seq<World>, acts: seq<Action>)
    requires PollTail(s, ws, acts)
    ensures Quiet(ws[|acts|])
    ensures ws[|acts|].shown == if Drops(s, ws[0]) then ws[0].shown else ws[0].phase.version
  {
    var n := |acts| - 1;
    TailHolds(s, ws, acts, n);
    RunStep(s, ws, acts, n);
    TailEnds(s, ws[0], ws[n], acts[n], ws[n + 1]);
  }

  /** Rows are only dropped for other rows. */
  lemma DroppedIsOther(s: Setup, w: World)
    requires Inv(s, w) && w.phase.Comparing?
    ensures w.shown < |w.versions| && (Drops(s, w) ==> w.shown != w.phase.version)
  {
  }

  /** The rows a poll leaves in place: those it loaded, or those in place before if it dropped them. */
  ghost function KeptRows(s: Setup, first: World): seq<Row>
    requires first.phase.Comparing? && first.shown < |first.versions|
  {
    if Drops(s, first) then first.versions[first.shown] else first.phase.rows
  }

  lemma TailKeeps(s: Setup, ws: seq<World>, acts: seq<Action>)
    requires PollTail(s, ws, acts)
    ensures ws[0].shown < |ws[0].versions| && ws[|acts|].shown < |ws[|acts|].versions|
    ensures ws[|acts|].versions[ws[|acts|].shown] == KeptRows(s, ws[0])
  {
    RunTailEnds(s, ws, acts);
    CommitsGrow(s, ws, acts, 0, |acts|);
    FirstInHand(s, ws[0]);
  }

  lemma FirstInHand(s: Setup, w: World)
    requires Inv(s, w) && w.phase.Comparing?
    ensures w.shown < |w.versions|
    ensures w.phase.version < |w.versions| && w.phase.rows == w.versions[w.phase.version]
  {
  }

  /** A poll always ends with a quiet revision check, and then the environment is the newest table's
      exactly if that table holds the entries of the rows loaded, or, if these were dropped for a reload's,
      of the rows in place. The last commit is in place exactly if nothing was committed between the load
      and the cursor read and nothing was dropped. */
  lemma PollUpToDateIff(s: Setup, ws: seq<World>, acts: seq<Action>)
    requires PollTail(s, ws, acts)
    ensures ws[0].shown < |ws[0].versions| && ws[|acts|].versions != []
    ensures var last := ws[|acts|];
            && Quiet(last)
            && (ShowsNewest(s, last) <==> Entries(last.versions[Newest(last)]) == Entries(KeptRows(s, ws[0])))
            && (ShowsLastCommit(last) <==> last.versions == ws[0].versions && !Drops(s, ws[0]))
  {
    var last := ws[|acts|];
    TailKeeps(s, ws, acts);
    TailIndex(s, ws, acts);
    RunKeepsInv(s, ws, acts, |acts|);
    ReflectsIff(s, last, last.versions[Newest(last)]);
  }

  lemma TailIndex(s: Setup, ws: seq<World>, acts: seq<Action>)
    requires PollTail(s, ws, acts)
    ensures var last := ws[|acts|];
            Quiet(last) && (ShowsLastCommit(last) <==> last.versions == ws[0].versions && !Drops(s, ws[0]))
  {
    RunTailEnds(s, ws, acts);
    CommitsGrow(s, ws, acts, 0, |acts|);
    DroppedIsOther(s, ws[0]);
    TailCounts(s, ws[0], ws[|acts|]);
  }

  lemma TailCounts(s: Setup, first: World, last: World)
    requires first.phase.Comparing? && first.phase.version == |first.versions| - 1 && Extends(first, last)
    requires first.shown < |first.versions| && (Drops(s, first) ==> first.shown != first.phase.version)
    requires last.shown == if Drops(s, first) then first.shown else first.phase.version
    ensures ShowsLastCommit(last) <==> last.versions == first.versions && !Drops(s, first)
  {
  }

  // --------------------------------------------------------------------- polls no reload overlaps

  /** Seen is what is in place, and what is in hand is no older. */
  ghost predicate Undisturbed(w: World) {
    && (w.phase.Loading? || w.phase.Comparing? ==> w.phase.seen == w.pod.synced.fingerprint)
    && (w.phase.Comparing? ==> w.shown <= w.phase.version)
  }

  lemma UndisturbedStep(s: Setup, w: World, a: Action, v: World)
    requires Step(s, w, a, v) && !a.ApplyRows? && Undisturbed(w)
    ensures Undisturbed(v) && w.shown <= v.shown
    ensures a.CompareRows? ==> w.phase.Comparing? && !Drops(s, w) && v.shown == w.phase.version
  {
    if !a.CompareRows? {
      OtherStepsKeepShown(s, w, a);
    }
  }

  lemma {:induction false} UndisturbedRun(s: Setup, ws: seq<World>, acts: seq<Action>, i: nat)
    requires Injective(s.hash) && Run(s, ws, acts) && i < |ws| && Undisturbed(ws[0])
    requires forall k :: 0 <= k < i ==> !acts[k].ApplyRows?
    ensures Undisturbed(ws[i])
  {
    if i > 0 {
      UndisturbedRun(s, ws, acts, i - 1);
      RunStep(s, ws, acts, i - 1);
      UndisturbedStep(s, ws[i - 1], acts[i - 1], ws[i]);
    }
  }

  /** As long as no reload is put in place, every poll's compare leaves exactly its rows in place and the
      pod never goes back to an older version: only a reload can make a poll go wrong in these ways. */
  lemma UndisturbedPolls(s: Setup, ws: seq<World>, acts: seq<Action>, i: nat)
    requires Injective(s.hash) && Run(s, ws, acts) && i < |acts| && Undisturbed(ws[0])
    requires forall k :: 0 <= k <= i ==> !acts[k].ApplyRows?
    ensures ws[i].shown <= ws[i + 1].shown
    ensures acts[i].CompareRows? ==>
              && ws[i].phase.Comparing? && ws[i + 1].shown == ws[i].phase.version
              && Reflects(s.hash, s.pins, ws[i + 1].pod.synced, ws[i].phase.rows)
  {
    UndisturbedRun(s, ws, acts, i);
    RunStep(s, ws, acts, i);
    UndisturbedStep(s, ws[i], acts[i], ws[i + 1]);
    if acts[i].CompareRows? {
      CompareStepReflects(s, ws[i], ws[i + 1]);
    }
  }

  lemma CompareStepReflects(s: Setup, w: World, v: World)
    requires Injective(s.hash) && TablesInv(w) && HandsInv(w) && ShownInv(s, w)
    requires w.phase.Comparing? && !Drops(s, w) && v == DoCompare(s, w)
    ensures Reflects(s.hash, s.pins, v.pod.synced, w.phase.rows)
  {
    LoadingPollAgreesIff(s, w);
  }

  // --------------------------------------------------------------------------------- reachability

  ghost predicate Reaches(s: Setup, w: World, v: World) {
    exists ws, acts :: Path(s, ws, acts) && ws[0] == w && ws[|acts|] == v
  }

  lemma ReachesItself(s: Setup, w: World)
    ensures Reaches(s, w, w)
  {
    var acts: seq<Action> := [];
    assert Path(s, [w], acts);
  }

  lemma ReachedInv(s: Setup, w: World, v: World)
    requires Injective(s.hash) && Inv(s, w) && Reaches(s, w, v)
    ensures Inv(s, v)
  {
    var ws, acts :| Path(s, ws, acts) && ws[0] == w && ws[|acts|] == v;
    RunKeepsInv(s, ws, acts, |acts|);
  }

  lemma ReachStep(s: Setup, w: World, v: World, a: Action) returns (next: World)
    requires Reaches(s, w, v) && Enabled(v, a) && v.versions != []
    ensures next == Next(s, v, a) && next.versions != [] && Reaches(s, w, next)
  {
    next := Next(s, v, a);
    var ws, acts :| Path(s, ws, acts) && ws[0] == w && ws[|acts|] == v;
    PathGrows(s, ws, acts, a, next);
  }

  lemma PathGrows(s: Setup, ws: seq<World>, acts: seq<Action>, a: Action, next: World)
    requires Path(s, ws, acts) && ws[|acts|].versions != [] && Enabled(ws[|acts|], a)
    requires next == Next(s, ws[|acts|], a)
    ensures Reaches(s, ws[0], next)
  {
    var us, bs := ws + [next], acts + [a];
    forall i | 0 <= i < |bs|
      ensures us[i].versions != [] && Enabled(us[i], bs[i]) && us[i + 1] == Next(s, us[i], bs[i])
    {
      if i < |acts| {
        assert bs[i] == acts[i] && us[i] == ws[i] && us[i + 1] == ws[i + 1];
      }
    }
    assert us[0] == ws[0] && us[|bs|] == next;
    assert Path(s, us, bs);
  }

  /** A commit, with one event. */
  lemma ReachWrite(s: Setup, w: World, v: World, rows: seq<Row>) returns (next: World)
    requires Reaches(s, w, v) && v.versions != [] && Loaded(rows)
    ensures Reaches(s, w, next) && next.versions != [] && next == DoWrite(v, rows, [LastId(v.log) + 1])
    ensures MaxId(next.events) == LastId(v.log) + 1
  {
    next := ReachStep(s, w, v, Write(rows, [LastId(v.log) + 1]));
  }

  /** A poll that finds a newer event, up to its load. */
  lemma ReachLoading(s: Setup, w: World, v: World) returns (next: World)
    requires Reaches(s, w, v) && v.versions != [] && v.phase.Idle? && !Quiet(v)
    ensures Reaches(s, w, next)
    ensures next == v.(phase := Loading(false, v.pod.synced.fingerprint), pollStart := v.clock)
  {
    next := ReachStep(s, w, v, BeginPoll);
    next := ReachStep(s, w, next, ReadMax(true));
    next := ReachStep(s, w, next, CheckCursor);
    next := ReachStep(s, w, next, Decide);
  }

  /** A whole reload of a request on this pod, with its call of the hook. */
  lemma ReachReload(s: Setup, w: World, v: World, r: nat) returns (next: World)
    requires Reaches(s, w, v) && r !in v.reloads && v.versions != []
    ensures Reaches(s, w, next)
    ensures next == v.(pod := Sync(s.hash, s.pins, v.pod, v.versions[Newest(v)]),
                       shown := Newest(v), loadTime := v.clock)
  {
    var hand := ReachReloading(s, w, v, r);
    next := ReachApplied(s, w, hand, r);
    assert hand.reloads - {r} == v.reloads;
  }

  /** A loaded reload's lock section and call. */
  lemma ReachApplied(s: Setup, w: World, v: World, r: nat) returns (next: World)
    requires Reaches(s, w, v) && v.versions != []
    requires r in v.reloads && v.reloads[r].Applying? && v.reloads[r].message == None
    ensures Reaches(s, w, next)
    ensures next == v.(pod := Sync(s.hash, s.pins, v.pod, v.reloads[r].rows), reloads := v.reloads - {r},
                       shown := v.reloads[r].version, loadTime := v.reloads[r].loadedAt)
  {
    next := ReachStep(s, w, v, ApplyRows(r));
    if v.pod.hooked {
      var calling := next;
      assert calling.reloads - {r} == v.reloads - {r};
      next := ReachStep(s, w, calling, ReloadCall(r));
    }
  }

  lemma ReachReloading(s: Setup, w: World, v: World, r: nat) returns (next: World)
    requires Reaches(s, w, v) && r !in v.reloads && v.versions != []
    ensures Reaches(s, w, next)
    ensures next == v.(reloads := v.reloads[r := Applying(None, v.versions[Newest(v)], Newest(v), v.clock)])
  {
    var begun := ReachStep(s, w, v, BeginReload(r, None));
    next := ReachStep(s, w, begun, ReloadRows(r, true));
    var hand := Applying(None, v.versions[Newest(v)], Newest(v), v.clock);
    assert v.reloads[r := Starting(None)][r := hand] == v.reloads[r := hand];
  }

  /** A poll's compare, with the call of the hook if it syncs, and its cursor read. */
  lemma ReachPollEnd(s: Setup, w: World, v: World) returns (next: World)
    requires Reaches(s, w, v) && v.versions != [] && v.phase.Comparing? && !v.phase.audit
    ensures Reaches(s, w, next) && next.phase.Idle? && Quiet(next)
    ensures next.versions == v.versions && next.shown == if Drops(s, v) then v.shown else v.phase.version
  {
    next := ReachStep(s, w, v, CompareRows);
    if next.phase.PollCalling? {
      next := ReachStep(s, w, next, PollCall);
    }
    next := ReachStep(s, w, next, Cursor(true));
  }

  // ------------------------------------------------------------------- where the code falls short

  /** Committing once before a poll and once between its load and its cursor read leaves the pod one
      commit behind, with a revision check that sees nothing new: the environment is the newest table's
      only if the two commits left the same entries. */
  lemma CursorCanSkip(s: Setup, w: World, first: seq<Row>, second: seq<Row>) returns (last: World)
    requires Injective(s.hash) && Inv(s, w) && w.phase.Idle? && Loaded(first) && Loaded(second)
    ensures Reaches(s, w, last) && last.phase.Idle? && Quiet(last)
    ensures last.versions == w.versions + [first, second] && last.shown == |w.versions|
    ensures ShowsNewest(s, last) <==> Entries(first) == Entries(second)
  {
    var loaded := ReachOverwritten(s, w, first, second);
    assert !Drops(s, loaded);
    last := ReachPollEnd(s, w, loaded);
    ReachedInv(s, w, last);
    ReflectsIff(s, last, second);
  }

  /** A poll has loaded one table when the next is committed. */
  lemma ReachOverwritten(s: Setup, w: World, first: seq<Row>, second: seq<Row>) returns (last: World)
    requires Inv(s, w) && w.phase.Idle? && Loaded(first) && Loaded(second)
    ensures Reaches(s, w, last) && last.versions == w.versions + [first, second]
    ensures last.phase == Comparing(false, w.pod.synced.fingerprint, first, |w.versions|, w.clock)
    ensures last.pod == w.pod && last.shown == w.shown && last.reloads == w.reloads
  {
    ReachesItself(s, w);
    MaxIsLast(w);
    last := ReachWrite(s, w, w, first);
    last := ReachLoading(s, w, last);
    last := ReachStep(s, w, last, LoadRows(true));
    last := ReachWrite(s, w, last, second);
  }

  /** A reload that puts other rows in place while a poll runs makes the poll drop its rows, if the table
      goes back to what it was: the poll ends quietly with the pod on rows that are no longer there. */
  lemma ReloadDropsNewest(s: Setup, w: World, other: seq<Row>, r: nat) returns (last: World)
    requires Injective(s.hash) && Inv(s, w) && w.phase.Idle? && r !in w.reloads
    requires Loaded(other) && Entries(other) != Entries(w.versions[w.shown])
    ensures Reaches(s, w, last) && last.phase.Idle? && Quiet(last)
    ensures last.versions == w.versions + [other, w.versions[w.shown]]
    ensures Reflects(s.hash, s.pins, last.pod.synced, other)
    ensures !Reflects(s.hash, s.pins, last.pod.synced, last.versions[Newest(last)])
  {
    var before := w.versions[w.shown];
    var loaded := ReachDropping(s, w, other, r);
    FingerprintDeterminesLoaded(s.hash, other, before);
    assert Drops(s, loaded);
    last := ReachPollEnd(s, w, loaded);
    ReachedInv(s, w, last);
    StaysOn(s, last, other, before);
  }

  lemma StaysOn(s: Setup, w: World, rows: seq<Row>, others: seq<Row>)
    requires Inv(s, w) && w.versions[w.shown] == rows
    requires Fingerprint(s.hash, rows) != Fingerprint(s.hash, others)
    ensures Reflects(s.hash, s.pins, w.pod.synced, rows) && !Reflects(s.hash, s.pins, w.pod.synced, others)
  {
    if Reflects(s.hash, s.pins, w.pod.synced, others) {
      ReflectedFingerprint(s.hash, s.pins, w.pod.synced, others);
      assert false;
    }
  }

  /** A poll under way, a reload of other rows, and a load of the rows from before. */
  lemma ReachDropping(s: Setup, w: World, other: seq<Row>, r: nat) returns (last: World)
    requires Injective(s.hash) && Inv(s, w) && w.phase.Idle? && r !in w.reloads && Loaded(other)
    ensures var before := w.versions[w.shown];
            && Reaches(s, w, last) && last.versions == w.versions + [other, before]
            && last.phase == Comparing(false, Fingerprint(s.hash, before), before, |w.versions| + 1, w.clock)
            && last.shown == |w.versions| && last.pod.synced.fingerprint == Fingerprint(s.hash, other)
  {
    var reloaded := ReachOvertaken(s, w, other, r);
    last := ReachWrite(s, w, reloaded, w.versions[w.shown]);
    last := ReachStep(s, w, last, LoadRows(true));
  }

  /** A poll is about to load when a reload puts other rows in place. */
  lemma ReachOvertaken(s: Setup, w: World, other: seq<Row>, r: nat) returns (last: World)
    requires Inv(s, w) && w.phase.Idle? && r !in w.reloads && Loaded(other)
    ensures Reaches(s, w, last) && last.versions == w.versions + [other] && last.clock == w.clock
    ensures last.phase == Loading(false, w.pod.synced.fingerprint)
    ensures last.shown == |w.versions| && last.pod.synced.fingerprint == Fingerprint(s.hash, other)
  {
    ReachesItself(s, w);
    MaxIsLast(w);
    last := ReachWrite(s, w, w, other);
    last := ReachLoading(s, w, last);
    last := ReachReload(s, w, last, r);
  }

  /** A poll that loaded before a commit can put its older rows back over those of a reload that loaded
      after it, and ends quietly. */
  lemma PollPutsOlderBack(s: Setup, w: World, older: seq<Row>, newer: seq<Row>, r: nat)
    returns (mid: World, last: World)
    requires Injective(s.hash) && Inv(s, w) && w.phase.Idle? && r !in w.reloads
    requires Loaded(older) && Loaded(newer)
    requires Entries(older) != Entries(w.versions[w.shown]) && Entries(older) != Entries(newer)
    ensures Reaches(s, w, mid) && ShowsLastCommit(mid) && Reflects(s.hash, s.pins, mid.pod.synced, newer)
    ensures Reaches(s, mid, last) && last.phase.Idle? && Quiet(last) && last.versions == mid.versions
    ensures mid.versions == w.versions + [older, newer]
    ensures Reflects(s.hash, s.pins, last.pod.synced, older)
    ensures !Reflects(s.hash, s.pins, last.pod.synced, newer)
  {
    mid := ReachOverlap(s, w, older, newer, r);
    FingerprintDeterminesLoaded(s.hash, older, w.versions[w.shown]);
    FingerprintDeterminesLoaded(s.hash, older, newer);
    ReachesItself(s, mid);
    assert !Drops(s, mid);
    last := ReachPollEnd(s, mid, mid);
    ReachedInv(s, mid, last);
    StaysOn(s, last, older, newer);
  }

  /** A poll has loaded one table when a reload puts the next one in place. */
  lemma ReachOverlap(s: Setup, w: World, older: seq<Row>, newer: seq<Row>, r: nat) returns (mid: World)
    requires Injective(s.hash) && Inv(s, w) && w.phase.Idle? && r !in w.reloads
    requires Loaded(older) && Loaded(newer)
    ensures Reaches(s, w, mid) && Inv(s, mid) && ShowsLastCommit(mid)
    ensures mid.versions == w.versions + [older, newer]
    ensures mid.phase == Comparing(false, w.pod.synced.fingerprint, older, |w.versions|, w.clock)
  {
    var v := ReachOverwritten(s, w, older, newer);
    mid := ReachReload(s, w, v, r);
    ReachedInv(s, w, mid);
  }
}
