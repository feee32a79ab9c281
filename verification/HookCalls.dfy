/** The configuration the hook was called with last. A sync calls the hook only after its lock section, so
    the calls of two syncs that overlap can come in the other order. */
module HookCalls {
  import opened Options
  import opened Fingerprints
  import opened EnvSync
  import opened Replication
  import opened Overlaps

  /** The configuration the rows in place give. */
  function ShownConfig(s: Setup, w: World): ServerConfig
    requires w.shown < |w.versions|
  {
    HookConfig(s.pins, w.versions[w.shown])
  }

  /** The hook has what the rows in place give. */
  predicate HookAgrees(s: Setup, w: World)
    requires w.shown < |w.versions|
  {
    w.pod.handed == Some(ShownConfig(s, w))
  }

  /** So it has what any table gives that the environment reflects, in particular the newest if it does. */
  lemma HookAgreesMeans(s: Setup, w: World, rows: seq<Row>)
    requires Injective(s.hash) && Inv(s, w) && Loaded(rows) && Reflects(s.hash, s.pins, w.pod.synced, rows)
    ensures HookAgrees(s, w) <==> w.pod.handed == Some(HookConfig(s.pins, rows))
  {
    ReflectsIff(s, w, rows);
    SyncReadsEntries(s.pins, rows, w.versions[w.shown]);
  }

  // ------------------------------------------------------------------- lock sections and calls

  /** The step is the lock section of a sync. */
  ghost predicate Locks(s: Setup, w: World, a: Action)
    requires Enabled(w, a)
  {
    a.ApplyRows? || (a.CompareRows? && Syncs(s, w))
  }

  predicate Calls(a: Action) {
    a.PollCall? || a.ReloadCall?
  }

  ghost function CalledRows(w: World, a: Action): seq<Row>
    requires Enabled(w, a) && Calls(a)
  {
    if a.ReloadCall? then w.reloads[a.r].rows else w.phase.rows
  }

  lemma LockStepShows(s: Setup, w: World, a: Action)
    requires HandsInv(w) && w.versions != [] && Enabled(w, a) && Locks(s, w, a)
    ensures var v := Next(s, w, a); v.shown < |v.versions| && v.versions[v.shown] == PlacedRows(w, a)
  {
  }

  /** Skipped rows give the configuration of the rows in place. */
  lemma SkippedConfig(s: Setup, w: World)
    requires Injective(s.hash) && Inv(s, w) && w.phase.Comparing? && !Syncs(s, w) && !Drops(s, w)
    ensures HookConfig(s.pins, w.phase.rows) == ShownConfig(s, w)
  {
    SkipRefinesReapply(s.hash, s.pins, w.pod.synced, w.versions[w.shown], w.phase.rows);
  }

  lemma SkipStepShows(s: Setup, w: World)
    requires Inv(s, w) && w.phase.Comparing? && !Syncs(s, w)
    ensures var v := DoCompare(s, w);
            && v.versions == w.versions && v.pod == w.pod && v.shown < |v.versions|
            && v.versions[v.shown] == if Drops(s, w) then w.versions[w.shown] else w.phase.rows
  {
  }

  lemma NoLockKeepsConfig(s: Setup, w: World, a: Action)
    requires Injective(s.hash) && Inv(s, w) && Enabled(w, a) && !Locks(s, w, a)
    ensures var v := Next(s, w, a); v.shown < |v.versions| && ShownConfig(s, v) == ShownConfig(s, w)
  {
    if a.CompareRows? {
      SkipStepShows(s, w);
      if !Drops(s, w) { SkippedConfig(s, w); }
    } else {
      OtherStepsKeepShown(s, w, a);
      StepExtends(s, w, a, Next(s, w, a));
    }
  }

  lemma NoCallKeepsHanded(s: Setup, w: World, a: Action)
    requires Enabled(w, a) && w.versions != [] && !Calls(a)
    ensures Next(s, w, a).pod.handed == w.pod.handed
  {
  }

  lemma CallHands(s: Setup, w: World, a: Action)
    requires Enabled(w, a) && w.versions != [] && Calls(a)
    ensures Next(s, w, a).pod.handed == Some(HookConfig(s.pins, CalledRows(w, a)))
  {
  }

  // --------------------------------------------------- which configuration the hook ends up with

  ghost predicate NoLock(s: Setup, ws: seq<World>, acts: seq<Action>, i: nat, j: nat)
    requires |ws| == |acts| + 1
  {
    forall k {:trigger acts[k]} :: i <= k < j && k < |acts| ==> Enabled(ws[k], acts[k]) && !Locks(s, ws[k], acts[k])
  }

  predicate NoCall(acts: seq<Action>, i: nat, j: nat) {
    forall k {:trigger acts[k]} :: i <= k < j && k < |acts| ==> !Calls(acts[k])
  }

  lemma RunNoLockStep(s: Setup, ws: seq<World>, acts: seq<Action>, i: nat)
    requires Injective(s.hash) && Run(s, ws, acts) && i < |acts| && Enabled(ws[i], acts[i])
    requires !Locks(s, ws[i], acts[i])
    ensures SameConfig(s, ws[i], ws[i + 1])
  {
    RunStep(s, ws, acts, i);
    NoLockKeepsConfig(s, ws[i], acts[i]);
  }

  lemma RunShownInRange(s: Setup, ws: seq<World>, acts: seq<Action>, i: nat)
    requires Injective(s.hash) && Run(s, ws, acts) && i < |ws|
    ensures ws[i].shown < |ws[i].versions|
  {
    RunKeepsInv(s, ws, acts, i);
  }

  ghost predicate SameConfig(s: Setup, w: World, v: World) {
    w.shown < |w.versions| && v.shown < |v.versions| && ShownConfig(s, v) == ShownConfig(s, w)
  }

  ghost predicate StepKeepsConfig(s: Setup, ws: seq<World>, k: nat) {
    k + 1 < |ws| && SameConfig(s, ws[k], ws[k + 1])
  }

  lemma {:induction false} ConfigChain(s: Setup, ws: seq<World>, i: nat, j: nat)
    requires i <= j < |ws| && ws[i].shown < |ws[i].versions|
    requires forall k :: i <= k < j ==> StepKeepsConfig(s, ws, k)
    ensures SameConfig(s, ws[i], ws[j])
  {
    if i < j {
      ConfigChain(s, ws, i, j - 1);
      assert StepKeepsConfig(s, ws, j - 1);
    }
  }

  lemma ConfigStays(s: Setup, ws: seq<World>, acts: seq<Action>, i: nat, j: nat)
    requires Injective(s.hash) && Run(s, ws, acts) && i <= j < |ws| && NoLock(s, ws, acts, i, j)
    ensures SameConfig(s, ws[i], ws[j])
  {
    RunShownInRange(s, ws, acts, i);
    forall k | i <= k < j
      ensures StepKeepsConfig(s, ws, k)
    {
      var a := acts[k];
      RunNoLockStep(s, ws, acts, k);
    }
    ConfigChain(s, ws, i, j);
  }

  lemma RunNoCallStep(s: Setup, ws: seq<World>, acts: seq<Action>, i: nat)
    requires Path(s, ws, acts) && i < |acts| && !Calls(acts[i])
    ensures ws[i + 1].pod.handed == ws[i].pod.handed
  {
    var a := acts[i];
    NoCallKeepsHanded(s, ws[i], a);
  }

  lemma {:induction false} HandedStays(s: Setup, ws: seq<World>, acts: seq<Action>, i: nat, j: nat)
    requires Path(s, ws, acts) && i <= j < |ws| && NoCall(acts, i, j)
    ensures ws[j].pod.handed == ws[i].pod.handed
  {
    if i < j {
      var a := acts[j - 1];
      HandedStays(s, ws, acts, i, j - 1);
      RunNoCallStep(s, ws, acts, j - 1);
    }
  }

  lemma RunCallHands(s: Setup, ws: seq<World>, acts: seq<Action>, c: nat)
    requires Path(s, ws, acts) && c < |acts| && Enabled(ws[c], acts[c]) && Calls(acts[c])
    ensures ws[c + 1].pod.handed == Some(HookConfig(s.pins, CalledRows(ws[c], acts[c])))
  {
    var a := acts[c];
    CallHands(s, ws[c], a);
  }

  lemma RunLockShows(s: Setup, ws: seq<World>, acts: seq<Action>, k: nat)
    requires Injective(s.hash) && Run(s, ws, acts) && k < |acts|
    requires Enabled(ws[k], acts[k]) && Locks(s, ws[k], acts[k])
    ensures ws[k + 1].shown < |ws[k + 1].versions|
    ensures ShownConfig(s, ws[k + 1]) == HookConfig(s.pins, PlacedRows(ws[k], acts[k]))
  {
    RunStep(s, ws, acts, k);
    LockStepShows(s, ws[k], acts[k]);
  }

  lemma LastLockShows(s: Setup, ws: seq<World>, acts: seq<Action>, k: nat, j: nat)
    requires Injective(s.hash) && Run(s, ws, acts) && k < j < |ws|
    requires Enabled(ws[k], acts[k]) && Locks(s, ws[k], acts[k]) && NoLock(s, ws, acts, k + 1, j)
    ensures ws[j].shown < |ws[j].versions|
    ensures ShownConfig(s, ws[j]) == HookConfig(s.pins, PlacedRows(ws[k], acts[k]))
  {
    RunLockShows(s, ws, acts, k);
    ConfigStays(s, ws, acts, k + 1, j);
  }

  lemma LastCallHands(s: Setup, ws: seq<World>, acts: seq<Action>, c: nat, j: nat)
    requires Path(s, ws, acts) && c < j < |ws|
    requires Enabled(ws[c], acts[c]) && Calls(acts[c]) && NoCall(acts, c + 1, j)
    ensures ws[j].pod.handed == Some(HookConfig(s.pins, CalledRows(ws[c], acts[c])))
  {
    RunCallHands(s, ws, acts, c);
    HandedStays(s, ws, acts, c + 1, j);
  }

  /** At any moment the hook agrees with the rows in place exactly if the sync whose call came last gave the
      configuration of the sync whose lock section came last. */
  lemma HookAgreesIff(s: Setup, ws: seq<World>, acts: seq<Action>, k: nat, c: nat, j: nat)
    requires Injective(s.hash) && Run(s, ws, acts) && k < j < |ws| && c < j
    requires Enabled(ws[k], acts[k]) && Locks(s, ws[k], acts[k]) && NoLock(s, ws, acts, k + 1, j)
    requires Enabled(ws[c], acts[c]) && Calls(acts[c]) && NoCall(acts, c + 1, j)
    ensures ws[j].shown < |ws[j].versions|
    ensures HookAgrees(s, ws[j]) <==>
            HookConfig(s.pins, CalledRows(ws[c], acts[c])) == HookConfig(s.pins, PlacedRows(ws[k], acts[k]))
  {
    LastLockShows(s, ws, acts, k, j);
    LastCallHands(s, ws, acts, c, j);
  }

  // ------------------------------------------------------------- syncs that do not overlap a call

  predicate CallDue(reload: Reload) {
    reload.ReloadCalling?
  }

  ghost predicate NoCallDue(w: World) {
    !w.phase.PollCalling? && forall r :: r in w.reloads ==> !CallDue(w.reloads[r])
  }

  /** Calls that are due will give the configuration of the rows in place; if none is, the hook has it. */
  ghost predicate HookInv(s: Setup, w: World) {
    && w.pod.hooked && w.shown < |w.versions|
    && (w.phase.PollCalling? ==> HookConfig(s.pins, w.phase.rows) == ShownConfig(s, w))
    && (forall r :: r in w.reloads && CallDue(w.reloads[r]) ==>
                      HookConfig(s.pins, w.reloads[r].rows) == ShownConfig(s, w))
    && (NoCallDue(w) ==> HookAgrees(s, w))
  }

  /** A lock section with no call due, such as that of the reload at boot, makes this true whatever the hook
      had before. */
  lemma LockKeepsHook(s: Setup, w: World, a: Action)
    requires HandsInv(w) && w.versions != [] && Enabled(w, a) && Locks(s, w, a) && NoCallDue(w) && w.pod.hooked
    ensures HookInv(s, Next(s, w, a))
  {
    var v := Next(s, w, a);
    LockStepShows(s, w, a);
    if a.ApplyRows? {
      assert a.r in v.reloads && CallDue(v.reloads[a.r]);
    }
  }

  lemma CallKeepsHook(s: Setup, w: World, a: Action)
    requires Inv(s, w) && Enabled(w, a) && Calls(a) && HookInv(s, w)
    ensures HookInv(s, Next(s, w, a))
  {
    var v := Next(s, w, a);
    assert v.shown == w.shown && v.versions == w.versions;
    CallHands(s, w, a);
    if a.ReloadCall? {
      assert CallDue(w.reloads[a.r]);
    }
  }

  /** Any other step keeps the calls that are due. */
  lemma OtherStepKeepsDue(s: Setup, w: World, a: Action)
    requires Enabled(w, a) && w.versions != [] && !Locks(s, w, a) && !Calls(a)
    ensures var v := Next(s, w, a);
            && (v.phase.PollCalling? <==> w.phase.PollCalling?) && (w.phase.PollCalling? ==> v.phase == w.phase)
            && (forall r :: r in v.reloads && CallDue(v.reloads[r]) ==> r in w.reloads && v.reloads[r] == w.reloads[r])
            && (forall r :: r in w.reloads && CallDue(w.reloads[r]) ==> r in v.reloads && v.reloads[r] == w.reloads[r])
            && (w.pod.hooked ==> v.pod.hooked)
  {
  }

  lemma OtherStepKeepsHook(s: Setup, w: World, a: Action)
    requires Injective(s.hash) && Inv(s, w) && Enabled(w, a) && !Locks(s, w, a) && !Calls(a) && HookInv(s, w)
    ensures HookInv(s, Next(s, w, a))
  {
    OtherStepKeepsDue(s, w, a);
    NoLockKeepsConfig(s, w, a);
    NoCallKeepsHanded(s, w, a);
    HookInvMoves(s, w, Next(s, w, a));
  }

  lemma HookInvMoves(s: Setup, w: World, v: World)
    requires HookInv(s, w) && v.pod.hooked && v.pod.handed == w.pod.handed
    requires v.shown < |v.versions| && ShownConfig(s, v) == ShownConfig(s, w)
    requires (v.phase.PollCalling? <==> w.phase.PollCalling?) && (w.phase.PollCalling? ==> v.phase == w.phase)
    requires forall r :: r in v.reloads && CallDue(v.reloads[r]) ==> r in w.reloads && v.reloads[r] == w.reloads[r]
    requires forall r :: r in w.reloads && CallDue(w.reloads[r]) ==> r in v.reloads && v.reloads[r] == w.reloads[r]
    ensures HookInv(s, v)
  {
    if NoCallDue(v) {
      assert NoCallDue(w);
    }
  }

  lemma HookStep(s: Setup, w: World, a: Action)
    requires Injective(s.hash) && Inv(s, w) && Enabled(w, a) && HookInv(s, w)
    requires Locks(s, w, a) ==> NoCallDue(w)
    ensures HookInv(s, Next(s, w, a))
  {
    if Locks(s, w, a) {
      LockKeepsHook(s, w, a);
    } else if Calls(a) {
      CallKeepsHook(s, w, a);
    } else {
      OtherStepKeepsHook(s, w, a);
    }
  }

  /** No lock section runs while another sync's call is due. */
  ghost predicate Orderly(s: Setup, ws: seq<World>, acts: seq<Action>) {
    |ws| == |acts| + 1
    && forall k {:trigger acts[k]} :: 0 <= k < |acts| && Enabled(ws[k], acts[k]) && Locks(s, ws[k], acts[k]) ==>
                                        NoCallDue(ws[k])
  }

  lemma RunHookStep(s: Setup, ws: seq<World>, acts: seq<Action>, i: nat)
    requires Injective(s.hash) && Run(s, ws, acts) && Orderly(s, ws, acts) && i < |acts| && HookInv(s, ws[i])
    ensures HookInv(s, ws[i + 1])
  {
    RunStep(s, ws, acts, i);
    HookStep(s, ws[i], acts[i]);
  }

  lemma {:induction false} RunKeepsHook(s: Setup, ws: seq<World>, acts: seq<Action>, i: nat)
    requires Injective(s.hash) && Run(s, ws, acts) && Orderly(s, ws, acts) && HookInv(s, ws[0]) && i < |ws|
    ensures HookInv(s, ws[i])
  {
    if i > 0 {
      RunKeepsHook(s, ws, acts, i - 1);
      RunHookStep(s, ws, acts, i - 1);
    }
  }

  /** In every orderly run the hook agrees with the rows in place whenever no call is due. */
  lemma OrderlyHookAgrees(s: Setup, ws: seq<World>, acts: seq<Action>, i: nat)
    requires Injective(s.hash) && Run(s, ws, acts) && Orderly(s, ws, acts) && i < |ws|
    requires HookInv(s, ws[0]) && NoCallDue(ws[i])
    ensures ws[i].shown < |ws[i].versions| && HookAgrees(s, ws[i])
  {
    RunKeepsHook(s, ws, acts, i);
  }

  // ------------------------------------------------------------------- where the code falls short

  /** Two requests reload: the first loads one table and the second the next; the lock sections come in
      that order and the calls in the other. All calls are made, the environment is the newest table's, and
      the hook has the older one's configuration. */
  lemma OlderConfigHandedLast(s: Setup, w: World, older: seq<Row>, newer: seq<Row>, r1: nat, r2: nat)
    returns (last: World)
    requires Injective(s.hash) && Inv(s, w) && w.phase.Idle? && w.pod.hooked && NoCallDue(w)
    requires r1 !in w.reloads && r2 !in w.reloads && r1 != r2 && Loaded(older) && Loaded(newer)
    ensures Reaches(s, w, last) && last.phase.Idle? && NoCallDue(last)
    ensures last.versions == w.versions + [older, newer] && ShowsNewest(s, last) && Resting(s, last)
    ensures last.pod.handed == Some(HookConfig(s.pins, older))
    ensures last.shown < |last.versions|
    ensures HookAgrees(s, last) <==> HookConfig(s.pins, older) == HookConfig(s.pins, newer)
  {
    last := ReachHandedBack(s, w, older, newer, r1, r2);
    ReachedInv(s, w, last);
    ReflectsIff(s, last, newer);
  }

  lemma ReachHandedBack(s: Setup, w: World, older: seq<Row>, newer: seq<Row>, r1: nat, r2: nat)
    returns (last: World)
    requires Inv(s, w) && w.phase.Idle? && w.pod.hooked
    requires r1 !in w.reloads && r2 !in w.reloads && r1 != r2 && Loaded(older) && Loaded(newer)
    ensures Reaches(s, w, last) && last.phase.Idle? && last.reloads == w.reloads
    ensures last.versions == w.versions + [older, newer] && ShowsLastCommit(last)
    ensures last.pod.handed == Some(HookConfig(s.pins, older))
  {
    var due := ReachFirstDue(s, w, older, r1);
    var v := ReachWrite(s, w, due, newer);
    v := ReachReload(s, w, v, r2);
    assert v.reloads == w.reloads[r1 := ReloadCalling(None, older)];
    last := ReachStep(s, w, v, ReloadCall(r1));
    assert last.reloads == w.reloads;
  }

  /** A reload of a new table whose call is still due. */
  lemma ReachFirstDue(s: Setup, w: World, rows: seq<Row>, r: nat) returns (v: World)
    requires Inv(s, w) && w.phase.Idle? && w.pod.hooked && r !in w.reloads && Loaded(rows)
    ensures Reaches(s, w, v) && v.versions == w.versions + [rows] && v.phase == w.phase && v.pod.hooked
    ensures v.reloads == w.reloads[r := ReloadCalling(None, rows)]
  {
    ReachesItself(s, w);
    v := ReachWrite(s, w, w, rows);
    var loaded := ReachReloading(s, w, v, r);
    v := ReachStep(s, w, loaded, ApplyRows(r));
    var hand := loaded.reloads[r];
    assert w.reloads[r := hand][r := ReloadCalling(None, rows)] == w.reloads[r := ReloadCalling(None, rows)];
  }

  /** Two tables with a PORT each give different configurations exactly if the ports differ. */
  lemma PortConfigs(p: string, q: string)
    ensures HookConfig(map[], [Row("PORT", p, false, true)]) == HookConfig(map[], [Row("PORT", q, false, true)])
            <==> p == q
  {
    NormalForm("PORT");
    OneEnabledRow(map[], Row("PORT", p, false, true));
    OneEnabledRow(map[], Row("PORT", q, false, true));
  }

  // ------------------------------------------------------------------------- no poll repairs it

  /** What a poll sees is in place, and what it has in hand is the newest table, which is in place too. */
  ghost predicate Resting(s: Setup, w: World) {
    w.versions != [] && ShowsNewest(s, w) && NoCallDue(w) && PollRests(w)
  }

  ghost predicate PollRests(w: World)
    requires w.versions != []
  {
    && (w.phase.Loading? || w.phase.Comparing? ==> w.phase.seen == w.pod.synced.fingerprint)
    && (w.phase.Comparing? ==> w.phase.rows == w.versions[Newest(w)])
  }

  predicate Disturbs(a: Action) {
    a.Write? || a.ApplyRows?
  }

  lemma RestingCompare(s: Setup, w: World)
    requires Resting(s, w) && w.phase.Comparing?
    ensures !Syncs(s, w) && DoCompare(s, w).pod == w.pod
  {
    ReflectedFingerprint(s.hash, s.pins, w.pod.synced, w.versions[Newest(w)]);
  }

  lemma QuietStepRests(s: Setup, w: World, a: Action)
    requires Enabled(w, a) && w.versions != [] && !Disturbs(a) && !a.CompareRows? && PollRests(w)
    ensures var v := Next(s, w, a);
            v.versions == w.versions && v.pod.synced == w.pod.synced && PollRests(v)
  {
  }

  lemma RestingStep(s: Setup, w: World, a: Action)
    requires Resting(s, w) && Enabled(w, a) && !Disturbs(a)
    ensures Resting(s, Next(s, w, a)) && Next(s, w, a).pod.handed == w.pod.handed
  {
    if a.CompareRows? {
      RestingCompare(s, w);
    } else {
      assert !Locks(s, w, a) && !Calls(a) by { RestsWithoutCalls(w, a); }
      QuietStepRests(s, w, a);
      OtherStepKeepsDue(s, w, a);
      NoCallKeepsHanded(s, w, a);
    }
  }

  lemma RestsWithoutCalls(w: World, a: Action)
    requires NoCallDue(w) && Enabled(w, a)
    ensures !Calls(a)
  {
  }

  lemma RunRestingStep(s: Setup, ws: seq<World>, acts: seq<Action>, i: nat)
    requires Injective(s.hash) && Run(s, ws, acts) && i < |acts| && Resting(s, ws[i]) && !Disturbs(acts[i])
    ensures Resting(s, ws[i + 1]) && ws[i + 1].pod.handed == ws[i].pod.handed
  {
    RunStep(s, ws, acts, i);
    RestingStep(s, ws[i], acts[i]);
  }

  /** Once the environment is the newest table's and all calls are made, no number of polls or audits calls
      the hook again, whatever it has: only another commit or reload can. */
  lemma {:induction false} NoPollRepairsHook(s: Setup, ws: seq<World>, acts: seq<Action>, i: nat)
    requires Injective(s.hash) && Run(s, ws, acts) && i < |ws| && Resting(s, ws[0])
    requires forall k :: 0 <= k < i ==> !Disturbs(acts[k])
    ensures Resting(s, ws[i]) && ws[i].pod.handed == ws[0].pod.handed
  {
    if i > 0 {
      NoPollRepairsHook(s, ws, acts, i - 1);
      RunRestingStep(s, ws, acts, i - 1);
    }
  }
}
