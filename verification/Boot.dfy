/** What a pod looks like between its creation and the reload that follows: the first sync may fail or
    miss a commit, and the watcher's fingerprint then makes polls skip the rows it stands for. */
module Boot {
  import opened Options
  import opened Fingerprints
  import opened EnvSync
  import opened Environments

  // ------------------------------------------------------------------ when a sync has nothing to do

  ghost predicate PinsInPlace(pins: Pins, env: Environ) {
    forall n :: n in pins && Settable(n, pins[n]) ==> Lookup(env, n) == Some(pins[n])
  }

  ghost predicate DisabledUnset(pins: Pins, env: Environ, rows: seq<Row>) {
    forall r :: r in rows && Counts(pins, r) && r.isDisabled ==> NormalizeName(r.name) !in env
  }

  /** Every variable the rows turn on, to a value the system accepts, has that value. */
  ghost predicate EnabledSet(pins: Pins, env: Environ, rows: seq<Row>) {
    forall n :: TurnsOn(pins, rows, n) && n in Desired(pins, rows) && Settable(n, Desired(pins, rows)[n]) ==>
                  Lookup(env, n) == Some(Desired(pins, rows)[n])
  }

  /** The managed keys are the names of the counted enabled rows. */
  ghost predicate ManagedAreEnabled(pins: Pins, managed: set<string>, rows: seq<Row>) {
    forall n :: n in managed <==> exists r :: r in rows && Enables(pins, r, n)
  }

  ghost predicate InPlace(pins: Pins, st: Synced, rows: seq<Row>) {
    && PinsInPlace(pins, st.env) && DisabledUnset(pins, st.env, rows)
    && EnabledSet(pins, st.env, rows) && ManagedAreEnabled(pins, st.managed, rows)
  }

  lemma RowNamesAreUnpinned(pins: Pins, rows: seq<Row>, n: string)
    ensures n in Desired(pins, rows) || n in Disabled(pins, rows) ==> n !in pins && NormalizeName(n) == n
  {
    DesiredMeans(pins, rows, n);
    DisabledMeans(pins, rows, n);
    if n in Desired(pins, rows) {
      var r :| r in rows && Enables(pins, r, n);
      NormalizeIdempotent(r.name);
    } else if n in Disabled(pins, rows) {
      var r :| r in rows && Disables(pins, r, n);
      NormalizeIdempotent(r.name);
    }
  }

  lemma ManagedMeans(pins: Pins, managed: set<string>, rows: seq<Row>)
    ensures ManagedAreEnabled(pins, managed, rows) <==> managed == Desired(pins, rows).Keys
  {
    forall n
      ensures n in Desired(pins, rows) <==> exists r :: r in rows && Enables(pins, r, n)
    {
      DesiredMeans(pins, rows, n);
    }
  }

  lemma DisabledUnsetMeans(pins: Pins, env: Environ, rows: seq<Row>)
    ensures DisabledUnset(pins, env, rows) <==> forall n :: n in Disabled(pins, rows) ==> n !in env
  {
    forall n
      ensures n in Disabled(pins, rows) <==> exists r :: r in rows && Disables(pins, r, n)
    {
      DisabledMeans(pins, rows, n);
    }
    if forall n :: n in Disabled(pins, rows) ==> n !in env {
      forall r | r in rows && Counts(pins, r) && r.isDisabled
        ensures NormalizeName(r.name) !in env
      {
        assert Disables(pins, r, NormalizeName(r.name));
      }
    }
  }

  lemma TurnsOnMeans(pins: Pins, rows: seq<Row>, n: string)
    ensures TurnsOn(pins, rows, n) <==> n in Desired(pins, rows) && n !in Disabled(pins, rows)
  {
    DesiredMeans(pins, rows, n);
    DisabledMeans(pins, rows, n);
  }

  /** The value a sync leaves equals the value there before. */
  ghost predicate Unmoved(pins: Pins, st: Synced, rows: seq<Row>, n: string) {
    After(pins, st.env, st.managed, rows, n) == Lookup(st.env, n)
  }

  lemma UnmovedIff(pins: Pins, st: Synced, rows: seq<Row>)
    ensures SyncedEnviron(pins, st.env, st.managed, rows) == st.env <==> forall n :: Unmoved(pins, st, rows, n)
  {
    var r := SyncedEnviron(pins, st.env, st.managed, rows);
    assert forall n :: Lookup(r, n) == After(pins, st.env, st.managed, rows, n);
    if forall n :: Unmoved(pins, st, rows, n) {
      forall n
        ensures Lookup(r, n) == Lookup(st.env, n)
      {
        assert Unmoved(pins, st, rows, n);
      }
      SameLookups(r, st.env);
    }
  }

  lemma InPlaceIsUnmoved(pins: Pins, st: Synced, rows: seq<Row>, n: string)
    requires InPlace(pins, st, rows)
    ensures Unmoved(pins, st, rows, n)
  {
    ManagedMeans(pins, st.managed, rows);
    DisabledUnsetMeans(pins, st.env, rows);
    TurnsOnMeans(pins, rows, n);
  }

  lemma UnmovedIsInPlace(pins: Pins, st: Synced, rows: seq<Row>)
    requires st.managed == Desired(pins, rows).Keys && forall n :: Unmoved(pins, st, rows, n)
    ensures InPlace(pins, st, rows)
  {
    ManagedMeans(pins, st.managed, rows);
    DisabledUnsetMeans(pins, st.env, rows);
    forall n | n in pins && Settable(n, pins[n])
      ensures Lookup(st.env, n) == Some(pins[n])
    {
      assert Unmoved(pins, st, rows, n);
    }
    forall n | n in Disabled(pins, rows)
      ensures n !in st.env
    {
      RowNamesAreUnpinned(pins, rows, n);
      assert Unmoved(pins, st, rows, n);
    }
    forall n | TurnsOn(pins, rows, n) && n in Desired(pins, rows) && Settable(n, Desired(pins, rows)[n])
      ensures Lookup(st.env, n) == Some(Desired(pins, rows)[n])
    {
      TurnsOnMeans(pins, rows, n);
      RowNamesAreUnpinned(pins, rows, n);
      assert Unmoved(pins, st, rows, n);
    }
  }

  /** A sync would change neither environment nor managed keys exactly if pins and enabled variables have
      their values, disabled ones are unset, and the managed keys are the enabled names. */
  lemma NothingToSyncIff(pins: Pins, st: Synced, rows: seq<Row>)
    ensures SyncedEnviron(pins, st.env, st.managed, rows) == st.env && Desired(pins, rows).Keys == st.managed
            <==> InPlace(pins, st, rows)
  {
    UnmovedIff(pins, st, rows);
    ManagedMeans(pins, st.managed, rows);
    if InPlace(pins, st, rows) {
      forall n
        ensures Unmoved(pins, st, rows, n)
      {
        InPlaceIsUnmoved(pins, st, rows, n);
      }
    }
    if st.managed == Desired(pins, rows).Keys && forall n :: Unmoved(pins, st, rows, n) {
      UnmovedIsInPlace(pins, st, rows);
    }
  }

  // ------------------------------------------------------------------------------ polls after boot

  /** What the poll after boot sees and when. */
  datatype FirstPoll = FirstPoll(now: nat, revision: Result<nat>, done: nat, newest: Result<nat>)

  function PolledFirst(hash: Hash, pins: Pins, booted: Pod, rows: seq<Row>, p: FirstPoll): Pod {
    Polled(hash, pins, booted, p.now, p.revision, Ok(rows), p.done, p.newest)
  }

  lemma FirstPollSkips(hash: Hash, pins: Pins, booted: Pod, rows: seq<Row>, p: FirstPoll)
    requires booted.synced.fingerprint == Fingerprint(hash, rows)
    ensures PolledFirst(hash, pins, booted, rows, p).synced == booted.synced
  {
  }

  /** Whatever the first sync did, no poll that loads the rows of the watcher's fingerprint applies them.
      They are in place exactly if pins and enabled variables happen to have their values already,
      disabled ones to be unset, and the managed keys to be right. No configuration has been handed out,
      for no hook is registered yet. */
  lemma BootAgreesIff(hash: Hash, pins: Pins, environ: Environ, init: Result<seq<Row>>, rows: seq<Row>,
                      maxId: Result<nat>, boot: nat, p: FirstPoll)
    ensures var booted := Booted(hash, pins, environ, init, Ok(rows), maxId, boot);
            var polled := PolledFirst(hash, pins, booted, rows, p);
            && polled.synced == booted.synced && polled.handed == None
            && (Reflects(hash, pins, polled.synced, rows) <==> InPlace(pins, booted.synced, rows))
  {
    var booted := Booted(hash, pins, environ, init, Ok(rows), maxId, boot);
    FirstPollSkips(hash, pins, booted, rows, p);
    NothingToSyncIff(pins, booted.synced, rows);
  }

  /** If the first sync loaded the very rows the watcher did, all is well. */
  lemma SameLoadsAgree(hash: Hash, pins: Pins, environ: Environ, rows: seq<Row>, maxId: Result<nat>,
                       boot: nat, p: FirstPoll)
    ensures var booted := Booted(hash, pins, environ, Ok(rows), Ok(rows), maxId, boot);
            Reflects(hash, pins, PolledFirst(hash, pins, booted, rows, p).synced, rows)
  {
    var booted := Booted(hash, pins, environ, Ok(rows), Ok(rows), maxId, boot);
    FirstPollSkips(hash, pins, booted, rows, p);
    ApplyReflects(hash, pins, Blank(environ).synced, rows);
  }

  // ----------------------------------------------------------------------- when the first sync fails

  ghost predicate NothingEnabled(pins: Pins, rows: seq<Row>) {
    forall r :: r in rows && Counts(pins, r) ==> r.isDisabled
  }

  lemma NothingEnabledMeans(pins: Pins, rows: seq<Row>)
    ensures NothingEnabled(pins, rows) <==> Desired(pins, rows) == map[]
  {
    forall n
      ensures n in Desired(pins, rows) <==> exists r :: r in rows && Enables(pins, r, n)
    {
      DesiredMeans(pins, rows, n);
    }
    if Desired(pins, rows) == map[] {
      forall r | r in rows && Counts(pins, r)
        ensures r.isDisabled
      {
        assert NormalizeName(r.name) !in Desired(pins, rows);
      }
    }
    if NothingEnabled(pins, rows) {
      assert forall n :: n !in Desired(pins, rows);
    }
  }

  /** After a failed first sync, polls that load the watcher's rows leave the pod in the state a sync would
      give exactly if no counted row is enabled, every disabled variable is unset, and every settable pin
      has its value already. */
  lemma FailedInitAgreesIff(hash: Hash, pins: Pins, environ: Environ, rows: seq<Row>, maxId: Result<nat>,
                            boot: nat, p: FirstPoll)
    ensures var booted := Booted(hash, pins, environ, Err, Ok(rows), maxId, boot);
            var polled := PolledFirst(hash, pins, booted, rows, p);
            && polled.synced.env == environ
            && (Reflects(hash, pins, polled.synced, rows) <==>
                NothingEnabled(pins, rows) && DisabledUnset(pins, environ, rows) && PinsInPlace(pins, environ))
  {
    BootAgreesIff(hash, pins, environ, Err, rows, maxId, boot, p);
    ManagedMeans(pins, {}, rows);
    NothingEnabledMeans(pins, rows);
  }

  /** It happens: the first sync fails, or a commit lands between the two loads, and polls then leave an
      enabled variable unset. */
  lemma EnabledStaysUnset(hash: Hash, init: Result<seq<Row>>, value: string, maxId: Result<nat>,
                          boot: nat, p: FirstPoll)
    requires init == Err || init == Ok([])
    ensures var rows := [Row("A", value, false, false)];
            var booted := Booted(hash, map[], map[], init, Ok(rows), maxId, boot);
            var polled := PolledFirst(hash, map[], booted, rows, p);
            TurnsOn(map[], rows, "A") && "A" !in polled.synced.env
  {
    var rows := [Row("A", value, false, false)];
    var booted := Booted(hash, map[], map[], init, Ok(rows), maxId, boot);
    NormalForm("A");
    OneEnabledRow(map[], rows[0]);
    FirstPollSkips(hash, map[], booted, rows, p);
    assert After(map[], map[], {}, [], "A") == None;
    assert Lookup(SyncedEnviron(map[], map[], {}, []), "A") == None;
  }
}
