/** The bounded pool that probes installed software on the host: one producer, several workers, one
    cancellation, every schedule. */
module ProbePool {
  import opened Selections

  datatype Outcome = Unset | Cancelled | Probed(present: bool)

  /** A worker is free, has taken an index but not yet looked at the context, or is probing. */
  datatype Worker = Waiting | Took(index: nat) | Probing(index: nat)

  /** `next` is the first index not yet handed out; `probes` lists the probes made, in order. */
  datatype Pool = Pool(
    workers: map<nat, Worker>, next: nat, closed: bool, cancelled: bool,
    outcomes: seq<Outcome>, probes: seq<nat>)

  datatype Action =
    | Cancel
    | Hand(worker: nat)
    | Abort
    | Close
    | Look(worker: nat)
    | Finish(worker: nat)

  ghost predicate Enabled(p: Pool, a: Action) {
    match a
    case Cancel => true
    case Hand(k) => !p.closed && p.next < |p.outcomes| && k in p.workers && p.workers[k].Waiting?
    case Abort => !p.closed && p.next < |p.outcomes| && p.cancelled
    case Close => !p.closed && p.next == |p.outcomes|
    case Look(k) => k in p.workers && p.workers[k].Took? && p.workers[k].index < |p.outcomes|
    case Finish(k) => k in p.workers && p.workers[k].Probing? && p.workers[k].index < |p.outcomes|
  }

  /** One step; `host[i]` is what probing target i finds. */
  function Next(host: seq<bool>, p: Pool, a: Action): Pool
    requires Enabled(p, a) && |host| == |p.outcomes|
  {
    match a
    case Cancel => p.(cancelled := true)
    case Hand(k) => p.(workers := p.workers[k := Took(p.next)], next := p.next + 1)
    case Abort => p.(closed := true)
    case Close => p.(closed := true)
    case Look(k) =>
      var i := p.workers[k].index;
      if p.cancelled then p.(workers := p.workers[k := Waiting], outcomes := p.outcomes[i := Cancelled])
      else p.(workers := p.workers[k := Probing(i)])
    case Finish(k) =>
      var i := p.workers[k].index;
      p.(workers := p.workers[k := Waiting], outcomes := p.outcomes[i := Probed(host[i])], probes := p.probes + [i])
  }

  /** All workers are back and no job will come: the wait returns. */
  ghost predicate Done(p: Pool) {
    p.closed && forall k :: k in p.workers ==> p.workers[k].Waiting?
  }

  /** Reconcile gives up if the context has been cancelled by the time the wait returns. */
  predicate Fails(p: Pool) {
    p.cancelled
  }

  ghost predicate Holds(p: Pool, k: nat, i: nat) {
    k in p.workers && !p.workers[k].Waiting? && p.workers[k].index == i
  }

  ghost predicate Held(p: Pool, i: nat) {
    exists k :: Holds(p, k, i)
  }

  /** Every index handed out is in exactly one worker's hands or has its outcome; an index was
      probed exactly if its outcome is a probe's; nothing is marked cancelled before the context is. */
  ghost predicate Inv(host: seq<bool>, p: Pool) {
    && |host| == |p.outcomes| && p.next <= |p.outcomes|
    && (p.closed && !p.cancelled ==> p.next == |p.outcomes|)
    && (forall k: nat, i: nat :: Holds(p, k, i) ==> i < p.next && p.outcomes[i].Unset?)
    && (forall k: nat, l: nat, i: nat :: Holds(p, k, i) && Holds(p, l, i) ==> k == l)
    && (forall i :: 0 <= i < p.next && p.outcomes[i].Unset? ==> Held(p, i))
    && (forall i :: p.next <= i < |p.outcomes| ==> p.outcomes[i].Unset?)
    && (forall i :: 0 <= i < |p.outcomes| && p.outcomes[i].Probed? ==> p.outcomes[i].present == host[i])
    && (forall i :: 0 <= i < |p.outcomes| && p.outcomes[i].Cancelled? ==> p.cancelled)
    && (forall i :: 0 <= i < |p.outcomes| ==> (i in p.probes <==> p.outcomes[i].Probed?))
    && (forall i :: i in p.probes ==> i < |p.outcomes|)
    && (forall i, j :: 0 <= i < j < |p.probes| ==> p.probes[i] != p.probes[j])
  }

  lemma HeldElsewhere(p: Pool, k: nat, w: Worker, i: nat)
    requires Held(p, i) && !Holds(p, k, i)
    ensures forall q: Pool :: q.workers == p.workers[k := w] ==> Held(q, i)
  {
    var l :| Holds(p, l, i);
    forall q: Pool | q.workers == p.workers[k := w]
      ensures Held(q, i)
    {
      assert Holds(q, l, i);
    }
  }

  lemma InvStep(host: seq<bool>, p: Pool, a: Action)
    requires Inv(host, p) && Enabled(p, a)
    ensures Inv(host, Next(host, p, a))
  {
    var q := Next(host, p, a);
    forall k, i | Holds(q, k, i)
      ensures Holds(p, k, i) || (a == Hand(k) && i == p.next)
    {
    }
    forall i | 0 <= i < q.next && q.outcomes[i].Unset?
      ensures Held(q, i)
    {
      match a
      case Hand(k) =>
        if i == p.next { assert Holds(q, k, i); } else { HeldElsewhere(p, k, Took(p.next), i); }
      case Look(k) =>
        if i == p.workers[k].index { assert Holds(q, k, i); } else { HeldElsewhere(p, k, q.workers[k], i); }
      case Finish(k) =>
        HeldElsewhere(p, k, Waiting, i);
      case _ =>
        var k :| Holds(p, k, i);
        assert Holds(q, k, i);
    }
    if a.Finish? {
      assert Holds(p, a.worker, p.workers[a.worker].index);
    }
    if a.Look? {
      assert Holds(p, a.worker, p.workers[a.worker].index);
    }
  }

  ghost predicate Run(host: seq<bool>, ps: seq<Pool>, acts: seq<Action>) {
    && |ps| == |acts| + 1
    && ps[0] == Pool(ps[0].workers, 0, false, ps[0].cancelled, seq(|host|, i => Unset), [])
    && (forall k :: k in ps[0].workers ==> ps[0].workers[k].Waiting?)
    && (forall i :: 0 <= i < |acts| ==>
          |ps[i].outcomes| == |host| && Enabled(ps[i], acts[i]) && ps[i + 1] == Next(host, ps[i], acts[i]))
  }

  lemma {:induction false} RunKeepsInv(host: seq<bool>, ps: seq<Pool>, acts: seq<Action>, i: nat)
    requires Run(host, ps, acts) && i < |ps|
    ensures Inv(host, ps[i])
  {
    if i > 0 {
      RunKeepsInv(host, ps, acts, i - 1);
      InvStep(host, ps[i - 1], acts[i - 1]);
    }
  }

  /** However the workers are scheduled, a pool that finishes uncancelled has probed every target
      exactly once and holds exactly what the host said about each. */
  lemma Deterministic(host: seq<bool>, ps: seq<Pool>, acts: seq<Action>)
    requires Run(host, ps, acts) && Done(ps[|acts|]) && !Fails(ps[|acts|])
    ensures var p := ps[|acts|];
            && p.outcomes == seq(|host|, i requires 0 <= i < |host| => Probed(host[i]))
            && (forall i :: 0 <= i < |host| ==> i in p.probes)
            && (forall i, j :: 0 <= i < j < |p.probes| ==> p.probes[i] != p.probes[j])
  {
    RunKeepsInv(host, ps, acts, |acts|);
    var p := ps[|acts|];
    forall i | 0 <= i < |host|
      ensures p.outcomes[i] == Probed(host[i])
    {
      assert !Held(p, i);
    }
  }

  /** The pool cannot get stuck: until it is done, some step other than a cancellation is possible. */
  lemma NeverStuck(host: seq<bool>, p: Pool) returns (a: Action)
    requires Inv(host, p) && !Done(p) && p.workers != map[]
    ensures Enabled(p, a) && a != Cancel
  {
    if k :| k in p.workers && !p.workers[k].Waiting? {
      assert Holds(p, k, p.workers[k].index);
      a := if p.workers[k].Took? then Look(k) else Finish(k);
    } else {
      var k :| k in p.workers;
      a := if p.next < |p.outcomes| then Hand(k) else Close;
    }
  }

  ghost function Taken(p: Pool): set<nat> {
    set k | k in p.workers && p.workers[k].Took?
  }

  ghost function Busy(p: Pool): set<nat> {
    set k | k in p.workers && p.workers[k].Probing?
  }

  /** How many steps other than cancellations the pool can still make at most. */
  ghost function Left(p: Pool): int {
    3 * (|p.outcomes| - p.next) + 2 * |Taken(p)| + |Busy(p)| + if p.closed then 0 else 1
  }

  lemma WorkerMoves(p: Pool, k: nat, w: Worker, q: Pool)
    requires k in p.workers && q.workers == p.workers[k := w]
    ensures Taken(q) == if w.Took? then Taken(p) + {k} else Taken(p) - {k}
    ensures Busy(q) == if w.Probing? then Busy(p) + {k} else Busy(p) - {k}
    ensures (k in Taken(p) <==> p.workers[k].Took?) && (k in Busy(p) <==> p.workers[k].Probing?)
  {
  }

  lemma StepUsesUp(host: seq<bool>, p: Pool, a: Action)
    requires |host| == |p.outcomes| && Enabled(p, a)
    ensures Left(Next(host, p, a)) + (if a.Cancel? then 0 else 1) <= Left(p)
  {
    var q := Next(host, p, a);
    if a.Hand? || a.Look? || a.Finish? {
      WorkerMoves(p, a.worker, q.workers[a.worker], q);
    }
  }

  /** The steps that are not cancellations. */
  function Work(acts: seq<Action>): nat {
    if acts == [] then 0 else Work(acts[..|acts| - 1]) + if acts[|acts| - 1].Cancel? then 0 else 1
  }

  lemma {:induction false} WorkIsBounded(host: seq<bool>, ps: seq<Pool>, acts: seq<Action>, i: nat)
    requires Run(host, ps, acts) && i <= |acts|
    ensures Work(acts[..i]) + Left(ps[i]) <= 3 * |host| + 1
  {
    if i == 0 {
      assert Taken(ps[0]) == {} && Busy(ps[0]) == {};
    } else {
      WorkIsBounded(host, ps, acts, i - 1);
      assert acts[..i][..i - 1] == acts[..i - 1];
      StepUsesUp(host, ps[i - 1], acts[i - 1]);
    }
  }

  /** The pool finishes: under every schedule it makes at most three steps per target and one to close,
      cancellations apart, and when no other step is left the wait returns. */
  lemma PoolFinishes(host: seq<bool>, ps: seq<Pool>, acts: seq<Action>)
    requires Run(host, ps, acts) && ps[|acts|].workers != map[]
    ensures Work(acts) <= 3 * |host| + 1
    ensures (forall a :: Enabled(ps[|acts|], a) ==> a.Cancel?) ==> Done(ps[|acts|])
  {
    var p := ps[|acts|];
    WorkIsBounded(host, ps, acts, |acts|);
    assert acts[..|acts|] == acts;
    RunKeepsInv(host, ps, acts, |acts|);
    assert p.next <= |p.outcomes|;
    if !Done(p) {
      var a := NeverStuck(host, p);
    }
  }

  // ----------------------------------------------------------------- what the outcomes are used for

  datatype Target = Target(softwareID: string, versionID: string)

  /** A missing target sets its id's flag, a present one clears it, and an empty id is passed over. */
  function SettleOne(flags: set<string>, id: string, present: bool): set<string> {
    if id == "" then flags else if present then flags - {id} else flags + {id}
  }

  /** A flag set after settling the targets in order. */
  function Settle(start: set<string>, ids: seq<string>, host: seq<bool>): set<string>
    requires |ids| == |host|
  {
    if ids == [] then start
    else
      var k := |ids| - 1;
      SettleOne(Settle(start, ids[..k], host[..k]), ids[k], host[k])
  }

  lemma SettleMore(start: set<string>, ids: seq<string>, host: seq<bool>, k: nat)
    requires k < |ids| == |host|
    ensures Settle(start, ids[..k + 1], host[..k + 1]) == SettleOne(Settle(start, ids[..k], host[..k]), ids[k], host[k])
  {
    assert ids[..k + 1][..k] == ids[..k] && host[..k + 1][..k] == host[..k];
  }

  ghost predicate LastWith(ids: seq<string>, i: nat, id: string) {
    i < |ids| && ids[i] == id && forall j :: i < j < |ids| ==> ids[j] != id
  }

  /** An id no target has keeps its flag. */
  lemma {:induction false} SettleKeeps(start: set<string>, ids: seq<string>, host: seq<bool>, id: string)
    requires |ids| == |host| && id !in ids
    ensures id in Settle(start, ids, host) <==> id in start
  {
    if ids != [] {
      var k := |ids| - 1;
      assert ids[k] in ids;
      SettleKeeps(start, ids[..k], host[..k], id);
    }
  }

  /** The last target with an id decides its flag: set exactly if the host does not have it. */
  lemma {:induction false} SettleDecides(start: set<string>, ids: seq<string>, host: seq<bool>, i: nat, id: string)
    requires |ids| == |host| && id != "" && LastWith(ids, i, id)
    ensures id in Settle(start, ids, host) <==> !host[i]
  {
    var k := |ids| - 1;
    if i < k {
      assert ids[k] != id;
      assert LastWith(ids[..k], i, id);
      SettleDecides(start, ids[..k], host[..k], i, id);
    }
  }

  function SoftwareIDs(targets: seq<Target>): seq<string> {
    seq(|targets|, i requires 0 <= i < |targets| => targets[i].softwareID)
  }

  function VersionIDs(targets: seq<Target>): seq<string> {
    seq(|targets|, i requires 0 <= i < |targets| => targets[i].versionID)
  }

  /** The targets the host does not have, in order. */
  function Missing(targets: seq<Target>, host: seq<bool>): (r: seq<Target>)
    requires |targets| == |host|
    ensures forall t :: t in r <==> exists i :: 0 <= i < |targets| && targets[i] == t && !host[i]
  {
    if targets == [] then []
    else
      var k := |targets| - 1;
      var before := Missing(targets[..k], host[..k]);
      assert forall i :: 0 <= i < k ==> targets[..k][i] == targets[i] && host[..k][i] == host[i];
      if host[k] then before else before + [targets[k]]
  }

  function Absent(host: seq<bool>): (r: seq<bool>)
    ensures |r| == |host| && forall i :: 0 <= i < |r| ==> r[i] == !host[i]
  {
    seq(|host|, i requires 0 <= i < |host| => !host[i])
  }

  /** The missing targets are those the host does not have, each once and in order. */
  lemma {:induction false} MissingInOrder(targets: seq<Target>, host: seq<bool>) returns (at: seq<nat>)
    requires |targets| == |host|
    ensures Selects(targets, Absent(host), Missing(targets, host), at)
  {
    at := [];
    if targets != [] {
      var k := |targets| - 1;
      at := MissingInOrder(targets[..k], host[..k]);
      assert Absent(host[..k]) == Absent(host)[..k];
      at := SelectMore(targets, Absent(host), Missing(targets, host), Missing(targets[..k], host[..k]), at);
    }
  }

  lemma MissingMore(targets: seq<Target>, host: seq<bool>, k: nat)
    requires k < |targets| == |host|
    ensures Missing(targets[..k + 1], host[..k + 1]) ==
            Missing(targets[..k], host[..k]) + if host[k] then [] else [targets[k]]
  {
    assert targets[..k + 1][..k] == targets[..k] && host[..k + 1][..k] == host[..k];
  }

  class Reconciler {
    var osMissingVersions: set<string>
    var osMissingSoftware: set<string>
    var queue: seq<Target>

    method MarkOsMissing(t: Target)
      modifies this`osMissingVersions, this`osMissingSoftware
      ensures osMissingVersions == old(osMissingVersions) + (if t.versionID == "" then {} else {t.versionID})
      ensures osMissingSoftware == old(osMissingSoftware) + (if t.softwareID == "" then {} else {t.softwareID})
    {
      if t.versionID != "" { osMissingVersions := osMissingVersions + {t.versionID}; }
      if t.softwareID != "" { osMissingSoftware := osMissingSoftware + {t.softwareID}; }
    }

    method ClearOsMissing(t: Target)
      modifies this`osMissingVersions, this`osMissingSoftware
      ensures osMissingVersions == old(osMissingVersions) - (if t.versionID == "" then {} else {t.versionID})
      ensures osMissingSoftware == old(osMissingSoftware) - (if t.softwareID == "" then {} else {t.softwareID})
    {
      if t.versionID != "" { osMissingVersions := osMissingVersions - {t.versionID}; }
      if t.softwareID != "" { osMissingSoftware := osMissingSoftware - {t.softwareID}; }
    }

    method Note(t: Target, present: bool)
      modifies this`osMissingVersions, this`osMissingSoftware
      ensures osMissingVersions == SettleOne(old(osMissingVersions), t.versionID, present)
      ensures osMissingSoftware == SettleOne(old(osMissingSoftware), t.softwareID, present)
    {
      if present {
        ClearOsMissing(t);
      } else {
        MarkOsMissing(t);
      }
    }

    /** The loop over the outcomes: flags, and the targets to queue. */
    method SettleAll(targets: seq<Target>, ghost host: seq<bool>, outcomes: seq<Outcome>)
      returns (missing: seq<Target>)
      requires |targets| == |host| == |outcomes|
      requires forall i :: 0 <= i < |host| ==> outcomes[i] == Probed(host[i])
      modifies this`osMissingVersions, this`osMissingSoftware
      ensures osMissingVersions == Settle(old(osMissingVersions), VersionIDs(targets), host)
      ensures osMissingSoftware == Settle(old(osMissingSoftware), SoftwareIDs(targets), host)
      ensures missing == Missing(targets, host)
    {
      ghost var versions, softwares := VersionIDs(targets), SoftwareIDs(targets);
      missing := [];
      for i := 0 to |targets|
        invariant osMissingVersions == Settle(old(osMissingVersions), versions[..i], host[..i])
        invariant osMissingSoftware == Settle(old(osMissingSoftware), softwares[..i], host[..i])
        invariant missing == Missing(targets[..i], host[..i])
      {
        SettleMore(old(osMissingVersions), versions, host, i);
        SettleMore(old(osMissingSoftware), softwares, host, i);
        MissingMore(targets, host, i);
        var present := outcomes[i] == Probed(true);
        Note(targets[i], present);
        if !present {
          missing := missing + [targets[i]];
        }
      }
      assert versions[..|targets|] == versions && softwares[..|targets|] == softwares;
      assert host[..|targets|] == host && targets[..|targets|] == targets;
    }

    /** What reconcile does once the wait has returned, after any run of the pool: all of it or
        nothing. A cancelled outcome is never taken for a missing install. */
    method Settled(targets: seq<Target>, ghost host: seq<bool>, ghost ps: seq<Pool>, ghost acts: seq<Action>,
                   pool: Pool)
      returns (ok: bool)
      requires Run(host, ps, acts) && ps[|acts|] == pool && Done(pool) && |targets| == |host|
      modifies this
      ensures ok <==> !pool.cancelled
      ensures !ok ==> osMissingVersions == old(osMissingVersions) && osMissingSoftware == old(osMissingSoftware)
                      && queue == old(queue)
      ensures ok ==> osMissingVersions == Settle(old(osMissingVersions), VersionIDs(targets), host)
                     && osMissingSoftware == Settle(old(osMissingSoftware), SoftwareIDs(targets), host)
                     && queue == old(queue) + Missing(targets, host)
    {
      if pool.cancelled {
        return false;
      }
      Deterministic(host, ps, acts);
      var missing := SettleAll(targets, host, pool.outcomes);
      queue := queue + missing;
      ok := true;
    }
  }
}
