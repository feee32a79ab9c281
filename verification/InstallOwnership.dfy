/** Who owns an installed software and whether the user still wants it: the install table, the
    operations on it, and what any history of them means for the start-up reconcile. */
module InstallOwnership {
  import opened Text
  import opened Options
  import opened ProbePool
  import opened Selections

  const LOCAL := "local"
  const BREW := "brew"

  function NormalizeManager(v: string): string {
    if Fold(v) == BREW then BREW else LOCAL
  }

  /** Only the word brew, in any case and between any blanks, names brew. */
  lemma NormalizeManagerMeans(v: string)
    ensures NormalizeManager(v) == "brew" || NormalizeManager(v) == "local"
    ensures NormalizeManager(v) == "brew" <==>
            var t := Trim(v);
            |t| == 4 && t[0] in "bB" && t[1] in "rR" && t[2] in "eE" && t[3] in "wW"
  {
    LowerAt(Trim(v));
  }

  /** An install row; soft-deleted rows stay in the table and still block a second row. */
  datatype Row = Row(versionID: string, manager: string, uninstalled: bool, deleted: bool)

  /** The table under its unique key, the software id. */
  type Table = map<string, Row>

  predicate Active(row: Row) {
    !row.deleted && !row.uninstalled
  }

  predicate ActiveUnder(row: Row, manager: string) {
    Active(row) && NormalizeManager(row.manager) == manager
  }

  // -------------------------------------------------------------------------------- operations

  datatype Op =
    | Install(id: string, versionID: string, manager: string)
    | Uninstall(id: string)
    | SetManager(id: string, manager: string)
    | Clear(id: string)

  /** One operation; those that find no row to work on change nothing. */
  function Do(t: Table, op: Op): Table {
    match op
    case Install(id, v, pm) =>
      if id == "" || v == "" then t else t[id := Row(v, NormalizeManager(pm), false, false)]
    case Uninstall(id) =>
      if id == "" || id !in t then t else t[id := t[id].(uninstalled := true, deleted := false)]
    case SetManager(id, pm) =>
      if id == "" || id !in t || t[id].deleted then t else t[id := t[id].(manager := NormalizeManager(pm))]
    case Clear(id) =>
      if id == "" || id !in t || t[id].deleted then t else t[id := t[id].(deleted := true)]
  }

  function DoAll(t: Table, ops: seq<Op>): Table {
    if ops == [] then t else Do(DoAll(t, ops[..|ops| - 1]), ops[|ops| - 1])
  }

  lemma {:induction false} DoAllAppend(t: Table, a: seq<Op>, b: seq<Op>)
    ensures DoAll(t, a + b) == DoAll(DoAll(t, a), b)
  {
    if b == [] {
      assert a + b == a;
    } else {
      var k := |b| - 1;
      assert (a + b)[..|a + b| - 1] == a + b[..k];
      DoAllAppend(t, a, b[..k]);
    }
  }

  class InstallStore {
    var table: Table

    method MarkSoftwareInstalledWithManager(softwareID: string, versionID: string, manager: string)
      modifies this
      ensures table == Do(old(table), Install(softwareID, versionID, manager))
    {
      if softwareID == "" || versionID == "" {
        return;
      }
      var pm := NormalizeManager(manager);
      if softwareID !in table {
        table := table[softwareID := Row(versionID, pm, false, false)];
        return;
      }
      var row := table[softwareID];
      row := row.(versionID := versionID, manager := pm, uninstalled := false, deleted := false);
      table := table[softwareID := row];
    }

    method MarkSoftwareUninstalled(softwareID: string)
      modifies this
      ensures table == Do(old(table), Uninstall(softwareID))
    {
      if softwareID == "" || softwareID !in table {
        return;
      }
      table := table[softwareID := table[softwareID].(uninstalled := true, deleted := false)];
    }

    method SetSoftwarePackageManager(softwareID: string, manager: string)
      modifies this
      ensures table == Do(old(table), SetManager(softwareID, manager))
    {
      var row := GetSoftwareInstalled(softwareID);
      if row.Some? {
        table := table[softwareID := row.value.(manager := NormalizeManager(manager))];
      }
    }

    method ClearSoftwareInstalled(softwareID: string)
      modifies this
      ensures table == Do(old(table), Clear(softwareID))
    {
      if softwareID != "" && softwareID in table && !table[softwareID].deleted {
        table := table[softwareID := table[softwareID].(deleted := true)];
      }
    }

    /** Soft-deleted rows are not found. */
    method GetSoftwareInstalled(softwareID: string) returns (row: Option<Row>)
      ensures row == Visible(table, softwareID)
    {
      if softwareID == "" || softwareID !in table || table[softwareID].deleted {
        return None;
      }
      row := Some(table[softwareID]);
    }
  }

  function Visible(t: Table, id: string): Option<Row> {
    if id == "" || id !in t || t[id].deleted then None else Some(t[id])
  }

  lemma VisibleMeans(t: Table, id: string, row: Row)
    ensures Visible(t, id) == Some(row) <==> id != "" && id in t && t[id] == row && !row.deleted
  {
  }

  /** Ownership changes leave hidden and missing rows alone, and everything but the manager of a visible one. */
  lemma OwnerMoves(t: Table, id: string, manager: string, other: string)
    ensures var u := Do(t, SetManager(id, manager));
            && u.Keys == t.Keys
            && (other in t && (other != id || id == "" || t[other].deleted) ==> u[other] == t[other])
            && (id != "" && id in t && !t[id].deleted ==>
                  u[id] == Row(t[id].versionID, NormalizeManager(manager), t[id].uninstalled, false))
  {
  }

  // -------------------------------------------------------------------------- what a history means

  /** Operation m is the last one that installs the software. */
  ghost predicate LastInstall(ops: seq<Op>, m: nat, id: string) {
    m < |ops| && MarksInstall(ops[m], id) && forall j :: m < j < |ops| ==> !MarksInstall(ops[j], id)
  }

  ghost predicate UninstalledSince(ops: seq<Op>, m: int, id: string) {
    exists j :: m < j < |ops| && 0 <= j && MarksUninstall(ops[j], id)
  }

  ghost predicate ClearedSince(ops: seq<Op>, m: nat, id: string) {
    exists j :: m < j < |ops| && ops[j] == Clear(id) && !UninstalledSince(ops, j, id)
  }

  /** What any history leaves of a software: a row iff it was ever installed, at the version of the last
      install, uninstalled iff it was uninstalled since, and hidden iff it was cleared since and not
      uninstalled after that. */
  lemma {:induction false} HistoryOf(ops: seq<Op>, id: string)
    requires id != ""
    ensures var t := DoAll(map[], ops);
            && (id in t <==> exists m: nat :: LastInstall(ops, m, id))
            && (id in t ==> exists m: nat :: && LastInstall(ops, m, id) && t[id].versionID == ops[m].versionID
                                        && (t[id].uninstalled <==> UninstalledSince(ops, m, id))
                                        && (t[id].deleted <==> ClearedSince(ops, m, id)))
  {
    if ops != [] {
      var k := |ops| - 1;
      HistoryOf(ops[..k], id);
      var before := DoAll(map[], ops[..k]);
      if MarksInstall(ops[k], id) {
        assert LastInstall(ops, k, id) && !UninstalledSince(ops, k, id) && !ClearedSince(ops, k, id);
      } else if id in before {
        var m: nat :| && LastInstall(ops[..k], m, id) && before[id].versionID == ops[..k][m].versionID
                      && (before[id].uninstalled <==> UninstalledSince(ops[..k], m, id))
                      && (before[id].deleted <==> ClearedSince(ops[..k], m, id));
        assert LastInstall(ops, m, id);
        UninstalledMore(ops, m, id);
        ClearedMore(ops, m, id);
      } else {
        forall m: nat
          ensures !LastInstall(ops, m, id)
        {
          assert LastInstall(ops, m, id) ==> m < k && LastInstall(ops[..k], m, id);
        }
      }
    }
  }

  lemma UninstalledMore(ops: seq<Op>, m: int, id: string)
    requires ops != [] && -1 <= m < |ops| - 1
    ensures var k := |ops| - 1;
            UninstalledSince(ops, m, id) <==> UninstalledSince(ops[..k], m, id) || MarksUninstall(ops[k], id)
  {
    var k := |ops| - 1;
    if UninstalledSince(ops[..k], m, id) {
      var j :| m < j < k && 0 <= j && MarksUninstall(ops[..k][j], id);
      assert MarksUninstall(ops[j], id);
    }
    if UninstalledSince(ops, m, id) {
      var j :| m < j < |ops| && 0 <= j && MarksUninstall(ops[j], id);
      assert j < k ==> MarksUninstall(ops[..k][j], id);
    }
  }

  lemma ClearedMore(ops: seq<Op>, m: nat, id: string)
    requires m < |ops| - 1
    ensures var k := |ops| - 1;
            ClearedSince(ops, m, id) <==>
            ops[k] == Clear(id) || (ClearedSince(ops[..k], m, id) && !MarksUninstall(ops[k], id))
  {
    var k := |ops| - 1;
    if ops[k] == Clear(id) {
      assert !UninstalledSince(ops, k, id);
    } else {
      if ClearedSince(ops[..k], m, id) && !MarksUninstall(ops[k], id) {
        var j :| m < j < k && ops[..k][j] == Clear(id) && !UninstalledSince(ops[..k], j, id);
        UninstalledMore(ops, j, id);
        assert ops[j] == Clear(id);
      }
      if ClearedSince(ops, m, id) {
        var j :| m < j < |ops| && ops[j] == Clear(id) && !UninstalledSince(ops, j, id);
        UninstalledMore(ops, j, id);
        assert ops[..k][j] == Clear(id);
      }
    }
  }

  predicate MarksInstall(op: Op, id: string) {
    op.Install? && op.id == id && op.versionID != ""
  }

  predicate MarksUninstall(op: Op, id: string) {
    op.Uninstall? && op.id == id
  }

  /** Operation m installed the software, and no later one installs, uninstalls or clears it. */
  ghost predicate StandingInstall(ops: seq<Op>, m: nat, id: string) {
    && id != "" && m < |ops| && MarksInstall(ops[m], id)
    && forall j :: m < j < |ops| ==>
                     !MarksInstall(ops[j], id) && !MarksUninstall(ops[j], id) && ops[j] != Clear(id)
  }

  /** The owner the operations from m on give the software. */
  function OwnerSince(ops: seq<Op>, m: nat, id: string): string
    requires m < |ops| && ops[m].Install?
  {
    var last := ops[|ops| - 1];
    if m == |ops| - 1 then NormalizeManager(last.manager)
    else if last.SetManager? && last.id == id then NormalizeManager(last.manager)
    else OwnerSince(ops[..|ops| - 1], m, id)
  }

  lemma NormalizeManagerIdempotent(v: string)
    ensures NormalizeManager(NormalizeManager(v)) == NormalizeManager(v)
  {
    LowerIsFolded(if Fold(v) == BREW then BREW else LOCAL);
  }

  lemma {:induction false} StandingInstallIsActive(ops: seq<Op>, m: nat, id: string)
    requires StandingInstall(ops, m, id)
    ensures var t := DoAll(map[], ops);
            && id in t && Active(t[id])
            && t[id].versionID == ops[m].versionID && t[id].manager == OwnerSince(ops, m, id)
  {
    var k := |ops| - 1;
    if m < k {
      assert StandingInstall(ops[..k], m, id);
      StandingInstallIsActive(ops[..k], m, id);
    }
  }

  lemma {:induction false} ActiveHasStandingInstall(ops: seq<Op>, id: string) returns (m: nat)
    requires id in DoAll(map[], ops) && Active(DoAll(map[], ops)[id])
    ensures StandingInstall(ops, m, id)
  {
    var k := |ops| - 1;
    var before := DoAll(map[], ops[..k]);
    if MarksInstall(ops[k], id) && id != "" {
      m := k;
    } else {
      assert id in before && Active(before[id]);
      m := ActiveHasStandingInstall(ops[..k], id);
      assert ops[k] != Clear(id) by {
        EmptyKeyNeverStored(ops[..k]);
      }
    }
  }

  lemma {:induction false} EmptyKeyNeverStored(ops: seq<Op>)
    ensures "" !in DoAll(map[], ops)
  {
    if ops != [] {
      EmptyKeyNeverStored(ops[..|ops| - 1]);
    }
  }

  /** After any history of installs, uninstalls, ownership changes and clears, a software is actively
      owned by a manager exactly if the last mark it got was an install, it was not cleared since,
      and that manager is the last one it was given. */
  lemma IntentSurvives(ops: seq<Op>, id: string, manager: string)
    ensures (id in DoAll(map[], ops) && ActiveUnder(DoAll(map[], ops)[id], manager)) <==>
            exists m: nat :: StandingInstall(ops, m, id) && OwnerSince(ops, m, id) == manager
  {
    var t := DoAll(map[], ops);
    if id in t && ActiveUnder(t[id], manager) {
      var m := ActiveHasStandingInstall(ops, id);
      StandingInstallIsActive(ops, m, id);
      OwnerIsNormal(ops, m, id);
    }
    if m :| StandingInstall(ops, m, id) && OwnerSince(ops, m, id) == manager {
      StandingInstallIsActive(ops, m, id);
      OwnerIsNormal(ops, m, id);
    }
  }

  lemma {:induction false} OwnerIsNormal(ops: seq<Op>, m: nat, id: string)
    requires m < |ops| && ops[m].Install?
    ensures NormalizeManager(OwnerSince(ops, m, id)) == OwnerSince(ops, m, id)
  {
    var last := ops[|ops| - 1];
    if m == |ops| - 1 || (last.SetManager? && last.id == id) {
      NormalizeManagerIdempotent(last.manager);
    } else {
      OwnerIsNormal(ops[..|ops| - 1], m, id);
    }
  }

  // ------------------------------------------------------------------- what reconcile re-installs

  /** The catalog as reconcile joins it: which software is active and which versions exist. */
  datatype Catalog = Catalog(activeSoftware: set<string>, versions: set<string>)

  datatype Listed = Listed(softwareID: string, row: Row)

  /** A listing of the table: every visible row, in some order. */
  ghost predicate ListingOf(rows: seq<Listed>, t: Table) {
    forall id, r :: Listed(id, r) in rows <==> id in t && t[id] == r && !r.deleted
  }

  predicate Probeable(l: Listed, c: Catalog) {
    && !l.row.uninstalled && NormalizeManager(l.row.manager) != BREW
    && l.softwareID in c.activeSoftware && l.row.versionID in c.versions
  }

  /** The targets, in listing order. */
  function Targets(rows: seq<Listed>, c: Catalog): seq<Target> {
    if rows == [] then []
    else
      var l := rows[|rows| - 1];
      Targets(rows[..|rows| - 1], c) + if Probeable(l, c) then [Target(l.softwareID, l.row.versionID)] else []
  }

  method SelectTargets(rows: seq<Listed>, c: Catalog) returns (targets: seq<Target>)
    ensures targets == Targets(rows, c)
  {
    targets := [];
    for i := 0 to |rows|
      invariant targets == Targets(rows[..i], c)
    {
      var l := rows[i];
      assert rows[..i + 1][..i] == rows[..i];
      if l.row.uninstalled {
      } else if NormalizeManager(l.row.manager) == BREW {
      } else if l.softwareID !in c.activeSoftware {
      } else if l.row.versionID !in c.versions {
      } else {
        targets := targets + [Target(l.softwareID, l.row.versionID)];
      }
    }
    assert rows[..|rows|] == rows;
  }

  function TargetOf(l: Listed): Target {
    Target(l.softwareID, l.row.versionID)
  }

  function AllTargets(rows: seq<Listed>): (r: seq<Target>)
    ensures |r| == |rows| && forall i :: 0 <= i < |r| ==> r[i] == TargetOf(rows[i])
  {
    seq(|rows|, i requires 0 <= i < |rows| => TargetOf(rows[i]))
  }

  function Kept(rows: seq<Listed>, c: Catalog): (r: seq<bool>)
    ensures |r| == |rows| && forall i :: 0 <= i < |r| ==> r[i] == Probeable(rows[i], c)
  {
    seq(|rows|, i requires 0 <= i < |rows| => Probeable(rows[i], c))
  }

  /** There is one target for every row kept, in listing order. */
  lemma {:induction false} TargetsInOrder(rows: seq<Listed>, c: Catalog) returns (at: seq<nat>)
    ensures Selects(AllTargets(rows), Kept(rows, c), Targets(rows, c), at)
  {
    at := [];
    if rows != [] {
      var k := |rows| - 1;
      at := TargetsInOrder(rows[..k], c);
      assert AllTargets(rows[..k]) == AllTargets(rows)[..k] && Kept(rows[..k], c) == Kept(rows, c)[..k];
      at := SelectMore(AllTargets(rows), Kept(rows, c), Targets(rows, c), Targets(rows[..k], c), at);
    }
  }

  lemma {:induction false} TargetsMeans(rows: seq<Listed>, c: Catalog, t: Target)
    ensures t in Targets(rows, c) <==>
            exists l :: l in rows && Probeable(l, c) && t == Target(l.softwareID, l.row.versionID)
  {
    if rows != [] {
      var k := |rows| - 1;
      TargetsMeans(rows[..k], c, t);
      assert rows == rows[..k] + [rows[k]];
      if l :| l in rows[..k] && Probeable(l, c) && t == Target(l.softwareID, l.row.versionID) {
        assert l in rows;
      }
      assert rows[k] in rows;
    }
  }

  /** Whatever the history, reconcile probes a software exactly if its last mark was an install, not cleared
      since, its owner is local, it is active in the catalog and the version that install named exists; it
      probes that version. */
  lemma ProbedIff(ops: seq<Op>, rows: seq<Listed>, c: Catalog, t: Target)
    requires ListingOf(rows, DoAll(map[], ops))
    ensures t in Targets(rows, c) <==>
            && t.softwareID in c.activeSoftware && t.versionID in c.versions
            && exists m: nat :: && StandingInstall(ops, m, t.softwareID) && ops[m].versionID == t.versionID
                           && OwnerSince(ops, m, t.softwareID) == "local"
  {
    var id, table := t.softwareID, DoAll(map[], ops);
    TargetsMeans(rows, c, t);
    IntentSurvives(ops, id, LOCAL);
    if l :| l in rows && Probeable(l, c) && t == Target(l.softwareID, l.row.versionID) {
      assert Listed(l.softwareID, l.row) in rows;
      var m: nat :| StandingInstall(ops, m, id) && OwnerSince(ops, m, id) == LOCAL;
      StandingInstallIsActive(ops, m, id);
    }
    if m: nat :| StandingInstall(ops, m, id) && ops[m].versionID == t.versionID && OwnerSince(ops, m, id) == LOCAL {
      StandingInstallIsActive(ops, m, id);
      OwnerIsNormal(ops, m, id);
      assert Listed(id, table[id]) in rows;
      assert t.softwareID in c.activeSoftware && t.versionID in c.versions ==> Probeable(Listed(id, table[id]), c);
    }
  }

  /** Whatever the history, reconcile only ever queues software whose last mark was an install and
      whose owner is local, at the version that install named: never one the user removed. */
  lemma OnlyIntendedAreQueued(ops: seq<Op>, rows: seq<Listed>, c: Catalog, host: seq<bool>, t: Target)
    requires ListingOf(rows, DoAll(map[], ops)) && |Targets(rows, c)| == |host|
    requires t in Missing(Targets(rows, c), host)
    ensures exists m: nat :: && StandingInstall(ops, m, t.softwareID) && OwnerSince(ops, m, t.softwareID) == LOCAL
                        && ops[m].versionID == t.versionID
  {
    assert t in Targets(rows, c);
    TargetsMeans(rows, c, t);
    var l :| l in rows && Probeable(l, c) && t == Target(l.softwareID, l.row.versionID);
    assert Listed(l.softwareID, l.row) in rows;
    IntentSurvives(ops, t.softwareID, LOCAL);
    var m :| StandingInstall(ops, m, t.softwareID) && OwnerSince(ops, m, t.softwareID) == LOCAL;
    StandingInstallIsActive(ops, m, t.softwareID);
  }
}
