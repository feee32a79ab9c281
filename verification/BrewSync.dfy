/** Importing what the brew command line has installed into the install table. */
module BrewSync {
  import opened Text
  import opened Options
  import opened InstallOwnership

  datatype Software = Software(id: string, registrySlug: string, name: string)

  // ---------------------------------------------------------------------------- the token index

  /** The formula token of a catalog row: its slug, or failing that its name, folded. */
  function BrewToken(sw: Software): string {
    if Fold(sw.registrySlug) != "" then Fold(sw.registrySlug) else Fold(sw.name)
  }

  predicate Indexable(token: string) {
    token != "" && ' ' !in token
  }

  /** The index over a prefix of the active catalog; the first row with a token keeps it. */
  function IndexOf(rows: seq<Software>): map<string, string> {
    if rows == [] then map[]
    else
      var last := rows[|rows| - 1];
      var before := IndexOf(rows[..|rows| - 1]);
      if !Indexable(BrewToken(last)) || BrewToken(last) in before then before
      else before[BrewToken(last) := last.id]
  }

  method BuildBrewTokenIndex(rows: seq<Software>) returns (out: map<string, string>)
    ensures out == IndexOf(rows)
  {
    out := map[];
    for i := 0 to |rows|
      invariant out == IndexOf(rows[..i])
    {
      assert rows[..i + 1][..i] == rows[..i];
      var token := BrewToken(rows[i]);
      if token == "" || ' ' in token {
      } else if token in out {
      } else {
        out := out[token := rows[i].id];
      }
    }
    assert rows[..|rows|] == rows;
  }

  /** The linear scan: the first active row whose token is the one asked for. */
  function Find(rows: seq<Software>, token: string): Option<string> {
    if rows == [] then None
    else if BrewToken(rows[0]) == token then Some(rows[0].id)
    else Find(rows[1..], token)
  }

  method FindSoftwareByBrewToken(rows: seq<Software>, raw: string) returns (id: Option<string>)
    ensures id == if Fold(raw) == "" then None else Find(rows, Fold(raw))
  {
    var token := Fold(raw);
    if token == "" {
      return None;
    }
    var i := 0;
    while i < |rows|
      invariant 0 <= i <= |rows| && Find(rows, token) == Find(rows[i..], token)
    {
      if BrewToken(rows[i]) == token {
        return Some(rows[i].id);
      }
      i := i + 1;
    }
    id := None;
  }

  lemma {:induction false} FindAppend(rows: seq<Software>, last: Software, token: string)
    ensures Find(rows + [last], token) ==
            if Find(rows, token).Some? then Find(rows, token)
            else if BrewToken(last) == token then Some(last.id) else None
  {
    if rows != [] {
      assert (rows + [last])[1..] == rows[1..] + [last];
      FindAppend(rows[1..], last, token);
    } else {
      assert ([last])[1..] == [];
    }
  }

  /** The index holds, for every token it can hold, exactly what the linear scan finds. */
  lemma {:induction false} IndexIsScan(rows: seq<Software>, token: string)
    ensures Lookup(IndexOf(rows), token) == if Indexable(token) then Find(rows, token) else None
  {
    if rows != [] {
      var k := |rows| - 1;
      IndexIsScan(rows[..k], token);
      assert rows == rows[..k] + [rows[k]];
      FindAppend(rows[..k], rows[k], token);
    }
  }

  /** Asked for any token as typed, index and scan agree unless the scan finds a software whose
      token has a blank inside. */
  lemma IndexAgreesIff(rows: seq<Software>, raw: string)
    ensures Lookup(IndexOf(rows), Fold(raw)) == (if Fold(raw) == "" then None else Find(rows, Fold(raw)))
            <==> !(' ' in Fold(raw) && Find(rows, Fold(raw)).Some?)
  {
    IndexIsScan(rows, Fold(raw));
  }

  /** The software goes by its registry slug, or by its name if it has no slug. */
  predicate GoesBy(sw: Software, token: string) {
    Fold(sw.registrySlug) == token || (Fold(sw.registrySlug) == "" && Fold(sw.name) == token)
  }

  ghost predicate FirstGoingBy(rows: seq<Software>, i: nat, token: string) {
    i < |rows| && GoesBy(rows[i], token) && forall j :: 0 <= j < i ==> !GoesBy(rows[j], token)
  }

  lemma TokenMeans(sw: Software, token: string)
    requires token != ""
    ensures BrewToken(sw) == token <==> GoesBy(sw, token)
  {
  }

  lemma TailGoesByFirst(rows: seq<Software>, i: nat, token: string)
    requires i > 0 && FirstGoingBy(rows, i, token)
    ensures FirstGoingBy(rows[1..], i - 1, token) && !GoesBy(rows[0], token)
  {
    forall j | 0 <= j < i - 1
      ensures !GoesBy(rows[1..][j], token)
    {
      assert rows[1..][j] == rows[j + 1];
    }
  }

  /** The scan finds the first software that goes by the token. */
  lemma {:induction false} FindsFirst(rows: seq<Software>, i: nat, token: string)
    requires token != "" && FirstGoingBy(rows, i, token)
    ensures Find(rows, token) == Some(rows[i].id)
  {
    TokenMeans(rows[0], token);
    if i > 0 {
      TailGoesByFirst(rows, i, token);
      FindsFirst(rows[1..], i - 1, token);
    }
  }

  /** It finds nothing if none does. */
  lemma {:induction false} FindsNone(rows: seq<Software>, token: string)
    requires token != "" && forall sw :: sw in rows ==> !GoesBy(sw, token)
    ensures Find(rows, token) == None
  {
    if rows != [] {
      assert rows[0] in rows;
      TokenMeans(rows[0], token);
      FindsNone(rows[1..], token);
    }
  }

  /** It happens: a software without a slug whose name has a blank inside is found by the scan alone. */
  lemma BlankTokenIsMissed(id: string)
    ensures var rows := [Software(id, "", "vs code")];
            && Fold("vs code") == "vs code" && Find(rows, "vs code") == Some(id)
            && Lookup(IndexOf(rows), "vs code") == None
  {
    var sw := Software(id, "", "vs code");
    LowerIsFolded("vs code");
    LowerIsFolded("");
    assert BrewToken(sw) == "vs code";
    assert "vs code"[2] == ' ';
    IndexIsScan([sw], "vs code");
  }

  // --------------------------------------------------------------------------- picking a version

  datatype Version = Version(id: string, version: string)

  predicate IsPrefix(a: string, b: string) {
    |a| <= |b| && a == b[..|a|]
  }

  predicate VersionMatches(v: Version, wanted: string) {
    var have := Trim(v.version);
    have != "" && (IsPrefix(Lower(wanted), Lower(have)) || IsPrefix(Lower(have), Lower(wanted)))
  }

  function FirstMatch(versions: seq<Version>, wanted: string): Option<string> {
    if versions == [] then None
    else if VersionMatches(versions[0], wanted) then Some(versions[0].id)
    else FirstMatch(versions[1..], wanted)
  }

  /** The version to record for what brew reports, or "" if the software has none at all. */
  function PickVersion(versions: seq<Version>, brewVersion: string): string {
    if versions == [] then ""
    else if Trim(brewVersion) == "" || FirstMatch(versions, Trim(brewVersion)).None? then versions[0].id
    else FirstMatch(versions, Trim(brewVersion)).value
  }

  method PickVersionIDForBrew(versions: seq<Version>, brewVersion: string) returns (id: string)
    ensures id == PickVersion(versions, brewVersion)
  {
    if |versions| == 0 {
      return "";
    }
    var wanted := Trim(brewVersion);
    if wanted != "" {
      var i := 0;
      while i < |versions|
        invariant 0 <= i <= |versions| && FirstMatch(versions, wanted) == FirstMatch(versions[i..], wanted)
      {
        if VersionMatches(versions[i], wanted) {
          return versions[i].id;
        }
        i := i + 1;
      }
    }
    id := versions[0].id;
  }

  /** One of the two versions begins with the other, blanks around them and case apart. */
  ghost predicate Agree(a: string, b: string) {
    var x, y := Lower(Trim(a)), Lower(Trim(b));
    x != "" && y != "" && exists rest :: x + rest == y || y + rest == x
  }

  lemma PrefixMeans(a: string, b: string)
    ensures IsPrefix(a, b) <==> exists rest :: a + rest == b
  {
    if IsPrefix(a, b) {
      assert a + b[|a|..] == b;
    }
    if rest :| a + rest == b {
      assert b[..|a|] == a;
    }
  }

  lemma AgreeMeans(v: Version, brewVersion: string)
    ensures Agree(v.version, brewVersion) <==> Trim(brewVersion) != "" && VersionMatches(v, Trim(brewVersion))
  {
    var x, y := Lower(Trim(v.version)), Lower(Trim(brewVersion));
    LowerAt(Trim(v.version));
    LowerAt(Trim(brewVersion));
    PrefixMeans(x, y);
    PrefixMeans(y, x);
  }

  ghost predicate FirstAgreeing(versions: seq<Version>, i: nat, brewVersion: string) {
    && i < |versions| && Agree(versions[i].version, brewVersion)
    && forall j :: 0 <= j < i ==> !Agree(versions[j].version, brewVersion)
  }

  lemma TailAgreesFirst(versions: seq<Version>, i: nat, brewVersion: string)
    requires i > 0 && FirstAgreeing(versions, i, brewVersion)
    ensures FirstAgreeing(versions[1..], i - 1, brewVersion) && !Agree(versions[0].version, brewVersion)
  {
    forall j | 0 <= j < i - 1
      ensures !Agree(versions[1..][j].version, brewVersion)
    {
      assert versions[1..][j] == versions[j + 1];
    }
  }

  lemma {:induction false} FirstMatchMeans(versions: seq<Version>, i: nat, brewVersion: string)
    requires FirstAgreeing(versions, i, brewVersion)
    ensures FirstMatch(versions, Trim(brewVersion)) == Some(versions[i].id)
  {
    AgreeMeans(versions[0], brewVersion);
    AgreeMeans(versions[i], brewVersion);
    if i > 0 {
      TailAgreesFirst(versions, i, brewVersion);
      FirstMatchMeans(versions[1..], i - 1, brewVersion);
    }
  }

  lemma {:induction false} NoMatchMeans(versions: seq<Version>, brewVersion: string)
    requires Trim(brewVersion) != "" && forall v :: v in versions ==> !Agree(v.version, brewVersion)
    ensures FirstMatch(versions, Trim(brewVersion)) == None
  {
    if versions != [] {
      assert versions[0] in versions;
      AgreeMeans(versions[0], brewVersion);
      NoMatchMeans(versions[1..], brewVersion);
    }
  }

  /** The version recorded for what brew reports is the first that agrees with it; if none does, or brew
      reports none, the first of all; and there is none only if the software has none. */
  lemma PickedVersion(versions: seq<Version>, brewVersion: string)
    ensures forall i: nat :: FirstAgreeing(versions, i, brewVersion) ==>
                          PickVersion(versions, brewVersion) == versions[i].id
    ensures versions != [] && (forall v :: v in versions ==> !Agree(v.version, brewVersion)) ==>
              PickVersion(versions, brewVersion) == versions[0].id
    ensures versions == [] ==> PickVersion(versions, brewVersion) == ""
  {
    forall i: nat | FirstAgreeing(versions, i, brewVersion)
      ensures PickVersion(versions, brewVersion) == versions[i].id
    {
      AgreeMeans(versions[i], brewVersion);
      FirstMatchMeans(versions, i, brewVersion);
    }
    if Trim(brewVersion) != "" && forall v :: v in versions ==> !Agree(v.version, brewVersion) {
      NoMatchMeans(versions, brewVersion);
    }
  }

  // -------------------------------------------------------------------------------- one import

  datatype Item = Item(name: string, version: string)

  /** What does not change between two imports: the token index and every software's versions. */
  datatype Host = Host(index: map<string, string>, versions: map<string, seq<Version>>)

  /** The software a brew item stands for. */
  function Matched(h: Host, it: Item): Option<string> {
    if Fold(it.name) == "" then None else Lookup(h.index, Fold(it.name))
  }

  function VersionFor(h: Host, id: string, brewVersion: string): string {
    PickVersion(if id in h.versions then h.versions[id] else [], brewVersion)
  }

  /** A row brew may not touch. */
  predicate OwnedLocally(row: Option<Row>) {
    row.Some? && ActiveUnder(row.value, LOCAL)
  }

  /** The table after one item: nothing for a stranger or a local install, else a brew install. */
  function ImportItem(h: Host, t: Table, it: Item): Table {
    match Matched(h, it)
    case None => t
    case Some(id) =>
      if OwnedLocally(Lookup(t, id)) then t
      else Do(t, Install(id, VersionFor(h, id, it.version), BREW))
  }

  function ImportAll(h: Host, t: Table, items: seq<Item>): Table {
    if items == [] then t
    else ImportItem(h, ImportAll(h, t, items[..|items| - 1]), items[|items| - 1])
  }

  function Seen(h: Host, items: seq<Item>): set<string> {
    set it | it in items && Matched(h, it).Some? :: Matched(h, it).value
  }

  /** Active brew rows that no listed item stands for. */
  predicate Stale(seen: set<string>, id: string, row: Row) {
    ActiveUnder(row, BREW) && id !in seen
  }

  function Sweep(t: Table, seen: set<string>): Table {
    map id | id in t :: if Stale(seen, id, t[id]) then t[id].(uninstalled := true, deleted := false) else t[id]
  }

  function Synced(h: Host, t: Table, items: seq<Item>): Table {
    Sweep(ImportAll(h, t, items), Seen(h, items))
  }

  /** No row is kept under the empty id. */
  ghost predicate ValidTable(t: Table) {
    "" !in t
  }

  class BrewImporter {
    const store: InstallStore

    constructor (store: InstallStore)
      ensures this.store == store
    {
      this.store := store;
    }

    method ImportOne(h: Host, it: Item) returns (matched: Option<string>)
      requires "" !in h.index.Values
      modifies store
      ensures store.table == ImportItem(h, old(store.table), it) && matched == Matched(h, it)
    {
      var name := Fold(it.name);
      if name == "" || name !in h.index {
        return None;
      }
      var id := h.index[name];
      assert id in h.index.Values;
      matched := Some(id);
      var row := store.GetSoftwareInstalled(id);
      if row.Some? && !row.value.uninstalled && NormalizeManager(row.value.manager) == LOCAL {
        return;
      }
      var versionID := PickVersionIDForBrew(if id in h.versions then h.versions[id] else [], it.version);
      if versionID == "" {
        return;
      }
      store.MarkSoftwareInstalledWithManager(id, versionID, BREW);
    }

    /** The first loop: import every listed item. */
    method ImportItems(h: Host, items: seq<Item>) returns (seen: set<string>)
      requires "" !in h.index.Values
      modifies store
      ensures store.table == ImportAll(h, old(store.table), items) && seen == Seen(h, items)
    {
      seen := {};
      for i := 0 to |items|
        invariant store.table == ImportAll(h, old(store.table), items[..i]) && seen == Seen(h, items[..i])
      {
        assert items[..i + 1][..i] == items[..i] && items[..i + 1] == items[..i] + [items[i]];
        var matched := ImportOne(h, items[i]);
        if matched.Some? {
          seen := seen + {matched.value};
        }
      }
      assert items[..|items|] == items;
    }

    /** The second loop: brew rows that brew no longer lists become uninstalled, in any order. */
    method SweepStale(seen: set<string>)
      requires ValidTable(store.table)
      modifies store
      ensures store.table == Sweep(old(store.table), seen)
    {
      var rows := store.table;
      var todo := rows.Keys;
      while todo != {}
        invariant todo <= rows.Keys && rows == old(store.table)
        invariant store.table == map id | id in rows ::
                                   if id !in todo && Stale(seen, id, rows[id])
                                   then rows[id].(uninstalled := true, deleted := false) else rows[id]
        decreases todo
      {
        var id :| id in todo;
        var row := rows[id];
        if !row.deleted && !row.uninstalled && NormalizeManager(row.manager) == BREW && id !in seen {
          store.MarkSoftwareUninstalled(id);
        }
        todo := todo - {id};
      }
    }

    method SyncHostInstalls(h: Host, items: seq<Item>)
      requires ValidTable(store.table) && "" !in h.index.Values
      modifies store
      ensures store.table == Synced(h, old(store.table), items)
      ensures ValidTable(store.table)
    {
      var seen := ImportItems(h, items);
      ImportKeepsValid(h, old(store.table), items);
      SweepStale(seen);
    }
  }

  lemma {:induction false} ImportKeepsValid(h: Host, t: Table, items: seq<Item>)
    requires ValidTable(t)
    ensures ValidTable(ImportAll(h, t, items))
  {
    if items != [] {
      ImportKeepsValid(h, t, items[..|items| - 1]);
    }
  }

  // ------------------------------------------------------------------------ what an import amounts to

  /** The version the last item standing for a software picks, if any picks one. */
  function LastPick(h: Host, items: seq<Item>, id: string): Option<string> {
    if items == [] then None
    else
      var it := items[|items| - 1];
      if Picks(h, it, id) then Some(VersionFor(h, id, it.version))
      else LastPick(h, items[..|items| - 1], id)
  }

  /** One software's row after the import, from that row and the list alone. */
  function ImportedRow(h: Host, items: seq<Item>, id: string, row: Option<Row>): Option<Row> {
    if id == "" || OwnedLocally(row) || LastPick(h, items, id).None? then row
    else Some(Row(LastPick(h, items, id).value, BREW, false, false))
  }

  lemma BrewIsBrew()
    ensures NormalizeManager(BREW) == BREW
  {
    LowerIsFolded(BREW);
  }

  /** Whether an item sets a software's row, as far as the item itself decides. */
  predicate Picks(h: Host, it: Item, id: string) {
    Matched(h, it) == Some(id) && VersionFor(h, id, it.version) != ""
  }

  lemma ImportItemAt(h: Host, t: Table, it: Item, id: string)
    ensures Lookup(ImportItem(h, t, it), id) ==
            if id != "" && Picks(h, it, id) && !OwnedLocally(Lookup(t, id))
            then Some(Row(VersionFor(h, id, it.version), BREW, false, false)) else Lookup(t, id)
  {
    BrewIsBrew();
  }

  lemma BrewRowIsNotLocal(version: string)
    ensures !OwnedLocally(Some(Row(version, BREW, false, false)))
  {
    BrewIsBrew();
  }

  lemma {:induction false} ImportAt(h: Host, t: Table, items: seq<Item>, id: string)
    ensures Lookup(ImportAll(h, t, items), id) == ImportedRow(h, items, id, Lookup(t, id))
  {
    if items != [] {
      var k := |items| - 1;
      ImportAt(h, t, items[..k], id);
      ImportItemAt(h, ImportAll(h, t, items[..k]), items[k], id);
      if LastPick(h, items[..k], id).Some? {
        BrewRowIsNotLocal(LastPick(h, items[..k], id).value);
      }
    }
  }

  function SyncedRow(h: Host, items: seq<Item>, id: string, row: Option<Row>): Option<Row> {
    var imported := ImportedRow(h, items, id, row);
    if imported.Some? && Stale(Seen(h, items), id, imported.value)
    then Some(imported.value.(uninstalled := true, deleted := false)) else imported
  }

  lemma SyncedAt(h: Host, t: Table, items: seq<Item>, id: string)
    ensures Lookup(Synced(h, t, items), id) == SyncedRow(h, items, id, Lookup(t, id))
  {
    ImportAt(h, t, items, id);
  }

  /** A listed item stands for the first software in the catalog that goes by its name. */
  lemma MatchedMeans(rows: seq<Software>, h: Host, it: Item)
    requires h.index == IndexOf(rows)
    ensures Fold(it.name) == "" || ' ' in Fold(it.name) ==> Matched(h, it) == None
    ensures forall i: nat :: Fold(it.name) != "" && ' ' !in Fold(it.name) && FirstGoingBy(rows, i, Fold(it.name)) ==>
                          Matched(h, it) == Some(rows[i].id)
    ensures (forall sw :: sw in rows ==> !GoesBy(sw, Fold(it.name))) ==> Matched(h, it) == None
  {
    IndexIsScan(rows, Fold(it.name));
    forall i: nat | Fold(it.name) != "" && FirstGoingBy(rows, i, Fold(it.name))
      ensures Find(rows, Fold(it.name)) == Some(rows[i].id)
    {
      FindsFirst(rows, i, Fold(it.name));
    }
    if Fold(it.name) != "" && forall sw :: sw in rows ==> !GoesBy(sw, Fold(it.name)) {
      FindsNone(rows, Fold(it.name));
    }
  }

  /** Item k is the last one that stands for the software and has a version of it to record. */
  ghost predicate LastListed(h: Host, items: seq<Item>, k: nat, id: string) {
    && k < |items| && id in h.versions
    && Matched(h, items[k]) == Some(id) && PickVersion(h.versions[id], items[k].version) != ""
    && forall j :: k < j < |items| ==>
                     Matched(h, items[j]) != Some(id) || PickVersion(h.versions[id], items[j].version) == ""
  }

  lemma {:induction false} LastListedIsPicked(h: Host, items: seq<Item>, k: nat, id: string)
    requires LastListed(h, items, k, id)
    ensures LastPick(h, items, id) == Some(PickVersion(h.versions[id], items[k].version))
  {
    var n := |items| - 1;
    if k < n {
      assert LastListed(h, items[..n], k, id);
      LastListedIsPicked(h, items[..n], k, id);
    }
  }

  /** A row an import must leave alone: visible, installed, and not brew's. */
  predicate LocalRow(row: Row) {
    !row.deleted && !row.uninstalled && NormalizeManager(row.manager) == "local"
  }

  /** Unless it is actively local, a listed software ends up as brew's, at the version its last item picks. */
  lemma ListedIsInstalled(h: Host, t: Table, items: seq<Item>, k: nat, id: string)
    requires LastListed(h, items, k, id) && id != "" && !(id in t && LocalRow(t[id]))
    ensures Lookup(Synced(h, t, items), id) ==
            Some(Row(PickVersion(h.versions[id], items[k].version), "brew", false, false))
  {
    LastListedIsPicked(h, items, k, id);
    PickedIsSeen(h, items, id);
    SyncedAt(h, t, items, id);
  }

  lemma {:induction false} UnlistedIsNotPicked(h: Host, items: seq<Item>, id: string)
    requires forall it :: it in items ==> Matched(h, it) != Some(id)
    ensures LastPick(h, items, id) == None
  {
    if items != [] {
      var k := |items| - 1;
      assert items[k] in items;
      UnlistedIsNotPicked(h, items[..k], id);
    }
  }

  /** A software no item stands for is marked uninstalled if it was actively brew's, and left alone if not. */
  lemma UnlistedIsSwept(h: Host, t: Table, items: seq<Item>, id: string)
    requires forall it :: it in items ==> Matched(h, it) != Some(id)
    ensures Lookup(Synced(h, t, items), id) ==
            if id in t && !t[id].deleted && !t[id].uninstalled && NormalizeManager(t[id].manager) == "brew"
            then Some(t[id].(uninstalled := true)) else Lookup(t, id)
  {
    UnlistedIsNotPicked(h, items, id);
    SyncedAt(h, t, items, id);
  }

  /** An active brew row stays active while brew lists it, even if no version of it can be recorded. */
  lemma ListedStays(h: Host, t: Table, items: seq<Item>, id: string, it: Item)
    requires it in items && Matched(h, it) == Some(id)
    requires id in t && !t[id].deleted && !t[id].uninstalled && NormalizeManager(t[id].manager) == "brew"
    ensures var u := Synced(h, t, items);
            id in u && !u[id].deleted && !u[id].uninstalled && NormalizeManager(u[id].manager) == "brew"
  {
    BrewIsBrew();
    SyncedAt(h, t, items, id);
    assert id in Seen(h, items);
  }

  /** An active local install survives any import unchanged. */
  lemma LocalInstallsUntouched(h: Host, t: Table, items: seq<Item>, id: string)
    requires id in t && LocalRow(t[id])
    ensures Lookup(Synced(h, t, items), id) == Lookup(t, id)
  {
    SyncedAt(h, t, items, id);
  }

  /** After an import every active brew row is backed by a listed item. */
  lemma BrewRowsAreBacked(h: Host, t: Table, items: seq<Item>, id: string)
    requires id in Synced(h, t, items) && ActiveUnder(Synced(h, t, items)[id], BREW)
    ensures exists it :: it in items && Matched(h, it) == Some(id)
  {
    SyncedAt(h, t, items, id);
    assert id in Seen(h, items);
  }

  /** Importing the same list twice is importing it once. */
  lemma ImportFixpoint(h: Host, t: Table, items: seq<Item>)
    ensures Synced(h, Synced(h, t, items), items) == Synced(h, t, items)
  {
    BrewIsBrew();
    var once := Synced(h, t, items);
    forall id
      ensures Lookup(Synced(h, once, items), id) == Lookup(once, id)
    {
      SyncedAt(h, t, items, id);
      SyncedAt(h, once, items, id);
      PickedIsSeen(h, items, id);
    }
    SameLookups(Synced(h, once, items), once);
  }

  lemma {:induction false} PickedIsSeen(h: Host, items: seq<Item>, id: string)
    ensures LastPick(h, items, id).Some? ==> id in Seen(h, items)
  {
    if items != [] {
      var k := |items| - 1;
      assert items == items[..k] + [items[k]];
      PickedIsSeen(h, items[..k], id);
    }
  }

  lemma SweepIsUninstalls(t: Table, seen: set<string>) returns (ops: seq<Op>)
    requires ValidTable(t)
    ensures DoAll(t, ops) == Sweep(t, seen) && forall op :: op in ops ==> op.Uninstall?
  {
    var stale := set id | id in t && Stale(seen, id, t[id]);
    ops := UninstallAll(t, stale);
  }

  /** An import is nothing but brew installs and uninstalls, so every theorem about histories of
      operations covers histories with imports in them, even interrupted ones. */
  lemma ImportIsOperations(h: Host, t: Table, items: seq<Item>) returns (ops: seq<Op>)
    requires ValidTable(t)
    ensures DoAll(t, ops) == Synced(h, t, items)
    ensures forall op :: op in ops ==> op.Uninstall? || (op.Install? && op.manager == BREW)
  {
    var first := ImportOperations(h, t, items);
    ImportKeepsValid(h, t, items);
    var second := SweepIsUninstalls(ImportAll(h, t, items), Seen(h, items));
    ops := first + second;
    DoAllAppend(t, first, second);
  }

  lemma ItemIsOperation(h: Host, t: Table, it: Item) returns (ops: seq<Op>)
    ensures |ops| <= 1 && (forall op :: op in ops ==> op.Install? && op.manager == BREW)
    ensures ImportItem(h, t, it) == if ops == [] then t else Do(t, ops[0])
  {
    var id := Matched(h, it);
    if id.Some? && !OwnedLocally(Lookup(t, id.value)) {
      ops := [Install(id.value, VersionFor(h, id.value, it.version), BREW)];
    } else {
      ops := [];
    }
  }

  lemma {:induction false} ImportOperations(h: Host, t: Table, items: seq<Item>) returns (ops: seq<Op>)
    ensures DoAll(t, ops) == ImportAll(h, t, items)
    ensures forall op :: op in ops ==> op.Install? && op.manager == BREW
  {
    ops := [];
    if items != [] {
      var k := |items| - 1;
      ops := ImportOperations(h, t, items[..k]);
      var more := ItemIsOperation(h, ImportAll(h, t, items[..k]), items[k]);
      if more != [] {
        assert (ops + more)[..|ops|] == ops;
        ops := ops + more;
      }
    }
  }

  lemma {:induction false} UninstallAll(t: Table, ids: set<string>) returns (ops: seq<Op>)
    requires ids <= t.Keys && "" !in ids
    ensures forall op :: op in ops ==> op.Uninstall?
    ensures DoAll(t, ops) ==
            map id | id in t :: if id in ids then t[id].(uninstalled := true, deleted := false) else t[id]
    decreases ids
  {
    ops := [];
    if ids != {} {
      var id :| id in ids;
      ops := UninstallAll(t, ids - {id});
      assert (ops + [Uninstall(id)])[..|ops|] == ops;
      ops := ops + [Uninstall(id)];
    }
  }
}
