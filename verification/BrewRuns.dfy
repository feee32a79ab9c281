/** An import of the brew list read by read and write by write, with any other operation on the install
    table between them, as when requests are served while it runs. */
module BrewRuns {
  import opened Text
  import opened Options
  import opened InstallOwnership
  import opened BrewSync

  /** Where the import is: at the items still to come, about to write a row it read, or marking the rows it
      listed as stale. `seen` are the software matched so far. */
  datatype Phase =
    | Items(rest: seq<Item>, seen: set<string>)
    | Writing(id: string, versionID: string, rest: seq<Item>, seen: set<string>)
    | Marking(todo: set<string>)

  datatype World = World(table: Table, phase: Phase)

  datatype Action =
    | Other(op: Op)
    | ReadItem
    | WriteItem
    | ListRows
    | Mark(id: string)

  predicate Enabled(w: World, a: Action) {
    match a
    case Other(_) => true
    case ReadItem => w.phase.Items? && w.phase.rest != []
    case WriteItem => w.phase.Writing?
    case ListRows => w.phase.Items? && w.phase.rest == []
    case Mark(id) => w.phase.Marking? && id in w.phase.todo
  }

  function Done(w: World): bool {
    w.phase.Marking? && w.phase.todo == {}
  }

  /** The row of an item is read and judged; what it leads to is written in a later step. */
  function DoRead(h: Host, w: World): World
    requires w.phase.Items? && w.phase.rest != []
  {
    var it, rest := w.phase.rest[0], w.phase.rest[1..];
    match Matched(h, it)
    case None => w.(phase := Items(rest, w.phase.seen))
    case Some(id) =>
      var seen, version := w.phase.seen + {id}, VersionFor(h, id, it.version);
      if OwnedLocally(Lookup(w.table, id)) || version == "" then w.(phase := Items(rest, seen))
      else w.(phase := Writing(id, version, rest, seen))
  }

  function StaleIds(t: Table, seen: set<string>): set<string> {
    set id | id in t && Stale(seen, id, t[id])
  }

  function Next(h: Host, w: World, a: Action): World
    requires Enabled(w, a)
  {
    match a
    case Other(op) => w.(table := Do(w.table, op))
    case ReadItem => DoRead(h, w)
    case WriteItem =>
      World(Do(w.table, Install(w.phase.id, w.phase.versionID, BREW)), Items(w.phase.rest, w.phase.seen))
    case ListRows => w.(phase := Marking(StaleIds(w.table, w.phase.seen)))
    case Mark(id) => World(Do(w.table, Uninstall(id)), Marking(w.phase.todo - {id}))
  }

  ghost predicate Path(h: Host, ws: seq<World>, acts: seq<Action>) {
    && |ws| == |acts| + 1
    && (forall i {:trigger acts[i]} :: 0 <= i < |acts| ==>
          Enabled(ws[i], acts[i]) && ws[i + 1] == Next(h, ws[i], acts[i]))
  }

  function Start(t: Table, items: seq<Item>): World {
    World(t, Items(items, {}))
  }

  // ------------------------------------------------------- undisturbed, it is the atomic import

  /** What the import has done by now, counted in items; `done` are those behind it. */
  ghost predicate AloneInv(h: Host, t: Table, items: seq<Item>, w: World, done: seq<Item>) {
    match w.phase
    case Items(rest, seen) =>
      items == done + rest && w.table == ImportAll(h, t, done) && seen == Seen(h, done)
    case Writing(id, version, rest, seen) =>
      && done != [] && items == done + rest && seen == Seen(h, done)
      && w.table == ImportAll(h, t, done[..|done| - 1])
      && Do(w.table, Install(id, version, BREW)) == ImportAll(h, t, done)
    case Marking(todo) =>
      && done == items && todo <= StaleIds(ImportAll(h, t, items), Seen(h, items))
      && w.table == Marked(ImportAll(h, t, items), StaleIds(ImportAll(h, t, items), Seen(h, items)) - todo)
  }

  /** The table with these rows marked uninstalled. */
  function Marked(t: Table, ids: set<string>): Table {
    map id | id in t :: if id in ids then t[id].(uninstalled := true, deleted := false) else t[id]
  }

  lemma SeenMore(h: Host, done: seq<Item>, it: Item)
    ensures Seen(h, done + [it]) == Seen(h, done) + if Matched(h, it).Some? then {Matched(h, it).value} else {}
  {
  }

  lemma ImportMore(h: Host, t: Table, done: seq<Item>, it: Item)
    ensures ImportAll(h, t, done + [it]) == ImportItem(h, ImportAll(h, t, done), it)
  {
    assert (done + [it])[..|done|] == done;
  }

  lemma ReadAlone(h: Host, t: Table, items: seq<Item>, w: World, done: seq<Item>)
    requires AloneInv(h, t, items, w, done) && Enabled(w, ReadItem)
    ensures AloneInv(h, t, items, DoRead(h, w), done + [w.phase.rest[0]])
  {
    var it := w.phase.rest[0];
    assert done + w.phase.rest == (done + [it]) + w.phase.rest[1..];
    assert (done + [it])[..|done|] == done;
    SeenMore(h, done, it);
    ImportMore(h, t, done, it);
  }

  lemma ListAlone(h: Host, t: Table, items: seq<Item>, w: World, done: seq<Item>)
    requires AloneInv(h, t, items, w, done) && Enabled(w, ListRows)
    ensures AloneInv(h, t, items, Next(h, w, ListRows), items)
  {
    assert done + [] == done;
    assert Marked(w.table, {}) == w.table;
  }

  lemma MarkAlone(h: Host, t: Table, items: seq<Item>, w: World, id: string)
    requires AloneInv(h, t, items, w, items) && Enabled(w, Mark(id)) && ValidTable(t)
    ensures AloneInv(h, t, items, Next(h, w, Mark(id)), items)
  {
    var all := ImportAll(h, t, items);
    var stale := StaleIds(all, Seen(h, items));
    ImportKeepsValid(h, t, items);
    assert id in all && id != "";
    assert stale - (w.phase.todo - {id}) == (stale - w.phase.todo) + {id};
    MarkMore(all, stale - w.phase.todo, id);
  }

  lemma MarkMore(t: Table, ids: set<string>, id: string)
    requires id in t && id != ""
    ensures Do(Marked(t, ids), Uninstall(id)) == Marked(t, ids + {id})
  {
  }

  lemma AloneStep(h: Host, t: Table, items: seq<Item>, w: World, done: seq<Item>, a: Action) returns (more: seq<Item>)
    requires AloneInv(h, t, items, w, done) && Enabled(w, a) && !a.Other? && ValidTable(t)
    ensures AloneInv(h, t, items, Next(h, w, a), more)
  {
    match a
    case ReadItem =>
      ReadAlone(h, t, items, w, done);
      more := done + [w.phase.rest[0]];
    case WriteItem =>
      more := done;
    case ListRows =>
      ListAlone(h, t, items, w, done);
      more := items;
    case Mark(id) =>
      MarkAlone(h, t, items, w, id);
      more := items;
  }

  lemma {:induction false} AloneRun(h: Host, t: Table, items: seq<Item>, ws: seq<World>, acts: seq<Action>, i: nat)
    returns (done: seq<Item>)
    requires Path(h, ws, acts) && ws[0] == Start(t, items) && i < |ws| && ValidTable(t)
    requires forall k :: 0 <= k < |acts| ==> !acts[k].Other?
    ensures AloneInv(h, t, items, ws[i], done)
  {
    if i == 0 {
      done := [];
      assert [] + items == items;
    } else {
      var a := acts[i - 1];
      done := AloneRun(h, t, items, ws, acts, i - 1);
      done := AloneStep(h, t, items, ws[i - 1], done, a);
    }
  }

  /** With nothing in between, the steps leave the table of the atomic import, in whatever order the stale
      rows are marked. */
  lemma AloneIsSynced(h: Host, t: Table, items: seq<Item>, ws: seq<World>, acts: seq<Action>)
    requires Path(h, ws, acts) && ws[0] == Start(t, items) && Done(ws[|acts|]) && ValidTable(t)
    requires forall k :: 0 <= k < |acts| ==> !acts[k].Other?
    ensures ws[|acts|].table == Synced(h, t, items)
  {
    var done := AloneRun(h, t, items, ws, acts, |acts|);
  }

  // ---------------------------------------------------------- which local installs it can take away

  predicate Local(w: World, id: string) {
    OwnedLocally(Lookup(w.table, id))
  }

  /** The import is going to write to the row of this software without looking at it again. */
  predicate Doomed(w: World, id: string) {
    || (w.phase.Writing? && w.phase.id == id && id != "")
    || (w.phase.Marking? && id in w.phase.todo && id != "")
  }

  ghost predicate LocalThroughout(ws: seq<World>, id: string, i: nat, j: nat) {
    forall k :: i <= k <= j && k < |ws| ==> Local(ws[k], id)
  }

  lemma LocalIsNotStale(seen: set<string>, id: string, row: Row)
    requires OwnedLocally(Some(row))
    ensures !Stale(seen, id, row)
  {
  }

  /** A software that is local when the import reads or lists it does not become doomed. */
  lemma DoomedStep(h: Host, w: World, a: Action, id: string)
    requires Enabled(w, a) && Local(w, id) && Doomed(Next(h, w, a), id)
    ensures Doomed(w, id)
  {
    if a.ListRows? {
      LocalIsNotStale(w.phase.seen, id, w.table[id]);
    }
  }

  /** An import step that ends a local ownership was going to. */
  lemma TakingStep(h: Host, w: World, a: Action, id: string)
    requires Enabled(w, a) && !a.Other? && Local(w, id) && !Local(Next(h, w, a), id)
    ensures Doomed(w, id)
  {
  }

  lemma {:induction false} DoomedBefore(h: Host, ws: seq<World>, acts: seq<Action>, id: string, i: nat, j: nat)
    requires Path(h, ws, acts) && i <= j < |ws| && LocalThroughout(ws, id, i, j) && Doomed(ws[j], id)
    ensures Doomed(ws[i], id)
  {
    if i < j {
      var a := acts[j - 1];
      DoomedStep(h, ws[j - 1], a, id);
      DoomedBefore(h, ws, acts, id, i, j - 1);
    }
  }

  /** In every run, if a software is actively local from state i up to an import step that ends this, the
      import had read or listed its row before state i: local installs it finds are never taken. */
  lemma OnlyDoomedAreTaken(h: Host, ws: seq<World>, acts: seq<Action>, id: string, i: nat, j: nat)
    requires Path(h, ws, acts) && i <= j < |acts| && LocalThroughout(ws, id, i, j)
    requires !acts[j].Other? && !Local(ws[j + 1], id)
    ensures Doomed(ws[i], id)
  {
    var a := acts[j];
    TakingStep(h, ws[j], a, id);
    DoomedBefore(h, ws, acts, id, i, j);
  }

  /** Some continuation keeps the software local until an import step ends it. */
  ghost predicate CanTake(h: Host, w: World, id: string) {
    exists ws, acts :: Takes(h, w, id, ws, acts)
  }

  ghost predicate Takes(h: Host, w: World, id: string, ws: seq<World>, acts: seq<Action>) {
    && Path(h, ws, acts) && ws[0] == w && acts != [] && LocalThroughout(ws, id, 0, |acts| - 1)
    && !acts[|acts| - 1].Other? && !Local(ws[|acts|], id)
  }

  lemma DoomedIsTaken(h: Host, w: World, id: string)
    requires Local(w, id) && Doomed(w, id) && (w.phase.Writing? ==> w.phase.versionID != "")
    ensures CanTake(h, w, id)
  {
    var a := if w.phase.Writing? then WriteItem else Mark(id);
    var v := Next(h, w, a);
    if w.phase.Writing? {
      BrewRowIsNotLocal(w.phase.versionID);
      BrewIsBrew();
    }
    assert !Local(v, id);
    assert Path(h, [w, v], [a]);
    assert Takes(h, w, id, [w, v], [a]);
  }

  /** The import never writes an install without a version. */
  ghost predicate VersionInv(w: World) {
    w.phase.Writing? ==> w.phase.versionID != ""
  }

  lemma {:induction false} PathKeepsVersion(h: Host, ws: seq<World>, acts: seq<Action>, i: nat)
    requires Path(h, ws, acts) && VersionInv(ws[0]) && i < |ws|
    ensures VersionInv(ws[i])
  {
    if i > 0 {
      var a := acts[i - 1];
      PathKeepsVersion(h, ws, acts, i - 1);
      assert ws[i] == Next(h, ws[i - 1], a);
    }
  }

  /** A software that is actively local now can lose this to the import, while it is local, exactly if the
      import has judged its row already: one that becomes local before the import reads it is safe. */
  lemma CanTakeIff(h: Host, w: World, id: string)
    requires Local(w, id) && VersionInv(w)
    ensures CanTake(h, w, id) <==> Doomed(w, id)
  {
    if ws, acts :| Takes(h, w, id, ws, acts) {
      OnlyDoomedAreTaken(h, ws, acts, id, 0, |acts| - 1);
    }
    if Doomed(w, id) {
      DoomedIsTaken(h, w, id);
    }
  }

  /** It happens: the import reads that a software is not installed, a request installs it locally, and the
      import makes it brew's. */
  lemma LocalInstallStolen(h: Host, t: Table, it: Item, id: string)
    requires Matched(h, it) == Some(id) && id != "" && id !in t && VersionFor(h, id, it.version) != ""
    ensures var read := Next(h, Start(t, [it]), ReadItem);
            var installed := Next(h, read, Other(Install(id, "v", LOCAL)));
            && Local(installed, id) && Enabled(installed, WriteItem)
            && ActiveUnder(Next(h, installed, WriteItem).table[id], BREW)
  {
    BrewIsBrew();
    LocalIsLocal();
  }

  lemma LocalIsLocal()
    ensures NormalizeManager(LOCAL) == LOCAL
  {
    LowerIsFolded(LOCAL);
  }
}
