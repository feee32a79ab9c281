/** The row fingerprint: rows sorted by name, each written as three NUL-terminated fields, and
    hashed. The hash is a parameter; lemmas that need it injective say so. */
module Fingerprints {
  import opened Text

  /** One row of the variables table, with the columns the sync reads. */
  datatype Row = Row(name: string, value: string, isDisabled: bool, isCore: bool)

  /** What the fingerprint sees of a row. */
  datatype Entry = Entry(name: string, value: string, isDisabled: bool)

  type Hash = string -> string

  ghost predicate Injective(hash: Hash) {
    forall a, b :: hash(a) == hash(b) ==> a == b
  }

  function EntryOf(row: Row): Entry {
    Entry(row.name, row.value, row.isDisabled)
  }

  function Entries(rows: seq<Row>): (r: seq<Entry>)
    ensures |r| == |rows| && forall i :: 0 <= i < |rows| ==> r[i] == EntryOf(rows[i])
  {
    seq(|rows|, i requires 0 <= i < |rows| => EntryOf(rows[i]))
  }

  /** Byte-wise order of names. */
  predicate Below(a: string, b: string) {
    b != "" && (a == "" || a[0] < b[0] || (a[0] == b[0] && Below(a[1..], b[1..])))
  }

  lemma {:induction false} BelowTotal(a: string, b: string)
    ensures a == b || Below(a, b) || Below(b, a)
    ensures !(Below(a, b) && Below(b, a)) && !Below(a, a)
  {
    if a != "" {
      BelowTotal(a[1..], a[1..]);
    }
    if a != "" && b != "" {
      BelowTotal(a[1..], b[1..]);
      assert a == [a[0]] + a[1..] && b == [b[0]] + b[1..];
    }
  }

  lemma {:induction false} BelowTransitive(a: string, b: string, c: string)
    requires Below(a, b) && Below(b, c)
    ensures Below(a, c)
  {
    if a != "" && a[0] == b[0] == c[0] {
      BelowTransitive(a[1..], b[1..], c[1..]);
    }
  }

  ghost predicate Sorted(es: seq<Entry>) {
    forall i, j :: 0 <= i < j < |es| ==> Below(es[i].name, es[j].name)
  }

  ghost predicate DistinctNames(es: seq<Entry>) {
    forall i, j :: 0 <= i < j < |es| ==> es[i].name != es[j].name
  }

  ghost function Content(es: seq<Entry>): set<Entry> {
    set e | e in es
  }

  function Insert(e: Entry, es: seq<Entry>): seq<Entry> {
    if es == [] || Below(e.name, es[0].name) then [e] + es else [es[0]] + Insert(e, es[1..])
  }

  function SortByName(es: seq<Entry>): seq<Entry> {
    if es == [] then [] else Insert(es[0], SortByName(es[1..]))
  }

  lemma {:induction false} InsertContent(e: Entry, es: seq<Entry>)
    ensures Content(Insert(e, es)) == Content(es) + {e}
  {
    if es != [] && !Below(e.name, es[0].name) {
      InsertContent(e, es[1..]);
      assert es == [es[0]] + es[1..];
      assert Content(es) == Content(es[1..]) + {es[0]};
      var r := Insert(e, es[1..]);
      assert Content([es[0]] + r) == Content(r) + {es[0]};
    } else {
      assert Content([e] + es) == Content(es) + {e};
    }
  }

  lemma {:induction false} InsertSorted(e: Entry, es: seq<Entry>)
    requires Sorted(es) && forall x :: x in es ==> x.name != e.name
    ensures Sorted(Insert(e, es))
  {
    if es == [] {
    } else if Below(e.name, es[0].name) {
      forall j | 0 < j < |es|
        ensures Below(e.name, es[j].name)
      {
        BelowTransitive(e.name, es[0].name, es[j].name);
      }
    } else {
      BelowTotal(e.name, es[0].name);
      var r := Insert(e, es[1..]);
      InsertSorted(e, es[1..]);
      InsertContent(e, es[1..]);
      forall j | 0 <= j < |r|
        ensures Below(es[0].name, r[j].name)
      {
        assert r[j] in Content(r);
        assert r[j] == e || r[j] in es[1..];
      }
    }
  }

  /** The sort orders the entries by name and keeps exactly the entries it was given. */
  lemma {:induction false} SortByNameSorts(es: seq<Entry>)
    requires DistinctNames(es)
    ensures Sorted(SortByName(es)) && Content(SortByName(es)) == Content(es)
  {
    if es != [] {
      var tail := SortByName(es[1..]);
      SortByNameSorts(es[1..]);
      forall x | x in tail
        ensures x.name != es[0].name
      {
        assert x in Content(tail);
        assert x in es[1..];
      }
      InsertSorted(es[0], tail);
      InsertContent(es[0], tail);
      assert es == [es[0]] + es[1..];
      assert Content(es) == Content(es[1..]) + {es[0]};
    }
  }

  lemma EmptyContent(es: seq<Entry>)
    ensures Content(es) == {} <==> es == []
  {
    if es != [] {
      assert es[0] in Content(es);
    }
  }

  /** There is one way to arrange a set of entries by strictly increasing name, so the result
      does not depend on the sorting algorithm or on the order the rows came in. */
  lemma {:induction false} SortedIsUnique(a: seq<Entry>, b: seq<Entry>)
    requires Sorted(a) && Sorted(b) && Content(a) == Content(b)
    ensures a == b
  {
    if a == [] {
      EmptyContent(b);
    } else {
      assert a[0] in Content(b);
      assert b != [];
      assert b[0] in Content(a);
      var i :| 0 <= i < |b| && b[i] == a[0];
      var j :| 0 <= j < |a| && a[j] == b[0];
      BelowTotal(a[0].name, b[0].name);
      assert a[0] == b[0];
      forall e
        ensures e in Content(a[1..]) <==> e in Content(b[1..])
      {
        TailContent(a, e);
        TailContent(b, e);
      }
      SortedIsUnique(a[1..], b[1..]);
      assert a == [a[0]] + a[1..] && b == [b[0]] + b[1..];
    }
  }

  lemma TailContent(a: seq<Entry>, e: Entry)
    requires Sorted(a) && a != []
    ensures e in Content(a[1..]) <==> e in Content(a) && e != a[0]
  {
    BelowTotal(a[0].name, a[0].name);
    assert a == [a[0]] + a[1..];
  }

  /** The bytes hashed for one row: name, value and disabled flag, each closed by a NUL. */
  function Record(e: Entry): string {
    e.name + [NUL] + e.value + [NUL] + (if e.isDisabled then "1" else "0") + [NUL]
  }

  function Message(es: seq<Entry>): string {
    if es == [] then "" else Record(es[0]) + Message(es[1..])
  }

  lemma {:induction false} MessageAppend(es: seq<Entry>, e: Entry)
    ensures Message(es + [e]) == Message(es) + Record(e)
  {
    if es == [] {
      assert [e][1..] == [];
    } else {
      MessageAppend(es[1..], e);
      assert (es + [e])[1..] == es[1..] + [e];
    }
  }

  function Fingerprint(hash: Hash, rows: seq<Row>): string {
    hash(Message(SortByName(Entries(rows))))
  }

  predicate Clean(e: Entry) {
    NUL !in e.name && NUL !in e.value
  }

  lemma RecordSplits(a: Entry, p: string, b: Entry, q: string)
    requires Clean(a) && Clean(b) && Record(a) + p == Record(b) + q
    ensures a == b && p == q
  {
    var fa, fb := if a.isDisabled then "1" else "0", if b.isDisabled then "1" else "0";
    var va, vb := fa + [NUL] + p, fb + [NUL] + q;
    var na, nb := a.value + [NUL] + va, b.value + [NUL] + vb;
    assert Record(a) + p == a.name + [NUL] + na;
    assert Record(b) + q == b.name + [NUL] + nb;
    CutAt(NUL, a.name, na, b.name, nb);
    CutAt(NUL, a.value, va, b.value, vb);
    CutAt(NUL, fa, p, fb, q);
    assert fa[0] == fb[0];
  }

  /** The hashed bytes can be read back: two clean entry lists with the same bytes are equal. */
  lemma {:induction false} MessageInjective(a: seq<Entry>, b: seq<Entry>)
    requires forall e :: e in a || e in b ==> Clean(e)
    requires Message(a) == Message(b)
    ensures a == b
  {
    if a == [] || b == [] {
      assert Message(a) == "" <==> a == [];
      assert Message(b) == "" <==> b == [];
    } else {
      RecordSplits(a[0], Message(a[1..]), b[0], Message(b[1..]));
      MessageInjective(a[1..], b[1..]);
      assert a == [a[0]] + a[1..] && b == [b[0]] + b[1..];
    }
  }

  /** Rows as the table can hold them: unique names, no NUL in a name or a value. */
  ghost predicate Proper(rows: seq<Row>) {
    DistinctNames(Entries(rows)) && forall e :: e in Entries(rows) ==> Clean(e)
  }

  /** Equal fingerprints mean the same (name, value, disabled) triples, and the other way round,
      whatever order the rows are in. */
  lemma FingerprintDetermines(hash: Hash, a: seq<Row>, b: seq<Row>)
    requires Injective(hash) && Proper(a) && Proper(b)
    ensures Fingerprint(hash, a) == Fingerprint(hash, b) <==>
            Content(Entries(a)) == Content(Entries(b))
  {
    var sa, sb := SortByName(Entries(a)), SortByName(Entries(b));
    SortByNameSorts(Entries(a));
    SortByNameSorts(Entries(b));
    if Fingerprint(hash, a) == Fingerprint(hash, b) {
      assert Message(sa) == Message(sb);
      forall e | e in sa || e in sb
        ensures Clean(e)
      {
        assert e in Content(sa) || e in Content(sb);
        assert e in Entries(a) || e in Entries(b);
      }
      MessageInjective(sa, sb);
    }
    if Content(Entries(a)) == Content(Entries(b)) {
      SortedIsUnique(sa, sb);
    }
  }

  /** Rows as a load returns them: proper, and ordered by name. */
  ghost predicate Loaded(rows: seq<Row>) {
    Sorted(Entries(rows)) && forall e :: e in Entries(rows) ==> Clean(e)
  }

  lemma LoadedIsProper(rows: seq<Row>)
    requires Loaded(rows)
    ensures Proper(rows)
  {
    var es := Entries(rows);
    forall i, j | 0 <= i < j < |es|
      ensures es[i].name != es[j].name
    {
      BelowTotal(es[i].name, es[j].name);
    }
  }

  /** For loaded rows the fingerprint determines the whole list of triples, in order. */
  lemma FingerprintDeterminesLoaded(hash: Hash, a: seq<Row>, b: seq<Row>)
    requires Injective(hash) && Loaded(a) && Loaded(b)
    ensures Fingerprint(hash, a) == Fingerprint(hash, b) <==> Entries(a) == Entries(b)
  {
    LoadedIsProper(a);
    LoadedIsProper(b);
    FingerprintDetermines(hash, a, b);
    if Fingerprint(hash, a) == Fingerprint(hash, b) {
      SortedIsUnique(Entries(a), Entries(b));
    }
  }

  /** A NUL inside a value defeats the fingerprint: one row can imitate two. */
  lemma NulForgesRows(hash: Hash)
    ensures var one := [Row("A", ['x', NUL, '0', NUL, 'B', NUL, 'y'], false, false)];
            var two := [Row("A", "x", false, false), Row("B", "y", false, false)];
            && Fingerprint(hash, one) == Fingerprint(hash, two)
            && Content(Entries(one)) != Content(Entries(two))
  {
    var v := ['x', NUL, '0', NUL, 'B', NUL, 'y'];
    var one := [Row("A", v, false, false)];
    var two := [Row("A", "x", false, false), Row("B", "y", false, false)];
    var f, a, b := Entry("A", v, false), Entry("A", "x", false), Entry("B", "y", false);
    assert Entries(one) == [f] && Entries(two) == [a, b];
    assert [f][1..] == [] && [a, b][1..] == [b] && [b][1..] == [];
    assert SortByName([]) == [];
    assert SortByName([b]) == [b];
    assert Below("A", "B");
    assert SortByName([a, b]) == [a, b];
    assert SortByName([f]) == [f];
    assert Message([f]) == Record(f) + Message([]);
    assert Message([a, b]) == Record(a) + Message([b]);
    assert Message([b]) == Record(b) + Message([]);
    assert Message([]) == "";
    assert Record(a) + (Record(b) + "") == Record(f) + "";
    assert Message([f]) == Message([a, b]);
    assert a in Content([a, b]);
    assert a != f;
    assert a !in Content([f]);
  }
}
