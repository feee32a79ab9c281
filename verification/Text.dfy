/** The string helpers the modelled packages share. Letters fold and blanks are recognised as
    in ASCII. */
module Text {

  const NUL: char := '\0'

  predicate IsSpace(c: char) {
    c == ' ' || c == '\t' || c == '\n' || c == '\r' || c == '\U{0B}' || c == '\U{0C}'
  }

  function TrimLeft(s: string): string {
    if s == "" || !IsSpace(s[0]) then s else TrimLeft(s[1..])
  }

  function TrimRight(s: string): string {
    if s == "" || !IsSpace(s[|s| - 1]) then s else TrimRight(s[..|s| - 1])
  }

  /** Drops the blanks at both ends. */
  function Trim(s: string): string {
    TrimRight(TrimLeft(s))
  }

  predicate Trimmed(s: string) {
    s == "" || (!IsSpace(s[0]) && !IsSpace(s[|s| - 1]))
  }

  lemma {:induction false} TrimLeftSuffix(s: string)
    ensures var r := TrimLeft(s); |r| <= |s| && r == s[|s| - |r|..] && (r == "" || !IsSpace(r[0]))
  {
    if s != "" && IsSpace(s[0]) { TrimLeftSuffix(s[1..]); }
  }

  lemma {:induction false} TrimRightPrefix(s: string)
    ensures var r := TrimRight(s); |r| <= |s| && r == s[..|r|] && (r == "" || !IsSpace(r[|r| - 1]))
  {
    if s != "" && IsSpace(s[|s| - 1]) { TrimRightPrefix(s[..|s| - 1]); }
  }

  /** What trimming leaves is a trimmed piece of the text. */
  lemma TrimTrims(s: string)
    ensures Trimmed(Trim(s)) && forall c :: c in Trim(s) ==> c in s
  {
    TrimLeftSuffix(s);
    TrimRightPrefix(TrimLeft(s));
  }

  const BLANKS: string := [' ', '\t', '\n', '\r', '\U{0B}', '\U{0C}']

  predicate AllBlank(s: string) {
    forall c :: c in s ==> c in BLANKS
  }

  lemma {:induction false} TrimLeftDropsBlanks(s: string) returns (a: string)
    ensures s == a + TrimLeft(s) && AllBlank(a)
  {
    a := "";
    if s != "" && IsSpace(s[0]) {
      var rest := TrimLeftDropsBlanks(s[1..]);
      a := [s[0]] + rest;
      assert s == [s[0]] + s[1..];
    }
  }

  lemma {:induction false} TrimRightDropsBlanks(s: string) returns (b: string)
    ensures s == TrimRight(s) + b && AllBlank(b)
  {
    b := "";
    if s != "" && IsSpace(s[|s| - 1]) {
      var rest := TrimRightDropsBlanks(s[..|s| - 1]);
      b := rest + [s[|s| - 1]];
      assert s == s[..|s| - 1] + [s[|s| - 1]];
    }
  }

  /** Trimming drops blanks at the two ends and nothing else. */
  lemma TrimDropsBlanks(s: string) returns (a: string, b: string)
    ensures s == a + Trim(s) + b && AllBlank(a) && AllBlank(b)
    ensures Trim(s) != "" ==> Trim(s)[0] !in BLANKS && Trim(s)[|Trim(s)| - 1] !in BLANKS
  {
    a := TrimLeftDropsBlanks(s);
    b := TrimRightDropsBlanks(TrimLeft(s));
    assert a + (Trim(s) + b) == a + Trim(s) + b;
    TrimTrims(s);
  }

  lemma TrimFixed(s: string)
    ensures Trim(s) == s <==> Trimmed(s)
  {
    TrimTrims(s);
  }

  function UpperChar(c: char): char {
    if 'a' <= c <= 'z' then c - 'a' + 'A' else c
  }

  function LowerChar(c: char): char {
    if 'A' <= c <= 'Z' then c - 'A' + 'a' else c
  }

  const SMALL: string := "abcdefghijklmnopqrstuvwxyz"
  const CAPITAL: string := "ABCDEFGHIJKLMNOPQRSTUVWXYZ"

  /** The two cases correspond letter by letter, and nothing else is folded. */
  lemma CasesCorrespond(c: char)
    ensures forall i :: 0 <= i < 26 ==> UpperChar(SMALL[i]) == CAPITAL[i] && LowerChar(CAPITAL[i]) == SMALL[i]
    ensures c !in SMALL ==> UpperChar(c) == c
    ensures c !in CAPITAL ==> LowerChar(c) == c
  {
    Alphabets();
    if 'a' <= c <= 'z' { assert SMALL[(c - 'a') as int] == c; }
    if 'A' <= c <= 'Z' { assert CAPITAL[(c - 'A') as int] == c; }
  }

  lemma Alphabets()
    ensures |SMALL| == |CAPITAL| == 26
    ensures forall i :: 0 <= i < 26 ==> SMALL[i] == 'a' + i as char && CAPITAL[i] == 'A' + i as char
  {
  }

  function ReplaceChar(c: char, from: char, to: char): char {
    if c == from then to else c
  }

  function Upper(s: string): string {
    if s == "" then "" else [UpperChar(s[0])] + Upper(s[1..])
  }

  function Lower(s: string): string {
    if s == "" then "" else [LowerChar(s[0])] + Lower(s[1..])
  }

  function Replace(s: string, from: char, to: char): string {
    if s == "" then "" else [ReplaceChar(s[0], from, to)] + Replace(s[1..], from, to)
  }

  lemma {:induction false} UpperAt(s: string)
    ensures |Upper(s)| == |s| && forall i :: 0 <= i < |s| ==> Upper(s)[i] == UpperChar(s[i])
  {
    if s != "" { UpperAt(s[1..]); }
  }

  lemma {:induction false} LowerAt(s: string)
    ensures |Lower(s)| == |s| && forall i :: 0 <= i < |s| ==> Lower(s)[i] == LowerChar(s[i])
  {
    if s != "" { LowerAt(s[1..]); }
  }

  lemma {:induction false} ReplaceAt(s: string, from: char, to: char)
    ensures |Replace(s, from, to)| == |s|
    ensures forall i :: 0 <= i < |s| ==> Replace(s, from, to)[i] == ReplaceChar(s[i], from, to)
  {
    if s != "" { ReplaceAt(s[1..], from, to); }
  }

  /** The key a name is folded to before it is looked up: trimmed, then lower-cased. */
  function Fold(s: string): string {
    Lower(Trim(s))
  }

  lemma LowerIsFolded(s: string)
    requires Trimmed(s) && forall c :: c in s ==> LowerChar(c) == c
    ensures Fold(s) == s
  {
    TrimFixed(s);
    LowerAt(s);
    assert Lower(s) == s;
  }

  /** Nothing is left exactly of blanks. */
  lemma TrimsToNothing(s: string)
    ensures Trim(s) == "" <==> AllBlank(s)
  {
    var a, b := TrimDropsBlanks(s);
    assert Trim(s) != "" ==> Trim(s)[0] in a + Trim(s) + b;
  }

  lemma LongerFieldDiffers(c: char, x: string, p: string, y: string, q: string)
    requires c !in y && |x| < |y|
    ensures x + [c] + p != y + [c] + q
  {
    assert (x + [c] + p)[|x|] == c && (y + [c] + q)[|x|] == y[|x|];
  }

  /** A separator cuts a text in one way only, if the field before it does not hold it. */
  lemma CutAt(c: char, x: string, p: string, y: string, q: string)
    requires c !in x && c !in y
    requires x + [c] + p == y + [c] + q
    ensures x == y && p == q
  {
    var l, r := x + [c] + p, y + [c] + q;
    if |x| < |y| {
      LongerFieldDiffers(c, x, p, y, q);
      assert false;
    } else if |y| < |x| {
      LongerFieldDiffers(c, y, q, x, p);
      assert false;
    } else {
      assert x == l[..|x|] && y == r[..|y|];
      assert p == l[|x| + 1..] && q == r[|y| + 1..];
    }
  }
}
