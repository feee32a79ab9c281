/** Sanitizing a name into one segment of a registry path, and what sanitizing it again does. */
module Segments {
  import opened Text

  /** Removes ".." from the left, without looking again at what closes up. */
  function RemoveDots(s: string): string {
    if s == "" then ""
    else if |s| > 1 && s[0] == '.' && s[1] == '.' then RemoveDots(s[2..])
    else [s[0]] + RemoveDots(s[1..])
  }

  function RemoveChar(s: string, c: char): string {
    if s == "" then "" else (if s[0] == c then "" else [s[0]]) + RemoveChar(s[1..], c)
  }

  /** The text just before slashes and backslashes are removed. */
  function BeforeSlashes(s: string): string {
    RemoveDots(Replace(Lower(Trim(s)), ' ', '-'))
  }

  function Sanitize(s: string): string {
    RemoveChar(RemoveChar(BeforeSlashes(s), '/'), '\\')
  }

  ghost predicate HasDots(s: string) {
    exists i :: 0 <= i < |s| - 1 && s[i] == '.' && s[i + 1] == '.'
  }

  predicate SegmentChar(c: char) {
    LowerChar(c) == c && c != ' ' && c != '/' && c != '\\'
  }

  ghost predicate IsSegment(s: string) {
    Trimmed(s) && !HasDots(s) && forall c :: c in s ==> SegmentChar(c)
  }

  lemma {:induction false} RemoveDotsKeeps(s: string)
    ensures |RemoveDots(s)| <= |s|
    ensures |RemoveDots(s)| == |s| <==> !HasDots(s)
    ensures |RemoveDots(s)| == |s| ==> RemoveDots(s) == s
  {
    if s != "" {
      if |s| > 1 && s[0] == '.' && s[1] == '.' {
        RemoveDotsKeeps(s[2..]);
        assert HasDots(s);
      } else {
        RemoveDotsKeeps(s[1..]);
        assert s == [s[0]] + s[1..];
        if HasDots(s[1..]) {
          var i :| 0 <= i < |s[1..]| - 1 && s[1..][i] == '.' && s[1..][i + 1] == '.';
          assert s[i + 1] == '.' && s[i + 1 + 1] == '.';
        }
        if HasDots(s) {
          var i :| 0 <= i < |s| - 1 && s[i] == '.' && s[i + 1] == '.';
          assert i > 0 && s[1..][i - 1] == '.' && s[1..][i - 1 + 1] == '.';
        }
      }
    }
  }

  lemma {:induction false} RemoveCharKeeps(s: string, c: char)
    ensures |RemoveChar(s, c)| <= |s|
    ensures |RemoveChar(s, c)| == |s| <==> c !in s
    ensures |RemoveChar(s, c)| == |s| ==> RemoveChar(s, c) == s
    ensures forall d :: d in RemoveChar(s, c) ==> d in s && d != c
  {
    if s != "" {
      RemoveCharKeeps(s[1..], c);
      assert s == [s[0]] + s[1..];
    }
  }

  lemma TrimKeeps(s: string)
    ensures |Trim(s)| <= |s| && (|Trim(s)| == |s| ==> Trim(s) == s)
  {
    TrimLeftSuffix(s);
    TrimRightPrefix(TrimLeft(s));
  }

  lemma MappedSegment(s: string)
    ensures Replace(Lower(s), ' ', '-') == s <==> forall c :: c in s ==> LowerChar(c) == c && c != ' '
  {
    LowerAt(s);
    ReplaceAt(Lower(s), ' ', '-');
    var r := Replace(Lower(s), ' ', '-');
    if r == s {
      forall c | c in s
        ensures LowerChar(c) == c && c != ' '
      {
        var i :| 0 <= i < |s| && s[i] == c;
        assert r[i] == ReplaceChar(LowerChar(s[i]), ' ', '-');
      }
    }
    if forall c :: c in s ==> LowerChar(c) == c && c != ' ' {
      forall i | 0 <= i < |s|
        ensures r[i] == s[i]
      {
        assert s[i] in s;
      }
      assert r == s;
    }
  }

  /** Sanitizing leaves exactly the segments alone: trimmed, lower case, without blanks, slashes,
      backslashes or double dots. */
  lemma SanitizeFixedIff(s: string)
    ensures Sanitize(s) == s <==> IsSegment(s)
  {
    var t := Trim(s);
    var m := Replace(Lower(t), ' ', '-');
    var d := RemoveDots(m);
    var e := RemoveChar(d, '/');
    TrimKeeps(s);
    TrimFixed(s);
    LowerAt(t);
    ReplaceAt(Lower(t), ' ', '-');
    MappedSegment(t);
    RemoveDotsKeeps(m);
    RemoveCharKeeps(d, '/');
    RemoveCharKeeps(e, '\\');
    if IsSegment(s) {
      assert t == s && m == s && d == s && e == s;
    }
    if Sanitize(s) == s {
      assert t == s && d == m && e == d;
    }
  }

  lemma MappedAt(t: string)
    ensures var m := Replace(Lower(t), ' ', '-');
            |m| == |t| && forall i :: 0 <= i < |t| ==> m[i] == if t[i] == ' ' then '-' else LowerChar(t[i])
  {
    LowerAt(t);
    ReplaceAt(Lower(t), ' ', '-');
  }

  lemma NothingToRemove(m: string)
    requires '.' !in m && '/' !in m && '\\' !in m
    ensures RemoveChar(RemoveChar(RemoveDots(m), '/'), '\\') == m
  {
    RemoveDotsKeeps(m);
    RemoveCharKeeps(m, '/');
    RemoveCharKeeps(m, '\\');
  }

  /** Without dots, slashes and backslashes, sanitizing trims, folds to lower case and turns blanks between
      words into dashes. */
  lemma SanitizesWords(s: string)
    requires '.' !in s && '/' !in s && '\\' !in s
    ensures var t, r := Trim(s), Sanitize(s);
            |r| == |t| && forall i :: 0 <= i < |t| ==> r[i] == if t[i] == ' ' then '-' else LowerChar(t[i])
  {
    var t := Trim(s);
    var m := Replace(Lower(t), ' ', '-');
    TrimTrims(s);
    MappedAt(t);
    forall i | 0 <= i < |m|
      ensures m[i] != '.' && m[i] != '/' && m[i] != '\\'
    {
      assert t[i] in t && t[i] in s;
    }
    NothingToRemove(m);
  }

  /** Sanitizing twice can differ from sanitizing once: removing the slash of "./." leaves two dots, and
      removing the first slash of a text can leave a blank in front. */
  lemma SanitizeNotIdempotent()
    ensures Sanitize("./.") == ".." && Sanitize("..") == ""
    ensures Sanitize("/\ta") == "\ta" && Sanitize("\ta") == "a"
  {
    SanitizeDots();
    SanitizeBlank();
  }

  lemma SanitizeDots()
    ensures Sanitize("./.") == ".." && Sanitize("..") == ""
  {
    TrimFixed("./.");
    TrimFixed("..");
    assert Lower("./.") == "./." && Lower("..") == "..";
    assert Replace("./.", ' ', '-') == "./." && Replace("..", ' ', '-') == "..";
    assert RemoveDots("./.") == "./.";
    assert RemoveDots("..") == "";
    assert RemoveChar("./.", '/') == "..";
    assert RemoveChar("..", '\\') == "..";
  }

  lemma SanitizeBlank()
    ensures Sanitize("/\ta") == "\ta" && Sanitize("\ta") == "a"
  {
    SlashThenTab();
    TabThenLetter();
  }

  lemma SlashThenTab()
    ensures Sanitize("/\ta") == "\ta"
  {
    var s := "/\ta";
    TrimFixed(s);
    MappedSegment(s);
    RemoveDotsKeeps(s);
    assert BeforeSlashes(s) == s;
    assert s[1..] == "\ta" && "\ta"[1..] == "a" && "a"[1..] == "";
    assert RemoveChar("a", '/') == "a" && RemoveChar("a", '\\') == "a";
    assert RemoveChar("\ta", '/') == "\ta" && RemoveChar("\ta", '\\') == "\ta";
  }

  lemma TabThenLetter()
    ensures Sanitize("\ta") == "a"
  {
    assert TrimLeft("\ta") == TrimLeft("\ta"[1..]) == "a" && TrimRight("a") == "a";
    assert IsSegment("a");
    SanitizeFixedIff("a");
    TrimFixed("a");
  }

  // ------------------------------------------------------------------ when sanitizing again is idle

  predicate Slash(c: char) {
    c == '/' || c == '\\'
  }

  function RemoveSlashes(s: string): string {
    if s == "" then "" else (if Slash(s[0]) then "" else [s[0]]) + RemoveSlashes(s[1..])
  }

  lemma {:induction false} RemoveSlashesIs(s: string)
    ensures RemoveSlashes(s) == RemoveChar(RemoveChar(s, '/'), '\\')
  {
    if s != "" {
      RemoveSlashesIs(s[1..]);
      var rest := RemoveChar(s[1..], '/');
      if s[0] == '/' {
        assert RemoveChar(s, '/') == "" + rest == rest;
      } else {
        assert RemoveChar(s, '/') == [s[0]] + rest && ([s[0]] + rest)[1..] == rest;
      }
    }
  }

  /** Position i holds the first character that is neither slash nor backslash. */
  ghost predicate First(s: string, i: nat) {
    i < |s| && !Slash(s[i]) && forall k :: 0 <= k < i ==> Slash(s[k])
  }

  ghost predicate Last(s: string, i: nat) {
    i < |s| && !Slash(s[i]) && forall k :: i < k < |s| ==> Slash(s[k])
  }

  /** Two dots with nothing but slashes and backslashes between them. */
  ghost predicate DotsMeet(s: string) {
    exists i, j :: 0 <= i < j < |s| && s[i] == '.' && s[j] == '.' && forall k :: i < k < j ==> Slash(s[k])
  }

  ghost predicate BlankEdge(s: string) {
    exists i: nat :: (First(s, i) || Last(s, i)) && IsSpace(s[i])
  }

  lemma {:induction false} FirstSurvives(s: string, i: nat)
    requires First(s, i)
    ensures RemoveSlashes(s) != "" && RemoveSlashes(s)[0] == s[i]
  {
    if i > 0 {
      assert Slash(s[0]);
      FirstSurvives(s[1..], i - 1);
    }
  }

  lemma {:induction false} FirstExists(s: string) returns (i: nat)
    requires RemoveSlashes(s) != ""
    ensures First(s, i)
  {
    if !Slash(s[0]) {
      i := 0;
    } else {
      var j := FirstExists(s[1..]);
      i := j + 1;
      assert forall k :: 0 < k < i ==> s[1..][k - 1] == s[k];
    }
  }

  lemma {:induction false} RemoveSlashesAppends(s: string, t: string)
    ensures RemoveSlashes(s + t) == RemoveSlashes(s) + RemoveSlashes(t)
  {
    if s == "" {
      assert s + t == t;
    } else {
      assert (s + t)[1..] == s[1..] + t;
      RemoveSlashesAppends(s[1..], t);
    }
  }

  lemma {:induction false} OnlySlashes(s: string)
    ensures RemoveSlashes(s) == "" <==> forall k :: 0 <= k < |s| ==> Slash(s[k])
  {
    if s != "" {
      OnlySlashes(s[1..]);
      assert forall k :: 0 < k < |s| ==> s[k] == s[1..][k - 1];
    }
  }

  /** Cut around a character that stays. */
  lemma Around(s: string, i: nat)
    requires i < |s| && !Slash(s[i])
    ensures RemoveSlashes(s) == RemoveSlashes(s[..i]) + ([s[i]] + RemoveSlashes(s[i + 1..]))
  {
    var tail := s[i..];
    assert s == s[..i] + tail;
    RemoveSlashesAppends(s[..i], tail);
    assert tail[0] == s[i] && tail[1..] == s[i + 1..];
  }

  lemma LastSurvives(s: string, i: nat)
    requires Last(s, i)
    ensures var r := RemoveSlashes(s); r != "" && r[|r| - 1] == s[i]
  {
    Around(s, i);
    OnlySlashes(s[i + 1..]);
  }

  lemma {:induction false} LastExists(s: string) returns (i: nat)
    requires RemoveSlashes(s) != ""
    ensures Last(s, i)
  {
    var k := |s| - 1;
    if !Slash(s[k]) {
      i := k;
    } else {
      assert s == s[..k] + [s[k]];
      RemoveSlashesAppends(s[..k], [s[k]]);
      i := LastExists(s[..k]);
      assert forall m :: 0 <= m < k ==> s[..k][m] == s[m];
    }
  }

  /** The ends of what is left are the first and the last character that stay. */
  lemma EdgesMean(s: string)
    ensures Trimmed(RemoveSlashes(s)) <==> !BlankEdge(s)
  {
    if RemoveSlashes(s) != "" {
      var i := FirstExists(s);
      var j := LastExists(s);
      FirstSurvives(s, i);
      LastSurvives(s, j);
      assert First(s, i) && Last(s, j);
    }
    if BlankEdge(s) {
      var i: nat :| (First(s, i) || Last(s, i)) && IsSpace(s[i]);
      if First(s, i) { FirstSurvives(s, i); } else { LastSurvives(s, i); }
    }
  }

  lemma MeetingDotsTouch(s: string, i: nat, j: nat)
    requires i < j < |s| && s[i] == '.' && s[j] == '.' && forall k :: i < k < j ==> Slash(s[k])
    ensures HasDots(RemoveSlashes(s))
  {
    Around(s, i);
    var tail := s[i + 1..];
    FirstAfter(s, i + 1, j);
    FirstSurvives(tail, j - i - 1);
    DotsInside(RemoveSlashes(s[..i]), RemoveSlashes(tail));
  }

  lemma FirstAfter(s: string, i: nat, j: nat)
    requires i <= j < |s| && !Slash(s[j]) && forall k :: i <= k < j ==> Slash(s[k])
    ensures First(s[i..], j - i) && s[i..][j - i] == s[j]
  {
    forall k | 0 <= k < j - i
      ensures Slash(s[i..][k])
    {
      assert s[i..][k] == s[i + k];
    }
  }

  lemma DotsInside(x: string, y: string)
    requires y != "" && y[0] == '.'
    ensures HasDots(x + (['.'] + y))
  {
    var r := x + (['.'] + y);
    assert r[|x|] == '.' && r[|x| + 1] == '.';
  }

  lemma {:induction false} TouchingDotsMet(s: string)
    requires HasDots(RemoveSlashes(s))
    ensures DotsMeet(s)
  {
    var r, tail := RemoveSlashes(s), RemoveSlashes(s[1..]);
    var i :| 0 <= i < |r| - 1 && r[i] == '.' && r[i + 1] == '.';
    if !Slash(s[0]) && i == 0 {
      var j := FirstExists(s[1..]);
      FirstSurvives(s[1..], j);
      assert forall k :: 0 < k < j + 1 ==> s[k] == s[1..][k - 1];
      assert s[0] == '.' && s[j + 1] == '.';
    } else {
      var h := if Slash(s[0]) then i else i - 1;
      assert tail[h] == '.' && tail[h + 1] == '.';
      TouchingDotsMet(s[1..]);
      var a, b :| 0 <= a < b < |s[1..]| && s[1..][a] == '.' && s[1..][b] == '.'
                  && forall k :: a < k < b ==> Slash(s[1..][k]);
      assert forall k :: a + 1 < k < b + 1 ==> s[k] == s[1..][k - 1];
      assert s[a + 1] == '.' && s[b + 1] == '.';
    }
  }

  lemma {:induction false} DotsRemoved(s: string)
    ensures forall c :: c in RemoveDots(s) ==> c in s
  {
    if s != "" {
      if |s| > 1 && s[0] == '.' && s[1] == '.' { DotsRemoved(s[2..]); } else { DotsRemoved(s[1..]); }
    }
  }

  lemma MappedChars(s: string)
    ensures forall c :: c in Replace(Lower(s), ' ', '-') ==> LowerChar(c) == c && c != ' '
  {
    var m := Replace(Lower(s), ' ', '-');
    LowerAt(s);
    ReplaceAt(Lower(s), ' ', '-');
    forall c | c in m
      ensures LowerChar(c) == c && c != ' '
    {
      var i :| 0 <= i < |m| && m[i] == c;
      assert m[i] == ReplaceChar(LowerChar(s[i]), ' ', '-');
    }
  }

  lemma SanitizedChars(s: string)
    ensures forall c :: c in Sanitize(s) ==> SegmentChar(c)
  {
    var m := Replace(Lower(Trim(s)), ' ', '-');
    MappedChars(Trim(s));
    DotsRemoved(m);
    RemoveCharKeeps(RemoveDots(m), '/');
    RemoveCharKeeps(RemoveChar(RemoveDots(m), '/'), '\\');
  }

  /** Sanitizing again changes nothing exactly if, in the text before its slashes and backslashes go, none
      of them stand alone between two dots, and neither the first nor the last other character is a blank. */
  lemma SanitizeTwiceIff(s: string)
    ensures Sanitize(Sanitize(s)) == Sanitize(s) <==> !DotsMeet(BeforeSlashes(s)) && !BlankEdge(BeforeSlashes(s))
  {
    var d := BeforeSlashes(s);
    RemoveSlashesIs(d);
    SanitizeFixedIff(Sanitize(s));
    SanitizedChars(s);
    EdgesMean(d);
    if DotsMeet(d) {
      var i, j :| 0 <= i < j < |d| && d[i] == '.' && d[j] == '.' && forall k :: i < k < j ==> Slash(d[k]);
      MeetingDotsTouch(d, i, j);
    }
    if HasDots(Sanitize(s)) {
      TouchingDotsMet(d);
    }
  }

  lemma SanitizedHasNoSlash(s: string)
    ensures '/' !in Sanitize(s)
  {
    var d := RemoveDots(Replace(Lower(Trim(s)), ' ', '-'));
    RemoveCharKeeps(d, '/');
    RemoveCharKeeps(RemoveChar(d, '/'), '\\');
  }
}
