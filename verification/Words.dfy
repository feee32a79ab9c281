/** When two words read the same in either order. */
module Words {

  function Repeat<T>(p: seq<T>, n: nat): seq<T> {
    if n == 0 then [] else Repeat(p, n - 1) + p
  }

  lemma {:induction false} RepeatAdds<T>(p: seq<T>, m: nat, n: nat)
    ensures Repeat(p, m) + Repeat(p, n) == Repeat(p, m + n)
  {
    if n > 0 {
      RepeatAdds(p, m, n - 1);
      assert Repeat(p, m) + (Repeat(p, n - 1) + p) == Repeat(p, m) + Repeat(p, n - 1) + p;
    } else {
      assert Repeat(p, m) + [] == Repeat(p, m);
    }
  }

  /** Both words repeat one and the same piece. */
  ghost predicate ShareRoot<T(!new)>(x: seq<T>, y: seq<T>) {
    exists p, m, n :: x == Repeat(p, m) && y == Repeat(p, n)
  }

  /** Two words commute exactly if both repeat the same piece. */
  lemma CommuteIff<T(!new)>(x: seq<T>, y: seq<T>)
    ensures x + y == y + x <==> ShareRoot(x, y)
  {
    if ShareRoot(x, y) {
      var p, m, n :| x == Repeat(p, m) && y == Repeat(p, n);
      RepeatAdds(p, m, n);
      RepeatAdds(p, n, m);
    }
    if x + y == y + x {
      CommutingShareRoot(x, y);
    }
  }

  lemma {:induction false} CommutingShareRoot<T(!new)>(x: seq<T>, y: seq<T>)
    requires x + y == y + x
    ensures ShareRoot(x, y)
    decreases |x| + |y|, |y|
  {
    if x == [] {
      assert Repeat(y, 1) == [] + y == y && Repeat(y, 0) == [];
    } else if |y| < |x| {
      if y == [] {
        assert Repeat(x, 1) == [] + x == x && Repeat(x, 0) == [];
      } else {
        LongerCommutes(y, x);
        var p, n, m := SplitRoot(y, x);
        assert x == Repeat(p, m) && y == Repeat(p, n);
      }
    } else {
      LongerCommutes(x, y);
      var p, m, n := SplitRoot(x, y);
    }
  }

  /** The longer of two commuting words is the shorter one and a rest that commutes with it. */
  lemma LongerCommutes<T(!new)>(x: seq<T>, y: seq<T>)
    requires x + y == y + x && |x| <= |y|
    ensures var z := y[|x|..]; y == x + z && x + z == z + x
  {
    var z := y[|x|..];
    assert (x + y)[..|x|] == x && (y + x)[..|x|] == y[..|x|];
    assert y == x + z;
    assert (x + y)[|x|..] == y && (y + x)[|x|..] == z + x;
  }

  lemma {:induction false} SplitRoot<T(!new)>(x: seq<T>, y: seq<T>) returns (p: seq<T>, m: nat, n: nat)
    requires 0 < |x| <= |y| && y == x + y[|x|..] && x + y[|x|..] == y[|x|..] + x
    ensures x == Repeat(p, m) && y == Repeat(p, n)
    decreases |x| + |y|, 0
  {
    CommutingShareRoot(x, y[|x|..]);
    var k: nat;
    p, m, k :| x == Repeat(p, m) && y[|x|..] == Repeat(p, k);
    RepeatAdds(p, m, k);
    n := m + k;
  }
}
