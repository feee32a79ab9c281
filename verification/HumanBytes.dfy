/** Scaling a 64-bit byte count to the largest binary unit that fits. */
module HumanBytes {

  const UNIT: int := 1024
  const MAX_INT64: int := 0x7FFF_FFFF_FFFF_FFFF
  const SUFFIXES: string := "KMGTPE"

  /** What is printed: nothing, a plain byte count, or count / div with a unit letter. */
  datatype Size = Empty | Bytes(count: int) | Scaled(div: int, suffix: char)

  function Power(n: nat): int {
    if n == 0 then 1 else UNIT * Power(n - 1)
  }

  lemma {:induction false} PowerMonotone(m: nat, n: nat)
    requires m < n
    ensures 0 < Power(m) && UNIT * Power(m) <= Power(n)
  {
    PowerPositive(m);
    if m < n - 1 {
      PowerMonotone(m, n - 1);
    }
  }

  lemma {:induction false} PowerPositive(n: nat)
    ensures Power(n) > 0
  {
    if n > 0 { PowerPositive(n - 1); }
  }

  lemma PowersOfUnit()
    ensures Power(1) == 0x400 && Power(2) == 0x10_0000 && Power(3) == 0x4000_0000
    ensures Power(4) == 0x100_0000_0000 && Power(5) == 0x4_0000_0000_0000
    ensures Power(6) == 0x1000_0000_0000_0000 && Power(7) == 0x40_0000_0000_0000_0000
  {
    assert Power(1) == UNIT;
    assert Power(2) == 0x10_0000;
    assert Power(3) == 0x4000_0000;
    assert Power(4) == 0x100_0000_0000;
    assert Power(5) == 0x4_0000_0000_0000;
  }

  /** Dividing the quotient once more is dividing by a divisor one unit larger. */
  lemma ScaleStep(b: int, n: int, div: int)
    requires div > 0 && n >= 0 && n * div <= b < (n + 1) * div
    ensures (n / UNIT) * (div * UNIT) <= b < (n / UNIT + 1) * (div * UNIT)
  {
    var q := n / UNIT;
    assert q * UNIT <= n && n + 1 <= (q + 1) * UNIT;
    TimesMonotone(q * UNIT, n, div);
    TimesMonotone(n + 1, (q + 1) * UNIT, div);
    assert (q * UNIT) * div == q * (div * UNIT);
    assert ((q + 1) * UNIT) * div == (q + 1) * (div * UNIT);
  }

  lemma TimesMonotone(x: int, y: int, k: int)
    requires x <= y && k > 0
    ensures x * k <= y * k
  {
  }

  /** For every int64 the divisor is the exact power of the unit that brings the count below one
      unit, it never leaves the int64 range, and the letter exists and is that power's. */
  method Scale(b: int) returns (r: Size)
    requires -MAX_INT64 - 1 <= b <= MAX_INT64
    ensures b <= 0 ==> r == Empty
    ensures 0 < b < UNIT ==> r == Bytes(b)
    ensures 0x400 <= b < 0x10_0000 ==> r == Scaled(0x400, 'K')
    ensures 0x10_0000 <= b < 0x4000_0000 ==> r == Scaled(0x10_0000, 'M')
    ensures 0x4000_0000 <= b < 0x100_0000_0000 ==> r == Scaled(0x4000_0000, 'G')
    ensures 0x100_0000_0000 <= b < 0x4_0000_0000_0000 ==> r == Scaled(0x100_0000_0000, 'T')
    ensures 0x4_0000_0000_0000 <= b < 0x1000_0000_0000_0000 ==> r == Scaled(0x4_0000_0000_0000, 'P')
    ensures 0x1000_0000_0000_0000 <= b ==> r == Scaled(0x1000_0000_0000_0000, 'E')
    ensures b >= UNIT ==>
              exists exp :: && 0 <= exp < |SUFFIXES| && r == Scaled(Power(exp + 1), SUFFIXES[exp])
                            && Power(exp + 1) <= b < UNIT * Power(exp + 1) && Power(exp + 1) <= MAX_INT64
  {
    if b <= 0 {
      return Empty;
    }
    if b < UNIT {
      return Bytes(b);
    }
    PowersOfUnit();
    var div, exp := UNIT, 0;
    var n := b / UNIT;
    while n >= UNIT
      invariant 0 <= exp < 6 && div == Power(exp + 1) && div > 0
      invariant n >= 1 && n * div <= b < (n + 1) * div
      decreases n
    {
      ScaleStep(b, n, div);
      TimesMonotone(UNIT, n, div);
      assert exp < 5;
      div := div * UNIT;
      exp := exp + 1;
      n := n / UNIT;
    }
    TimesMonotone(1, n, div);
    TimesMonotone(n + 1, UNIT, div);
    r := Scaled(div, SUFFIXES[exp]);
  }

  /** The unit is determined: two powers cannot both fit a count this way. */
  lemma UnitUnique(b: int, e: nat, f: nat)
    requires Power(e) <= b < UNIT * Power(e) && Power(f) <= b < UNIT * Power(f)
    ensures e == f
  {
    if e < f {
      PowerMonotone(e, f);
      assert false;
    } else if f < e {
      PowerMonotone(f, e);
      assert false;
    }
  }
}
