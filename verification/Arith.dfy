/** Alignment, rounding, and the few facts about multiplication and division
    that the solver does not find by itself. */
module Arith {
  /** The number of values of a 64-bit word. */
  const UINT64: nat := 0x1_0000_0000_0000_0000

  /** `x` is a multiple of `d`; said without division, which keeps it cheap. */
  predicate Aligned(x: nat, d: nat)
    requires d > 0
  {
    x == 0 || (x >= d && Aligned(x - d, d))
  }

  lemma {:induction false} MulGap(a: nat, b: nat, d: nat)
    requires a < b
    ensures a * d + d <= b * d
    decreases b
  {
    assert b * d == (b - 1) * d + d;
    if a + 1 < b {
      MulGap(a, b - 1, d);
    }
  }

  lemma Succ(a: nat, d: nat)
    ensures (a + 1) * d == a * d + d
  {
  }

  lemma {:induction false} Distribute(a: nat, b: nat, d: nat)
    ensures (a + b) * d == a * d + b * d
  {
    if a > 0 {
      Distribute(a - 1, b, d);
      Succ(a - 1, d);
      Succ(a - 1 + b, d);
    }
  }

  lemma {:induction false} ProductAssoc(a: nat, b: nat, c: nat)
    ensures a * b * c == a * (b * c)
  {
    if a > 0 {
      ProductAssoc(a - 1, b, c);
      Succ(a - 1, b);
      Distribute((a - 1) * b, b, c);
      Succ(a - 1, b * c);
    }
  }

  lemma DivMod(x: nat, d: nat)
    requires d > 0
    ensures x == x / d * d + x % d && x % d < d
  {
  }

  lemma QuotientUnique(q: nat, r: nat, p: nat, s: nat, d: nat)
    requires r < d && s < d && q * d + r == p * d + s
    ensures q == p && r == s
  {
    if p > q {
      MulGap(q, p, d);
    } else if p < q {
      MulGap(p, q, d);
    }
  }

  lemma DivUnique(x: nat, q: nat, r: nat, d: nat)
    requires d > 0 && r < d && x == q * d + r
    ensures x / d == q && x % d == r
  {
    DivMod(x, d);
    QuotientUnique(q, r, x / d, x % d, d);
  }

  lemma ModShift(x: nat, d: nat)
    requires 0 < d <= x
    ensures x % d == (x - d) % d
  {
    var q, r := (x - d) / d, (x - d) % d;
    DivMod(x - d, d);
    Succ(q, d);
    DivUnique(x, q + 1, r, d);
  }

  lemma {:induction false} AlignedProduct(k: nat, d: nat)
    requires d > 0
    ensures Aligned(k * d, d)
  {
    if k > 0 {
      assert k * d == (k - 1) * d + d;
      AlignedProduct(k - 1, d);
    }
  }

  lemma {:induction false} AlignedIsMod(x: nat, d: nat)
    requires d > 0
    ensures Aligned(x, d) <==> x % d == 0
  {
    if x < d {
      DivUnique(x, 0, x, d);
    } else {
      AlignedIsMod(x - d, d);
      ModShift(x, d);
    }
  }

  /** Two multiples of `d` are at least `d` apart. */
  lemma {:induction false} AlignedGap(a: nat, b: nat, d: nat)
    requires d > 0 && Aligned(a, d) && Aligned(b, d) && a < b
    ensures a + d <= b
  {
    if a > 0 {
      AlignedGap(a - d, b - d, d);
    }
  }

  lemma {:induction false} AlignedSum(a: nat, b: nat, d: nat)
    requires d > 0 && Aligned(a, d)
    ensures Aligned(b, d) <==> Aligned(a + b, d)
  {
    if a > 0 {
      AlignedSum(a - d, b, d);
    }
  }

  lemma {:induction false} AlignedByOne(x: nat)
    ensures Aligned(x, 1)
  {
    if x > 0 {
      AlignedByOne(x - 1);
    }
  }

  /** A multiple of `k * d` is a multiple of `d`. */
  lemma {:induction false} AlignedFactor(x: nat, k: nat, d: nat)
    requires d > 0 && k * d > 0 && Aligned(x, k * d)
    ensures Aligned(x, d)
  {
    if x > 0 {
      AlignedFactor(x - k * d, k, d);
      AlignedProduct(k, d);
      AlignedSum(k * d, x - k * d, d);
    }
  }

  lemma {:induction false} AlignedTwice(x: nat, k: nat, d: nat)
    requires d > 0 && k > 0 && Aligned(k, d) && Aligned(x, k)
    ensures Aligned(x, d)
  {
    if x > 0 {
      AlignedTwice(x - k, k, d);
      AlignedSum(k, x - k, d);
    }
  }

  /** The least multiple of `unit` that is not below `x`. */
  function RoundUp(x: nat, unit: nat): (r: nat)
    requires unit > 0
    ensures Aligned(r, unit) && x <= r < x + unit
  {
    if x == 0 then 0 else if x <= unit then unit else unit + RoundUp(x - unit, unit)
  }

  /** The greatest multiple of `unit` that is not above `x`. */
  function RoundDown(x: nat, unit: nat): (r: nat)
    requires unit > 0
    ensures Aligned(r, unit) && r <= x < r + unit
  {
    if x < unit then 0 else unit + RoundDown(x - unit, unit)
  }

  /** Rounding as the program computes it, by dividing and multiplying. */
  lemma RoundingFormulas(x: nat, unit: nat)
    requires unit > 0
    ensures RoundDown(x, unit) == x / unit * unit && RoundUp(x, unit) == (x + unit - 1) / unit * unit
  {
    RoundDownFormula(x, unit);
    RoundDownFormula(x + unit - 1, unit);
    var up, down := RoundUp(x, unit), RoundDown(x + unit - 1, unit);
    if up < down {
      AlignedGap(up, down, unit);
    } else if down < up {
      AlignedGap(down, up, unit);
    }
  }

  lemma RoundDownFormula(x: nat, unit: nat)
    requires unit > 0
    ensures RoundDown(x, unit) == x / unit * unit
  {
    DivMod(x, unit);
    AlignedProduct(x / unit, unit);
    SameMultiple(x / unit * unit, RoundDown(x, unit), x, unit);
  }

  /** There is one multiple that is at most `x` and less than `d` below it. */
  lemma SameMultiple(a: nat, b: nat, x: nat, d: nat)
    requires d > 0 && Aligned(a, d) && Aligned(b, d) && a <= x < a + d && b <= x < b + d
    ensures a == b
  {
    if a < b {
      AlignedGap(a, b, d);
    } else if b < a {
      AlignedGap(b, a, d);
    }
  }

  /** The remainder, by repeated subtraction. */
  function Rem(x: nat, d: nat): (r: nat)
    requires d > 0
    ensures r < d
  {
    if x < d then x else Rem(x - d, d)
  }

  lemma {:induction false} RemIsMod(x: nat, d: nat)
    requires d > 0
    ensures Rem(x, d) == x % d
  {
    if x < d {
      DivUnique(x, 0, x, d);
    } else {
      RemIsMod(x - d, d);
      ModShift(x, d);
    }
  }

  lemma {:induction false} RemShift(m: nat, x: nat, d: nat)
    requires d > 0 && Aligned(m, d) && m <= x
    ensures Rem(x - m, d) == Rem(x, d)
    decreases m
  {
    if m > 0 {
      RemShift(m - d, x - d, d);
    }
  }

  function Pow2(n: nat): (r: nat)
    ensures r > 0 && (n > 0 ==> r > 1)
  {
    if n == 0 then 1 else 2 * Pow2(n - 1)
  }
}
