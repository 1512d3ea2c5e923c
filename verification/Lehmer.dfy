// The multiplicative generator of random.h as arithmetic: one step is multiplication by A
// modulo M, it can be undone, and iterating it multiplies by powers of A.
module Lehmer {
  import opened Bits

  const M: nat := 0x7fff_ffff

  /** The remainder modulo M. */
  function Residue(x: nat): (r: nat)
    ensures r < M
  {
    x % 0x7fff_ffff
  }

  predicate Seed(s: nat) { 1 <= s < M }

  /** What the code forms instead of dividing: the high part plus the low 31 bits. */
  function FoldedSum(product: nat): nat { Shr(product, 31) + BitAnd(product, M) }

  /** The single conditional subtraction; the cast to 32 bits comes first. */
  function Correct(sum: nat): nat
  {
    var t := sum % 0x1_0000_0000;
    if t > M then t - M else t
  }

  /** The reduction of a product, as the code computes it. */
  function Reduce(product: nat): nat { Correct(FoldedSum(product)) }

  /** Multiplication by 16807 modulo M. */
  function Step(s: nat): (r: nat)
    requires Seed(s)
    ensures Seed(r)
  {
    NeverZero(s);
    Residue(s * 16807)
  }

  lemma FoldedSumValue(p: nat)
    ensures FoldedSum(p) == p / 0x8000_0000 + p % 0x8000_0000
  {
    AndMask(p, 31);
    ShrIsQuotient(p, 31);
    Pow31();
  }

  lemma Pow31()
    ensures Pow2(31) == 0x8000_0000
  {
    assert Pow2(8) == 256;
    assert Pow2(16) == 65536;
    assert Pow2(24) == 0x100_0000;
  }

  /** 16807 is invertible modulo M: 16807 * 1407677000 == 11017 * M + 1. */
  lemma Uninverted(s: int, t: int)
    requires 16807 * s == 0x7fff_ffff * t
    ensures s == 0x7fff_ffff * (1407677000 * t - 11017 * s)
  {
  }

  /** The multiplier never takes a seed to a multiple of M. */
  lemma NeverZero(s: nat)
    requires Seed(s)
    ensures Residue(s * 16807) != 0
  {
    if Residue(s * 16807) == 0 {
      Uninverted(s, (s * 16807) / 0x7fff_ffff);
      assert false;
    }
  }

  /** Folding at bit 31 is a division by M up to one more subtraction. */
  lemma Fold(q: nat, r: nat, t: nat, m: nat)
    requires q < 16807 && r < 0x8000_0000
    requires 0 < m < M && q * 0x8000_0000 + r == 0x7fff_ffff * t + m
    ensures q + r < 0x1_0000_0000 && q + r != M
    ensures Correct(q + r) == m
  {
    assert q + r == 0x7fff_ffff * (t - q) + m;
  }

  /** The shift, the mask and the single conditional subtraction compute the remainder: the
      sum fits the cast and is never exactly M, so `>` and `>=` would agree. */
  lemma ReduceIsResidue(p: nat)
    requires p < 16807 * 0x7fff_ffff && Residue(p) != 0
    ensures FoldedSum(p) < 0x1_0000_0000 && FoldedSum(p) != M
    ensures Reduce(p) == Residue(p)
  {
    FoldedSumValue(p);
    Fold(p / 0x8000_0000, p % 0x8000_0000, p / 0x7fff_ffff, Residue(p));
    assert Reduce(p) == Correct(p / 0x8000_0000 + p % 0x8000_0000);
  }

  /** One call of Next is one multiplication modulo M. */
  lemma NextIsStep(s: nat)
    requires Seed(s)
    ensures FoldedSum(s * 16807) < 0x1_0000_0000 && FoldedSum(s * 16807) != M
    ensures Reduce(s * 16807) == Step(s)
  {
    NeverZero(s);
    ReduceIsResidue(s * 16807);
  }

  /** The step can be undone, so it merges no two seeds. */
  lemma StepInjective(s: nat, t: nat)
    requires Seed(s) && Seed(t) && Step(s) == Step(t)
    ensures s == t
  {
    SameResidue(s, t, (s * 16807) / 0x7fff_ffff, (t * 16807) / 0x7fff_ffff);
  }

  lemma SameResidue(s: nat, t: nat, a: nat, b: nat)
    requires Seed(s) && Seed(t)
    requires 16807 * s - 0x7fff_ffff * a == 16807 * t - 0x7fff_ffff * b
    ensures s == t
  {
    Uninverted(s - t, a - b);
  }

  // ---------- Iteration ----------

  function Iterate(s: nat, k: nat): (r: nat)
    requires Seed(s)
    ensures Seed(r)
  {
    if k == 0 then s else Step(Iterate(s, k - 1))
  }

  lemma {:induction false} IterateSum(s: nat, j: nat, k: nat)
    requires Seed(s)
    ensures Iterate(s, j + k) == Iterate(Iterate(s, j), k)
  {
    if k > 0 {
      IterateSum(s, j, k - 1);
    }
  }

  lemma {:induction false} IterateInjective(s: nat, t: nat, k: nat)
    requires Seed(s) && Seed(t) && Iterate(s, k) == Iterate(t, k)
    ensures s == t
  {
    if k > 0 {
      StepInjective(Iterate(s, k - 1), Iterate(t, k - 1));
      IterateInjective(s, t, k - 1);
    }
  }

  lemma AddMultiple(x: nat, q: nat)
    ensures Residue(x + 0x7fff_ffff * q) == Residue(x)
  {
  }

  /** Reducing a factor first does not change a product's remainder. */
  lemma ReduceFactor(x: nat, y: nat)
    ensures Residue(x * Residue(y)) == Residue(x * y)
  {
    var q, r := y / 0x7fff_ffff, Residue(y);
    assert x * y == x * r + 0x7fff_ffff * (x * q) by {
      assert y == r + 0x7fff_ffff * q;
    }
    AddMultiple(x * r, x * q);
  }

  lemma ReduceProduct(s: nat, u: nat, y: nat)
    ensures Residue(Residue(s * u) * y) == Residue(s * Residue(u * y))
  {
    ReduceFactor(y, s * u);
    ReduceFactor(s, u * y);
    assert y * (s * u) == s * (u * y);
  }

  /** Iterating from s multiplies by the value the same number of steps reaches from 1. */
  lemma {:induction false} IterateScales(s: nat, k: nat)
    requires Seed(s)
    ensures Iterate(s, k) == Residue(s * Iterate(1, k))
  {
    if k > 0 {
      IterateScales(s, k - 1);
      ReduceProduct(s, Iterate(1, k - 1), 16807);
    }
  }
}
