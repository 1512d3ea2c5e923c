// Shifts, masks and unions of unsigned machine words, read as natural numbers, one bit at
// a time; and when they amount to a quotient, a remainder or a sum.
module Bits {
  function Pow2(k: nat): (p: nat)
    ensures p >= 1
  {
    if k == 0 then 1 else 2 * Pow2(k - 1)
  }

  function Shl(x: nat, k: nat): nat { if k == 0 then x else 2 * Shl(x, k - 1) }

  function Shr(x: nat, k: nat): nat { if k == 0 then x else Shr(x / 2, k - 1) }

  /** Bitwise `&`. */
  function BitAnd(x: nat, y: nat): nat
  {
    if x == 0 || y == 0 then 0
    else 2 * BitAnd(x / 2, y / 2) + (if x % 2 == 1 && y % 2 == 1 then 1 else 0)
  }

  /** Bitwise `|`. */
  function BitOr(x: nat, y: nat): nat
  {
    if x == 0 then y
    else if y == 0 then x
    else 2 * BitOr(x / 2, y / 2) + (if x % 2 == 1 || y % 2 == 1 then 1 else 0)
  }

  /** The low k bits. */
  function Low(x: nat, k: nat): (r: nat)
    ensures r < Pow2(k)
  {
    if k == 0 then 0 else 2 * Low(x / 2, k - 1) + x % 2
  }

  lemma {:induction false} SplitAt(x: nat, k: nat)
    ensures x == Shl(Shr(x, k), k) + Low(x, k)
  {
    if k > 0 {
      SplitAt(x / 2, k - 1);
    }
  }

  lemma {:induction false} ShlIsProduct(x: nat, k: nat)
    ensures Shl(x, k) == Pow2(k) * x
  {
    if k > 0 {
      ShlIsProduct(x, k - 1);
      Twice(Pow2(k - 1), x);
    }
  }

  lemma Twice(x: int, y: int)
    ensures (2 * x) * y == 2 * (x * y)
  {
  }

  lemma MultipleIsLarge(d: int, k: int)
    requires d > 0
    ensures k >= 1 ==> d * k >= d
    ensures k <= -1 ==> d * k <= -d
  {
    if k >= 1 {
      assert d * k == d + d * (k - 1);
      assert d * (k - 1) >= 0;
    } else if k <= -1 {
      assert d * k == -d - d * (-k - 1);
      assert d * (-k - 1) >= 0;
    }
  }

  /** Quotient and remainder are the only pair that fits. */
  lemma DivModUnique(x: nat, d: nat, q: nat, r: nat)
    requires d > 0 && x == d * q + r && r < d
    ensures x / d == q && x % d == r
  {
    var q0, r0 := x / d, x % d;
    assert x == d * q0 + r0;
    assert d * (q0 - q) == d * q0 - d * q;
    MultipleIsLarge(d, q0 - q);
  }

  lemma MultipleMod(x: nat, d: nat, q: int)
    requires d > 0 && x == d * q
    ensures x % d == 0 && x / d == q
  {
    MultipleIsLarge(d, q);
    DivModUnique(x, d, q, 0);
  }

  /** A right shift divides and the low bits are the remainder. */
  lemma ShrIsQuotient(x: nat, k: nat)
    ensures Shr(x, k) == x / Pow2(k) && Low(x, k) == x % Pow2(k)
  {
    SplitAt(x, k);
    ShlIsProduct(Shr(x, k), k);
    DivModUnique(x, Pow2(k), Shr(x, k), Low(x, k));
  }

  /** Shifting left and back is the identity, and the low bits of a left shift are clear. */
  lemma {:induction false} ShlThenAdd(x: nat, y: nat, k: nat)
    requires y < Pow2(k)
    ensures Shr(Shl(x, k) + y, k) == x && Low(Shl(x, k) + y, k) == y
  {
    if k > 0 {
      ShlThenAdd(x, y / 2, k - 1);
      assert (Shl(x, k) + y) / 2 == Shl(x, k - 1) + y / 2;
    }
  }

  /** Masking with k one-bits keeps the low k bits. */
  lemma {:induction false} AndMask(x: nat, k: nat)
    ensures BitAnd(x, Pow2(k) - 1) == Low(x, k)
  {
    if k > 0 {
      var h := Pow2(k - 1);
      AndMask(x / 2, k - 1);
      AndOdd(x, h - 1);
      assert Pow2(k) - 1 == 2 * (h - 1) + 1;
    }
  }

  lemma AndOdd(x: nat, m: nat)
    ensures BitAnd(x, 2 * m + 1) == 2 * BitAnd(x / 2, m) + x % 2
  {
    if x > 0 {
      assert (2 * m + 1) / 2 == m && (2 * m + 1) % 2 == 1;
    }
  }

  /** A mask whose low k bits are clear looks only at the operand shifted right by k. */
  lemma {:induction false} AndHigh(m: nat, x: nat, k: nat)
    ensures BitAnd(Shl(m, k), x) == Shl(BitAnd(m, Shr(x, k)), k)
  {
    if k > 0 {
      AndHigh(m, x / 2, k - 1);
      AndEven(Shl(m, k - 1), x);
    }
  }

  lemma AndEven(h: nat, x: nat)
    ensures BitAnd(2 * h, x) == 2 * BitAnd(h, x / 2)
  {
    if h > 0 && x > 0 {
      assert (2 * h) / 2 == h && (2 * h) % 2 == 0;
    }
  }

  /** When the low k bits of one operand are clear and the other has no more than k bits,
      the union is the sum. */
  lemma {:induction false} OrDisjoint(x: nat, y: nat, k: nat)
    requires y < Pow2(k)
    ensures BitOr(Shl(x, k), y) == Shl(x, k) + y
  {
    if k > 0 {
      OrDisjoint(x, y / 2, k - 1);
    }
  }
}
