// Multiplication and division of fixed-point numbers with twelve fraction digits
// (fixed12.cpp:91-97, 204-214): what truncation loses.
module FixedArith {
  import Bits
  import opened FixedText
  import opened Options

  // ---------- Division toward zero ----------

  function Toward(negative: bool, q: int): int { if negative then -q else q }

  /** C++ and big-integer division: toward zero. */
  function TruncDiv(n: int, d: int): int
    requires d != 0
  {
    Toward((n < 0) != (d < 0), Abs(n) / Abs(d))
  }

  function TruncMod(n: int, d: int): int
    requires d != 0
  {
    n - d * TruncDiv(n, d)
  }

  /** q has the sign of the exact quotient n / d, or is zero. */
  predicate SignOf(q: int, n: int, d: int) { q == 0 || (q > 0 <==> (n < 0) == (d < 0)) }

  lemma Quotient(x: nat, d: nat)
    requires d > 0
    ensures x == d * (x / d) + x % d && 0 <= x % d < d && x / d >= 0
  {
  }

  /** Truncation is the one quotient of the right sign whose magnitude is the integer part of
      the exact magnitude. */
  lemma TruncDivExactly(n: int, d: int, q: int)
    requires d != 0
    ensures q == TruncDiv(n, d)
       <==> SignOf(q, n, d) && Abs(d) * Abs(q) <= Abs(n) < Abs(d) * Abs(q) + Abs(d)
  {
    Quotient(Abs(n), Abs(d));
    if Abs(d) * Abs(q) <= Abs(n) < Abs(d) * Abs(q) + Abs(d) {
      Bits.DivModUnique(Abs(n), Abs(d), Abs(q), Abs(n) - Abs(d) * Abs(q));
    }
  }

  lemma MagnitudeOfQuotient(n: int, d: int)
    requires d != 0
    ensures Abs(TruncDiv(n, d)) == Abs(n) / Abs(d) && SignOf(TruncDiv(n, d), n, d)
  {
    Quotient(Abs(n), Abs(d));
    TowardIs(Abs(n) / Abs(d), n, d);
  }

  lemma TowardIs(q: nat, n: int, d: int)
    ensures var t := Toward((n < 0) != (d < 0), q); Abs(t) == q && SignOf(t, n, d)
  {
  }

  // ---------- Whole part and fraction ----------

  function IntPart(v: int): int { TruncDiv(v, SCALE) }

  function FracPart(v: int): int { TruncMod(v, SCALE) }

  /** A value splits in one way into a whole part and a fraction below one that lean to the
      same side of zero. */
  lemma PartsAreUnique(v: int, i: int, f: int)
    ensures i == IntPart(v) && f == FracPart(v)
       <==> v == i * 1_000_000_000_000 + f && Abs(f) < 1_000_000_000_000 && (v >= 0 ==> i >= 0 && f >= 0) && (v <= 0 ==> i <= 0 && f <= 0)
  {
    TruncDivExactly(v, SCALE, i);
  }

  // ---------- Multiplication and division ----------

  /** Conversion of the exact result to 64 bits; None when it does not fit. */
  function Narrow(x: int): Option<int> { if Fits64(x) then Some(x) else None }

  function Mul(a: int, b: int): Option<int> { Narrow(TruncDiv(a * b, SCALE)) }

  /** None for a zero divisor, where the library division fails. */
  function TrueDiv(a: int, b: int): Option<int>
  {
    if b == 0 then None else Narrow(TruncDiv(a * SCALE, b))
  }

  /** A product is the truncated one exactly when that fits 64 bits; else there is none. */
  lemma MulExactly(a: int, b: int, m: int)
    ensures Mul(a, b) == Some(m)
       <==> && -0x8000_0000_0000_0000 <= m <= 0x7fff_ffff_ffff_ffff
            && (a * b >= 0 ==> m >= 0) && (a * b <= 0 ==> m <= 0)
            && 1_000_000_000_000 * Abs(m) <= Abs(a * b) < 1_000_000_000_000 * Abs(m) + 1_000_000_000_000
  {
    TruncDivExactly(a * b, SCALE, m);
  }

  /** The same for quotients, which exist for no zero divisor. */
  lemma TrueDivExactly(a: int, b: int, q: int)
    ensures TrueDiv(a, b) == Some(q)
       <==> && b != 0 && -0x8000_0000_0000_0000 <= q <= 0x7fff_ffff_ffff_ffff
            && ((a >= 0) == (b > 0) ==> q >= 0) && ((a >= 0) != (b > 0) ==> q <= 0)
            && Abs(b) * Abs(q) <= Abs(a * 1_000_000_000_000) < Abs(b) * Abs(q) + Abs(b)
  {
    if b != 0 {
      TruncDivExactly(a * SCALE, b, q);
    }
  }

  function CeilDiv(x: nat, d: nat): nat
    requires d > 0
  {
    (x + d - 1) / d
  }

  lemma CeilDivIs(x: nat, d: nat, q: nat)
    requires d > 0 && x <= d * q <= x + d - 1
    ensures CeilDiv(x, d) == q
  {
    Bits.DivModUnique(x + d - 1, d, q, x + d - 1 - d * q);
  }

  lemma AbsOfProduct(a: int, b: int)
    ensures Abs(a * b) == Abs(a) * Abs(b)
    ensures a != 0 && b != 0 ==> a * b != 0 && ((a * b < 0) <==> ((a < 0) != (b < 0)))
  {
    if a == 0 || b == 0 {
    } else {
      assert Abs(a) * Abs(b) > 0;
      assert a * b == if (a < 0) == (b < 0) then Abs(a) * Abs(b) else -(Abs(a) * Abs(b));
    }
  }

  /** x scaled by p / q and then by q / p, rounding down both times, loses what rounding up
      the first remainder over p gives. */
  lemma ThereAndBack(x: nat, p: nat, q: nat)
    requires p > 0 && q > 0
    ensures var y := x * p / q; y * q / p + CeilDiv(x * p % q, p) == x
  {
    var y, r := x * p / q, x * p % q;
    Quotient(x * p, q);
    Quotient(y * q, p);
    var z, e := y * q / p, y * q % p;
    assert p * x == q * y + r && q * y == p * z + e by {
      assert x * p == p * x && y * q == q * y;
    }
    Difference(p, x, z, r + e);
    assert x >= z by {
      if x < z {
        Bits.MultipleIsLarge(p, x - z);
      }
    }
    CeilDivIs(r, p, x - z);
  }

  lemma Difference(p: int, x: int, z: int, c: int)
    requires p * x == p * z + c
    ensures p * (x - z) == c
  {
  }

  /** x is zero or on a's side of it. */
  predicate Leans(x: int, a: int) { (a >= 0 ==> x >= 0) && (a <= 0 ==> x <= 0) }

  /** A value times b and divided by b again: the result always fits, leans to the side of
      the value, and falls short by exactly the remainder of the product over the divisor,
      rounded up. */
  lemma MulThenDiv(a: int, b: int)
    requires Fits64(a) && b != 0 && Mul(a, b).Some?
    ensures var m := Mul(a, b).value;
            var back := TrueDiv(m, b);
            && back.Some? && Leans(back.value, a)
            && Abs(back.value) + CeilDiv(Abs(a) * Abs(b) % SCALE, Abs(b)) == Abs(a)
  {
    var m := Mul(a, b).value;
    AbsOfProduct(a, b);
    AbsOfProduct(m, SCALE);
    MagnitudeOfQuotient(a * b, SCALE);
    MagnitudeOfQuotient(m * SCALE, b);
    ThereAndBack(Abs(a), Abs(b), SCALE);
  }

  /** A value divided by b and multiplied by b again. */
  lemma DivThenMul(a: int, b: int)
    requires Fits64(a) && b != 0 && TrueDiv(a, b).Some?
    ensures var q := TrueDiv(a, b).value;
            var back := Mul(q, b);
            && back.Some? && Leans(back.value, a)
            && Abs(back.value) + CeilDiv(Abs(a) * SCALE % Abs(b), SCALE) == Abs(a)
  {
    var q := TrueDiv(a, b).value;
    AbsOfProduct(a, SCALE);
    AbsOfProduct(q, b);
    MagnitudeOfQuotient(a * SCALE, b);
    MagnitudeOfQuotient(q * b, SCALE);
    ThereAndBack(Abs(a), SCALE, Abs(b));
  }

  // ---------- What follows ----------

  lemma CeilDivBounds(x: nat, d: nat)
    requires d > 0
    ensures x <= d * CeilDiv(x, d) <= x + d - 1
    ensures CeilDiv(x, d) == 0 <==> x == 0
  {
    Quotient(x + d - 1, d);
    if x == 0 {
      Bits.DivModUnique(d - 1, d, 0, d - 1);
    }
  }

  lemma AtMost(d: nat, c: nat, k: nat)
    requires d > 0 && d * c < d * (k + 1)
    ensures c <= k
  {
    if c > k {
      assert d * (c - k - 1) == d * c - d * (k + 1);
      Bits.MultipleIsLarge(d, c - k - 1);
    }
  }

  /** Multiplying and dividing back: never more than the value, exact exactly when the product
      needs no truncation, at most one unit off from 1.0 on, and else below 10^12 / |b| + 1. */
  lemma MulThenDivBounds(a: int, b: int) returns (loss: nat)
    requires Fits64(a) && b != 0 && Mul(a, b).Some?
    ensures var back := TrueDiv(Mul(a, b).value, b);
            back.Some? && Leans(back.value, a) && Abs(back.value) + loss == Abs(a)
    ensures Abs(b) * loss < SCALE + Abs(b) - 1
    ensures loss == 0 <==> Abs(a) * Abs(b) % SCALE == 0
    ensures Abs(b) >= SCALE ==> loss <= 1
  {
    MulThenDiv(a, b);
    loss := LossIs(Abs(a) * Abs(b), SCALE, Abs(b));
  }

  /** Dividing and multiplying back: never more than the value, exact exactly when the
      quotient needs no truncation, at most one unit off up to 1.0, and else below
      |b| / 10^12 + 1. */
  lemma DivThenMulBounds(a: int, b: int) returns (loss: nat)
    requires Fits64(a) && b != 0 && TrueDiv(a, b).Some?
    ensures var back := Mul(TrueDiv(a, b).value, b);
            back.Some? && Leans(back.value, a) && Abs(back.value) + loss == Abs(a)
    ensures SCALE * loss < Abs(b) + SCALE - 1
    ensures loss == 0 <==> Abs(a) * SCALE % Abs(b) == 0
    ensures Abs(b) <= SCALE ==> loss <= 1
  {
    DivThenMul(a, b);
    loss := LossIs(Abs(a) * SCALE, Abs(b), SCALE);
  }

  /** The remainder of x over q, rounded up over p. */
  lemma LossIs(x: nat, q: nat, p: nat) returns (c: nat)
    requires p > 0 && q > 0
    ensures c == CeilDiv(x % q, p)
    ensures p * c < q + p - 1 && (c == 0 <==> x % q == 0) && (p >= q ==> c <= 1)
  {
    Quotient(x, q);
    CeilDivBounds(x % q, p);
    c := CeilDiv(x % q, p);
    if p >= q {
      assert p * 2 == p + p;
      AtMost(p, c, 1);
    }
  }

  // ---------- Order and sums ----------

  /** Truncation keeps order. */
  lemma TruncDivMonotone(n: int, m: int)
    requires n <= m
    ensures TruncDiv(n, SCALE) <= TruncDiv(m, SCALE)
  {
  }

  lemma MulMonotone(a: int, b: int, c: nat)
    requires a <= b && Mul(a, c).Some? && Mul(b, c).Some?
    ensures Mul(a, c).value <= Mul(b, c).value
  {
    TimesAtMost(a, b, c);
    TruncDivMonotone(a * c, b * c);
  }

  /** Truncating a sum and summing the truncations differ by at most one. */
  lemma TruncDivOfSum(n: int, m: int)
    ensures -1 <= TruncDiv(n + m, SCALE) - TruncDiv(n, SCALE) - TruncDiv(m, SCALE) <= 1
  {
  }

  /** Multiplication distributes over addition up to one unit. */
  lemma MulDistributes(a: int, b: int, c: int)
    requires Mul(a, c).Some? && Mul(b, c).Some? && Mul(a + b, c).Some?
    ensures -1 <= Mul(a + b, c).value - Mul(a, c).value - Mul(b, c).value <= 1
  {
    assert (a + b) * c == a * c + b * c;
    TruncDivOfSum(a * c, b * c);
  }
}
