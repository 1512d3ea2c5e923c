// Decimal digit strings and the numbers they denote.
module Decimal {
  function Pow10(k: nat): (p: nat)
    ensures p >= 1
  {
    if k == 0 then 1 else 10 * Pow10(k - 1)
  }

  lemma {:induction false} Pow10Sum(j: nat, k: nat)
    ensures Pow10(j + k) == Pow10(j) * Pow10(k)
  {
    if j > 0 {
      Pow10Sum(j - 1, k);
      TenFactor(Pow10(j - 1), Pow10(k));
    }
  }

  lemma TenFactor(x: int, y: int)
    ensures (10 * x) * y == 10 * (x * y)
  {
  }

  lemma Pow10Small()
    ensures Pow10(1) == 10 && Pow10(6) == 1_000_000 && Pow10(7) == 10_000_000
    ensures Pow10(12) == 1_000_000_000_000 && Pow10(13) == 10_000_000_000_000
  {
    assert Pow10(6) == 1_000_000;
    assert Pow10(12) == 1_000_000_000_000;
  }

  predicate IsDigit(c: char) { '0' <= c <= '9' }

  predicate IsDigits(s: string) { forall i | 0 <= i < |s| :: IsDigit(s[i]) }

  /** What strtoi accumulates: any character counts by its distance from '0'. */
  function Value(s: string): int
  {
    if s == [] then 0 else Value(s[..|s| - 1]) * 10 + (s[|s| - 1] as int - '0' as int)
  }

  lemma {:induction false} ValueConcat(s: string, t: string)
    ensures Value(s + t) == Value(s) * Pow10(|t|) + Value(t)
  {
    if t == [] {
      assert s + t == s;
    } else {
      var u, c := t[..|t| - 1], t[|t| - 1] as int - '0' as int;
      ValueConcat(s, u);
      assert (s + t)[..|s + t| - 1] == s + u;
      Regroup(Value(s), Pow10(|u|), Value(u), c);
    }
  }

  lemma Regroup(a: int, p: int, b: int, c: int)
    ensures (a * p + b) * 10 + c == a * (10 * p) + (b * 10 + c)
  {
  }

  lemma {:induction false} ValueBounds(s: string)
    requires IsDigits(s)
    ensures 0 <= Value(s) < Pow10(|s|)
  {
    if s != [] {
      ValueBounds(s[..|s| - 1]);
    }
  }

  function DigitChar(d: nat): (c: char)
    requires d < 10
    ensures IsDigit(c) && c as int - '0' as int == d
    ensures c == '0' <==> d == 0
  {
    '0' + d as char
  }

  /** The decimal digits of a number, most significant first. */
  function Digits(n: nat): (s: string)
    ensures s != [] && IsDigits(s)
  {
    if n < 10 then [DigitChar(n)] else Digits(n / 10) + [DigitChar(n % 10)]
  }

  lemma {:induction false} ValueOfDigits(n: nat)
    ensures Value(Digits(n)) == n
  {
    if n >= 10 {
      ValueOfDigits(n / 10);
      assert Digits(n)[..|Digits(n)| - 1] == Digits(n / 10);
    } else {
      assert Digits(n)[..0] == [];
    }
  }

  lemma {:induction false} NoLeadingZero(n: nat)
    ensures Digits(n)[0] == '0' <==> n == 0
    ensures n < 10 <==> |Digits(n)| == 1
  {
    if n >= 10 {
      NoLeadingZero(n / 10);
    }
  }

  lemma {:induction false} DigitsLength(n: nat, k: nat)
    requires n < Pow10(k) && k >= 1
    ensures |Digits(n)| <= k
  {
    if n >= 10 {
      DigitsLength(n / 10, k - 1);
    }
  }

  function Zeros(k: nat): (s: string)
    ensures |s| == k && forall i | 0 <= i < k :: s[i] == '0'
  {
    seq(k, _ => '0')
  }

  lemma {:induction false} ValueOfZeros(k: nat)
    ensures Value(Zeros(k)) == 0
  {
    if k > 0 {
      ValueOfZeros(k - 1);
      assert Zeros(k)[..k - 1] == Zeros(k - 1);
    }
  }

  /** A digit string without the zeros at its end. */
  function Stripped(s: string): (t: string)
    ensures |t| <= |s| && s == t + Zeros(|s| - |t|)
    ensures t == [] || t[|t| - 1] != '0'
  {
    if s != [] && s[|s| - 1] == '0' then
      var t := Stripped(s[..|s| - 1]);
      assert Zeros(|s| - |t|) == Zeros(|s| - 1 - |t|) + ['0'];
      assert s == s[..|s| - 1] + ['0'];
      t
    else s
  }

  /** x with k zeros written after it. */
  function Shifted(x: int, k: nat): int { if k == 0 then x else 10 * Shifted(x, k - 1) }

  lemma {:induction false} ShiftedIsProduct(x: int, k: nat)
    ensures Shifted(x, k) == x * Pow10(k)
  {
    if k > 0 {
      ShiftedIsProduct(x, k - 1);
      TimesTen(x, Pow10(k - 1));
    }
  }

  lemma TimesTen(x: int, p: int)
    ensures x * (10 * p) == 10 * (x * p)
  {
  }

  lemma {:induction false} ValueZerosBack(s: string, k: nat)
    ensures Value(s + Zeros(k)) == Shifted(Value(s), k)
  {
    if k == 0 {
      assert s + Zeros(0) == s;
    } else {
      ValueZerosBack(s, k - 1);
      assert (s + Zeros(k))[..|s| + k - 1] == s + Zeros(k - 1);
    }
  }

  /** Zeros at the end scale, zeros at the front do nothing. */
  lemma ValueStripped(s: string)
    ensures Value(s) == Shifted(Value(Stripped(s)), |s| - |Stripped(s)|)
  {
    ValueZerosBack(Stripped(s), |s| - |Stripped(s)|);
  }

  lemma ValueZerosFront(k: nat, s: string)
    ensures Value(Zeros(k) + s) == Value(s)
  {
    ValueConcat(Zeros(k), s);
    ValueOfZeros(k);
  }

  lemma {:induction false} Nines(s: string)
    requires forall i | 0 <= i < |s| :: s[i] == '9'
    ensures Value(s) == Pow10(|s|) - 1
  {
    if s != [] {
      Nines(s[..|s| - 1]);
    }
  }

  /** Each character's distance from '0' (code 48), times its power of ten. */
  function Weighted(s: string): int
  {
    if s == [] then 0 else (s[0] as int - 48) * Pow10(|s| - 1) + Weighted(s[1..])
  }

  /** The digit loop computes the sum of its characters by place, whatever they are. */
  lemma {:induction false} ValueIsWeighted(s: string)
    ensures Value(s) == Weighted(s)
  {
    if s != [] {
      ValueIsWeighted(s[1..]);
      assert s == [s[0]] + s[1..];
      ValueConcat([s[0]], s[1..]);
      ValueOfOne(s[0]);
    }
  }

  lemma ValueOfOne(c: char)
    ensures Value([c]) == c as int - 48
  {
    assert [c][..0] == [];
  }
}
