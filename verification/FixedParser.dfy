// The parser of fixed12.cpp and the digit loop of cast.hpp as they run in 64-bit arithmetic,
// and the texts on which no step of theirs overflows.
module FixedParser {
  import opened Decimal
  import opened FixedText

  /** Step k of the digit loop stays in 64 bits. */
  predicate StepInRange(s: string, k: nat)
    requires 0 < k <= |s|
  {
    Fits64(Value(s[..k - 1]) * 10) && Fits64(Value(s[..k]))
  }

  predicate ReadsInRange(s: string) { forall k | 0 < k <= |s| :: StepInRange(s, k) }

  method StrToI(s: string) returns (result: int)
    requires ReadsInRange(s)
    ensures result == Value(s) == Weighted(s)
  {
    ValueIsWeighted(s);
    result := 0;
    for k := 0 to |s|
      invariant result == Value(s[..k])
    {
      assert s[..k + 1][..k] == s[..k];
      assert StepInRange(s, k + 1);
      assert Fits64(result * 10) && Fits64(result * 10 + (s[k] as int - '0' as int));
      result := result * 10 + (s[k] as int - '0' as int);
    }
    assert s[..|s|] == s;
  }

  /** The digit strings read for the fraction. */
  predicate FractionInRange(fs: string)
  {
    (|fs| > FRAC ==> ReadsInRange(fs[..FRAC + 1])) && ReadsInRange(FractionDigits(fs))
  }

  /** Every step of the parser on a text without its sign stays in 64 bits. */
  predicate BodyInRange(body: string, unsetI: int, unsetF: int)
  {
    var p := Period(body);
    && (p == |body| || p > 0 ==> ReadsInRange(body[..p]))
    && (p < |body| ==> FractionInRange(body[p + 1..]))
    && Fits64((if p == |body| || p > 0 then Value(body[..p]) else unsetI) * SCALE)
    && Fits64(Magnitude(body, unsetI, unsetF)) && Fits64(-Magnitude(body, unsetI, unsetF))
  }

  predicate InRange(s: string, unsetI: int, unsetF: int)
    requires |s| > 0
  {
    BodyInRange(if s[0] == '-' then s[1..] else s, unsetI, unsetF)
  }

  /** The twelve-character fraction: padded, or read, rounded and cut. */
  method ReadFraction(fraction: string) returns (f: int)
    requires FractionInRange(fraction)
    ensures f == FractionUnits(fraction)
  {
    var fs := fraction;
    if |fs| > FRAC {
      var decimalPart := StrToI(fs[..FRAC + 1]);
      if LastDigit(decimalPart) >= 5 {
        fs := ToString(Tenth(decimalPart) + 1);
      } else {
        fs := ToString(Tenth(decimalPart));
      }
      fs := Take(fs, FRAC);
    } else {
      fs := fs + Zeros(FRAC - |fs|);
    }
    assert fs == FractionDigits(fraction);
    f := StrToI(Take(fs, FRAC));
  }

  /** Parses a text. unsetI and unsetF are what the two locals hold before they are assigned. */
  method NewStringView(s: string, unsetI: int, unsetF: int) returns (v: int)
    requires |s| > 0 && InRange(s, unsetI, unsetF)
    ensures v == Parse(s, unsetI, unsetF)
  {
    var i, f := unsetI, unsetF;
    var sign := if s[0] == '-' then -1 else 1;
    var body := if sign == -1 then s[1..] else s;
    var period := Period(body);
    if period == |body| {
      assert body[..period] == body;
      i := StrToI(body);
    } else {
      if period > 0 {
        i := StrToI(body[..period]);
      }
      f := ReadFraction(body[period + 1..]);
    }
    assert i * SCALE + f == Magnitude(body, unsetI, unsetF);
    v := sign * (i * SCALE + f);
  }

  // ---------- Texts that stay in range ----------

  lemma {:induction false} PrefixIsSmaller(s: string, k: nat)
    requires IsDigits(s) && k <= |s|
    ensures 0 <= Value(s[..k]) <= Value(s)
  {
    if k == |s| {
      assert s[..k] == s;
      ValueBounds(s);
    } else {
      var h := s[..|s| - 1];
      PrefixIsSmaller(h, k);
      assert h[..k] == s[..k];
    }
  }

  lemma PrefixStep(s: string, k: nat)
    requires IsDigits(s) && 0 < k <= |s|
    ensures Value(s[..k - 1]) * 10 <= Value(s[..k])
  {
    assert s[..k][..k - 1] == s[..k - 1];
  }

  /** A digit string is read without overflow exactly when its value fits. */
  lemma DigitsInRange(s: string)
    requires IsDigits(s)
    ensures ReadsInRange(s) <==> Value(s) <= INT64_MAX
  {
    if Value(s) <= INT64_MAX {
      forall k | 0 < k <= |s|
        ensures StepInRange(s, k)
      {
        PrefixIsSmaller(s, k);
        PrefixIsSmaller(s, k - 1);
        PrefixStep(s, k);
      }
    }
    if ReadsInRange(s) && s != [] {
      assert StepInRange(s, |s|);
      assert s[..|s|] == s;
    }
  }

  lemma ShortDigitsInRange(s: string)
    requires IsDigits(s) && |s| <= 13
    ensures ReadsInRange(s)
  {
    ValueBounds(s);
    Pow10Small();
    Pow10Sum(|s|, 13 - |s|);
    PowerIsFactor(Pow10(|s|), Pow10(13 - |s|));
    DigitsInRange(s);
  }

  lemma PowerIsFactor(a: int, b: int)
    requires a >= 1 && b >= 1
    ensures a <= a * b
  {
  }

  lemma FractionIsInRange(fs: string)
    requires IsDigits(fs)
    ensures FractionInRange(fs) && FractionUnits(fs) >= 0
  {
    if |fs| > FRAC {
      ShortDigitsInRange(fs[..FRAC + 1]);
      ValueBounds(fs[..FRAC + 1]);
    }
    var d := FractionDigits(fs);
    ShortDigitsInRange(d);
    ValueBounds(d);
  }

  lemma BodyWithPoint(body: string, p: nat, m: int, unsetI: int, unsetF: int)
    requires 0 < p < |body| && Period(body) == p && Magnitude(body, unsetI, unsetF) == m
    requires FractionInRange(body[p + 1..])
    ensures BodyInRange(body, unsetI, unsetF)
       <==> ReadsInRange(body[..p]) && Fits64(Value(body[..p]) * SCALE) && Fits64(m) && Fits64(-m)
  {
  }

  /** With whole part i and f parts of 10^12, only the sum can be too large. */
  lemma SumDecides(whole: string, i: nat, f: nat)
    requires IsDigits(whole) && Value(whole) == i
    ensures var m := i * SCALE + f;
            m <= INT64_MAX <==> ReadsInRange(whole) && Fits64(i * SCALE) && Fits64(m) && Fits64(-m)
  {
    DigitsInRange(whole);
  }

  lemma BodyTextInRange(whole: string, fraction: string, unsetI: int, unsetF: int)
    requires whole != [] && IsDigits(whole) && IsDigits(fraction)
    ensures BodyInRange(whole + "." + fraction, unsetI, unsetF)
       <==> Value(whole) * SCALE + FractionUnits(fraction) <= INT64_MAX
  {
    var body := whole + "." + fraction;
    PeriodAfterDigits(whole, fraction);
    assert body[..|whole|] == whole && body[|whole| + 1..] == fraction;
    MagnitudeText(whole, fraction, unsetI, unsetF);
    FractionIsInRange(fraction);
    ValueBounds(whole);
    BodyWithPoint(body, |whole|, Value(whole) * SCALE + FractionUnits(fraction), unsetI, unsetF);
    SumDecides(whole, Value(whole), FractionUnits(fraction));
  }

  /** The parser overflows nowhere on a well-formed text exactly when the magnitude it
      computes is a 64-bit value. */
  lemma TextInRange(negative: bool, whole: string, fraction: string, unsetI: int, unsetF: int)
    requires whole != [] && IsDigits(whole) && IsDigits(fraction)
    ensures InRange(Text(negative, whole, fraction), unsetI, unsetF)
       <==> Value(whole) * 1_000_000_000_000 + FractionUnits(fraction) <= 0x7fff_ffff_ffff_ffff
  {
    var s := Text(negative, whole, fraction);
    BodyTextInRange(whole, fraction, unsetI, unsetF);
    assert (if s[0] == '-' then s[1..] else s) == whole + "." + fraction;
  }

  /** What the printer writes for a value with a fraction, the parser reads in range. */
  lemma PrintedInRange(v: int, unsetI: int, unsetF: int)
    requires -INT64_MAX <= v <= INT64_MAX && Abs(v) % SCALE != 0
    ensures |Print(v)| > 0 && InRange(Print(v), unsetI, unsetF)
  {
    var i, f := Abs(v) / SCALE, Abs(v) % SCALE;
    PrintIsText(v);
    ValueOfDigits(i);
    FractionDenotes(f);
    PrintedFraction(f);
    TextInRange(v < 0, Digits(i), FractionText(f), unsetI, unsetF);
  }
}
