// The text form of fixed-point numbers with twelve fraction digits (fixed12.cpp): what the
// printer writes, what the parser returns, and how the two fit together.
module FixedText {
  import opened Decimal

  const SCALE: nat := 1_000_000_000_000
  const FRAC: nat := 12
  const INT64_MAX: int := 0x7fff_ffff_ffff_ffff

  predicate Fits64(x: int) { -INT64_MAX - 1 <= x <= INT64_MAX }

  // C++ division and remainder by ten, truncating toward zero.
  function Tenth(a: int): int { if a >= 0 then a / 10 else -(-a / 10) }

  function LastDigit(a: int): int { a - 10 * Tenth(a) }

  function Abs(x: int): nat { if x < 0 then -x else x }

  // ---------- The printer ----------

  /** The fraction as printed: padded on the left to twelve digits, zeros at the end dropped. */
  function FractionText(f: nat): string
    requires f < SCALE
  {
    DigitsLength12(f);
    Zeros(FRAC - |Digits(f)|) + Stripped(Digits(f))
  }

  lemma DigitsLength12(f: nat)
    requires f < SCALE
    ensures |Digits(f)| <= FRAC
  {
    Pow10Small();
    DigitsLength(f, 12);
  }

  /** The text written for the stored value v. */
  function Print(v: int): string
  {
    var i, f := Abs(v) / SCALE, Abs(v) % SCALE;
    (if v < 0 then "-" else "") + Digits(i) + (if f > 0 then "." + FractionText(f) else "")
  }

  /** A fraction text of at most twelve digits denotes f parts of 10^12. */
  lemma FractionDenotes(f: nat)
    requires 0 < f < SCALE
    ensures var t := FractionText(f);
            0 < |t| <= FRAC && IsDigits(t) && t[|t| - 1] != '0' && Shifted(Value(t), FRAC - |t|) == f
  {
    DigitsLength12(f);
    ValueOfDigits(f);
    PaddedDenotes(FRAC - |Digits(f)|, Digits(f), FRAC);
  }

  lemma PaddedDenotes(k: nat, d: string, n: nat)
    requires IsDigits(d) && Value(d) > 0 && k + |d| == n
    ensures var t := Zeros(k) + Stripped(d);
            0 < |t| <= n && IsDigits(t) && t[|t| - 1] != '0' && Shifted(Value(t), n - |t|) == Value(d)
  {
    ValueStripped(d);
    NothingStripped(d);
    PaddedFraction(k, d, Stripped(d));
  }

  lemma NothingStripped(d: string)
    requires Value(d) > 0
    ensures Stripped(d) != []
  {
    ValueStripped(d);
    ShiftedIsProduct(0, |d|);
  }

  lemma PaddedFraction(k: nat, d: string, s: string)
    requires IsDigits(d) && s != [] && |s| <= |d| && d == s + Zeros(|d| - |s|)
    ensures IsDigits(Zeros(k) + s) && Value(Zeros(k) + s) == Value(s)
    ensures (Zeros(k) + s)[|Zeros(k) + s| - 1] == s[|s| - 1]
  {
    ValueZerosFront(k, s);
    forall j | 0 <= j < |Zeros(k) + s|
      ensures IsDigit((Zeros(k) + s)[j])
    {
      if j >= k {
        assert (Zeros(k) + s)[j] == s[j - k] == d[j - k];
      }
    }
  }

  // ---------- The parser ----------

  /** The position of the first '.', or the length when there is none. */
  function Period(s: string): (p: nat)
    ensures p <= |s| && (p < |s| ==> s[p] == '.')
    ensures forall k | 0 <= k < p :: s[k] != '.'
  {
    if s == [] then 0 else if s[0] == '.' then 0 else Period(s[1..]) + 1
  }

  function ToString(x: int): string { if x < 0 then "-" + Digits(-x) else Digits(x) }

  function Take(s: string, k: nat): string { if |s| <= k then s else s[..k] }

  /** Rounds at the thirteenth character and cuts to twelve characters again. */
  function RoundedText(fs: string): string
    requires |fs| > FRAC
  {
    var d := Value(fs[..FRAC + 1]);
    Take(ToString(Tenth(d) + if LastDigit(d) >= 5 then 1 else 0), FRAC)
  }

  /** The twelve-digit fraction the parser reads: padded when short, rounded when long. */
  function FractionDigits(fs: string): string
  {
    if |fs| > FRAC then RoundedText(fs) else fs + Zeros(FRAC - |fs|)
  }

  /** The fraction in parts of 10^12. */
  function FractionUnits(fs: string): int { Value(FractionDigits(fs)) }

  /** The magnitude of a text without its sign. unsetI and unsetF are what the parser's two
      locals hold before they are assigned. */
  function Magnitude(body: string, unsetI: int, unsetF: int): int
  {
    var p := Period(body);
    var i := if p == |body| || p > 0 then Value(body[..p]) else unsetI;
    var f := if p == |body| then unsetF else FractionUnits(body[p + 1..]);
    i * SCALE + f
  }

  /** The value returned for a non-empty text. */
  function Parse(s: string, unsetI: int, unsetF: int): int
    requires |s| > 0
  {
    if s[0] == '-' then -Magnitude(s[1..], unsetI, unsetF) else Magnitude(s, unsetI, unsetF)
  }

  /** Without its sign the text has a point behind at least one character. */
  predicate Pointed(s: string)
    requires |s| > 0
  {
    var body := if s[0] == '-' then s[1..] else s;
    0 < Period(body) < |body|
  }

  /** The result does not depend on what the locals hold exactly for such texts. */
  lemma ParseSettledExactlyWhen(s: string)
    requires |s| > 0
    ensures (forall i, f, i', f' :: Parse(s, i, f) == Parse(s, i', f')) <==> Pointed(s)
  {
    if !Pointed(s) {
      var body := if s[0] == '-' then s[1..] else s;
      assert Magnitude(body, 0, 0) != Magnitude(body, 1, 1);
      assert Parse(s, 0, 0) != Parse(s, 1, 1);
    }
  }

  function Signed(negative: bool, body: string): string { (if negative then "-" else "") + body }

  /** Well-formed text: an optional sign, digits, a point, digits. */
  function Text(negative: bool, whole: string, fraction: string): (s: string)
    ensures |s| > 0
  {
    Signed(negative, whole + "." + fraction)
  }

  lemma {:induction false} PeriodAfterDigits(whole: string, rest: string)
    requires IsDigits(whole)
    ensures Period(whole + "." + rest) == |whole|
  {
    if whole != [] {
      assert (whole + "." + rest)[1..] == whole[1..] + "." + rest;
      PeriodAfterDigits(whole[1..], rest);
    }
  }

  lemma ParseSigned(negative: bool, body: string, unsetI: int, unsetF: int)
    requires |body| > 0 && IsDigit(body[0])
    ensures Parse(Signed(negative, body), unsetI, unsetF)
         == if negative then -Magnitude(body, unsetI, unsetF) else Magnitude(body, unsetI, unsetF)
  {
    var s := Signed(negative, body);
    if negative {
      assert s[1..] == body;
    } else {
      assert s == body;
    }
  }

  lemma MagnitudeText(whole: string, fraction: string, unsetI: int, unsetF: int)
    requires whole != [] && IsDigits(whole)
    ensures Magnitude(whole + "." + fraction, unsetI, unsetF)
         == Value(whole) * SCALE + FractionUnits(fraction)
  {
    var body := whole + "." + fraction;
    PeriodAfterDigits(whole, fraction);
    assert body[..|whole|] == whole && body[|whole| + 1..] == fraction;
  }

  lemma ParseText(negative: bool, whole: string, fraction: string, unsetI: int, unsetF: int)
    requires whole != [] && IsDigits(whole)
    ensures Parse(Text(negative, whole, fraction), unsetI, unsetF)
         == (var m := Value(whole) * SCALE + FractionUnits(fraction); if negative then -m else m)
  {
    ParseSigned(negative, whole + "." + fraction, unsetI, unsetF);
    MagnitudeText(whole, fraction, unsetI, unsetF);
  }

  // ---------- Rounding ----------

  /** Rounding carries out of the twelve digits. */
  predicate Carries(fraction: string)
  {
    |fraction| > FRAC && Value(fraction[..FRAC + 1]) >= 9_999_999_999_995
  }

  lemma DigitsLengthExact(f: nat)
    ensures f < SCALE ==> Take(ToString(f), FRAC) == Digits(f)
    ensures f == SCALE ==> Value(Take(ToString(f), FRAC)) == 100_000_000_000
  {
    if f < SCALE {
      DigitsLength12(f);
    } else if f == SCALE {
      CarryText();
    }
  }

  lemma {:induction false} DigitsOfPower(k: nat)
    ensures Digits(Pow10(k)) == "1" + Zeros(k)
  {
    if k > 0 {
      DigitsOfPower(k - 1);
      assert Pow10(k) / 10 == Pow10(k - 1) && Pow10(k) % 10 == 0;
      assert Zeros(k) == Zeros(k - 1) + ['0'];
    } else {
      assert Digits(1) == "1";
    }
  }

  lemma CarryText()
    ensures Value(Take(ToString(SCALE), FRAC)) == 100_000_000_000
  {
    Pow10Small();
    DigitsOfPower(12);
    assert Take(ToString(SCALE), FRAC) == "1" + Zeros(11);
    ValueConcat("1", Zeros(11));
    ValueOfZeros(11);
    assert Value("1") == 1 by {
      assert "1"[..0] == [];
    }
    assert Pow10(11) == 100_000_000_000;
  }

  lemma PaddedUnits(fraction: string, u: int)
    requires |fraction| <= FRAC && Value(fraction + Zeros(FRAC - |fraction|)) == u
    ensures FractionUnits(fraction) == u
  {
  }

  lemma ShortUnits(fraction: string, k: nat)
    requires |fraction| + k == FRAC
    ensures FractionUnits(fraction) == Shifted(Value(fraction), k)
  {
    ValueZerosBack(fraction, k);
    PaddedUnits(fraction, Shifted(Value(fraction), k));
  }

  lemma RoundedQuotient(d: nat)
    ensures Tenth(d) + (if LastDigit(d) >= 5 then 1 else 0) == (d + 5) / 10
  {
  }

  /** The fraction units of a long digit string: rounded half up at the thirteenth digit or,
      when that carries, a tenth instead of a whole. */
  lemma LongUnits(fraction: string)
    requires IsDigits(fraction) && |fraction| > FRAC
    ensures 0 <= Value(fraction[..FRAC + 1]) < 10_000_000_000_000
    ensures FractionUnits(fraction) ==
            if Carries(fraction) then 100_000_000_000 else (Value(fraction[..FRAC + 1]) + 5) / 10
  {
    var head := fraction[..FRAC + 1];
    ValueBounds(head);
    Pow10Small();
    RoundedQuotient(Value(head));
    var r := (Value(head) + 5) / 10;
    DigitsLengthExact(r);
    ValueOfDigits(r);
  }

  /** r parts of 10^12 are nearest to N / 10^n, halves going up in magnitude. */
  predicate Nearest(r: nat, N: nat, n: nat)
  {
    (2 * r - 1) * Pow10(n) <= 2 * N * SCALE < (2 * r + 1) * Pow10(n)
  }

  /** The digits of whole and fraction as one number; the text denotes it over 10^|fraction|. */
  function Numerator(whole: string, fraction: string): int
  {
    Value(whole) * Pow10(|fraction|) + Value(fraction)
  }

  /** The rounding argument, with T = 10^(n - 13), d the first thirteen fraction digits, t the
      rest, and products with T named. */
  lemma RoundsToNearest(wT: int, dT: int, fT: int, T: int, t: int)
    requires 0 <= t < T && 10 * fT - 5 * T <= dT <= 10 * fT + 4 * T
    ensures 2 * (10_000_000_000_000_000_000_000_000 * wT + 10_000_000_000_000 * fT) - 10_000_000_000_000 * T
         <= 2 * (10_000_000_000_000 * wT + dT + t) * SCALE
          < 2 * (10_000_000_000_000_000_000_000_000 * wT + 10_000_000_000_000 * fT) + 10_000_000_000_000 * T
  {
  }

  lemma LongFraction(whole: string, fraction: string)
    requires IsDigits(fraction) && |fraction| > FRAC
    ensures var head, tail := fraction[..FRAC + 1], fraction[FRAC + 1..];
            var T := Pow10(|tail|);
            && Pow10(|fraction|) == 10_000_000_000_000 * T
            && 0 <= Value(tail) < T
            && Numerator(whole, fraction)
               == 10_000_000_000_000 * (Value(whole) * T) + Value(head) * T + Value(tail)
  {
    var head, tail := fraction[..FRAC + 1], fraction[FRAC + 1..];
    var T := Pow10(|tail|);
    assert fraction == head + tail;
    ValueConcat(head, tail);
    ValueBounds(tail);
    Pow10Sum(13, |tail|);
    Pow10Small();
    Reorder(Value(whole), T);
  }

  lemma Reorder(w: int, T: int)
    ensures w * (10_000_000_000_000 * T) == 10_000_000_000_000 * (w * T)
  {
  }

  lemma Scaled(w: int, f: int, T: int)
    ensures (w * SCALE + f) * (10_000_000_000_000 * T)
         == 10_000_000_000_000_000_000_000_000 * (w * T) + 10_000_000_000_000 * (f * T)
  {
    assert (w * SCALE + f) * T == SCALE * (w * T) + f * T;
  }

  lemma TimesAtMost(x: int, y: int, T: nat)
    requires x <= y
    ensures x * T <= y * T
  {
  }

  lemma Monotone(d: int, f: int, T: nat)
    requires 10 * f - 5 <= d <= 10 * f + 4
    ensures 10 * (f * T) - 5 * T <= d * T <= 10 * (f * T) + 4 * T
  {
    TimesAtMost(10 * f - 5, d, T);
    TimesAtMost(d, 10 * f + 4, T);
    Affine(f, -5, T);
    Affine(f, 4, T);
  }

  lemma Affine(f: int, c: int, T: int)
    ensures (10 * f + c) * T == 10 * (f * T) + c * T
  {
  }

  lemma ShortIsExact(w: nat, f: nat, n: nat)
    requires n <= FRAC
    ensures f * Pow10(FRAC - n) >= 0
    ensures (w * SCALE + f * Pow10(FRAC - n)) * Pow10(n) == (w * Pow10(n) + f) * SCALE
  {
    Pow10Sum(FRAC - n, n);
    Pow10Small();
    Distribute(w, f, Pow10(FRAC - n), Pow10(n), SCALE);
  }

  lemma Distribute(w: int, f: int, a: int, b: int, s: int)
    requires a * b == s
    ensures (w * s + f * a) * b == (w * b + f) * s
  {
    assert f * (a * b) == (f * a) * b;
    assert (w * s) * b == (w * b) * s;
  }

  /** Nearness with the product named. */
  lemma NearestAs(r: nat, N: nat, n: nat, rP: int)
    requires rP == r * Pow10(n)
    ensures Nearest(r, N, n) <==> 2 * rP - Pow10(n) <= 2 * N * SCALE < 2 * rP + Pow10(n)
  {
    Doubled(r, Pow10(n));
  }

  lemma Doubled(r: int, P: int)
    ensures (2 * r - 1) * P == 2 * (r * P) - P && (2 * r + 1) * P == 2 * (r * P) + P
  {
  }

  lemma ExactIsNearest(r: nat, N: nat, n: nat)
    requires r * Pow10(n) == N * SCALE
    ensures Nearest(r, N, n)
  {
    NearestAs(r, N, n, r * Pow10(n));
  }

  lemma NumeratorIsNatural(whole: string, fraction: string)
    requires IsDigits(whole) && IsDigits(fraction)
    ensures Value(whole) >= 0 && Value(fraction) >= 0 && Numerator(whole, fraction) >= 0
  {
    ValueBounds(whole);
    ValueBounds(fraction);
    assert Value(whole) * Pow10(|fraction|) >= 0;
  }

  /** For a long fraction the parsed magnitude is nearest exactly when rounding does not carry. */
  lemma LongIsNearest(whole: string, fraction: string, r: nat)
    requires IsDigits(whole) && IsDigits(fraction) && |fraction| > FRAC
    requires r == Value(whole) * SCALE + FractionUnits(fraction)
    requires Numerator(whole, fraction) >= 0
    ensures Nearest(r, Numerator(whole, fraction), |fraction|) <==> !Carries(fraction)
  {
    LongFraction(whole, fraction);
    LongUnits(fraction);
    NearestUnlessCarry(Value(whole), Value(fraction[..FRAC + 1]), FractionUnits(fraction),
                       Pow10(|fraction[FRAC + 1..]|), Value(fraction[FRAC + 1..]),
                       r, Numerator(whole, fraction), |fraction|);
  }

  /** The same on numbers: whole part w, the first thirteen fraction digits d, the units f read
      from them, and t for the digits behind, one of T. */
  lemma NearestUnlessCarry(w: int, d: int, f: int, T: nat, t: int, r: nat, N: nat, n: nat)
    requires Pow10(n) == 10_000_000_000_000 * T && 0 <= t < T
    requires N == 10_000_000_000_000 * (w * T) + d * T + t && r == w * SCALE + f
    requires 0 <= d < 10_000_000_000_000
    requires f == if d >= 9_999_999_999_995 then 100_000_000_000 else (d + 5) / 10
    ensures Nearest(r, N, n) <==> d < 9_999_999_999_995
  {
    Scaled(w, f, T);
    NearestAs(r, N, n, 10_000_000_000_000_000_000_000_000 * (w * T) + 10_000_000_000_000 * (f * T));
    if d >= 9_999_999_999_995 {
      Monotone(d, 1_000_000_000_000, T);
      CarryMisses(w * T, d * T, f * T, T, t);
    } else {
      Monotone(d, f, T);
      RoundsToNearest(w * T, d * T, f * T, T, t);
    }
  }

  lemma CarryMisses(wT: int, dT: int, fT: int, T: int, t: int)
    requires 0 <= t < T && fT == 100_000_000_000 * T && dT >= 10 * (1_000_000_000_000 * T) - 5 * T
    ensures 2 * (10_000_000_000_000 * wT + dT + t) * SCALE
         >= 2 * (10_000_000_000_000_000_000_000_000 * wT + 10_000_000_000_000 * fT) + 10_000_000_000_000 * T
  {
  }

  /** r is what the parser makes of the digits whole.fraction. */
  ghost predicate Rounded(r: nat, whole: string, fraction: string)
  {
    && Numerator(whole, fraction) >= 0
    && (|fraction| <= FRAC ==> r * Pow10(|fraction|) == Numerator(whole, fraction) * SCALE)
    && (Nearest(r, Numerator(whole, fraction), |fraction|) <==> !Carries(fraction))
    && (Carries(fraction) ==> r == Value(whole) * SCALE + 100_000_000_000)
  }

  lemma ShortMagnitude(w: nat, f: nat, n: nat, r: int)
    requires n <= FRAC && r == w * SCALE + Shifted(f, FRAC - n)
    ensures r >= 0 && r * Pow10(n) == (w * Pow10(n) + f) * SCALE
  {
    ShiftedIsProduct(f, FRAC - n);
    ShortIsExact(w, f, n);
  }

  lemma ExactIsRounded(whole: string, fraction: string, r: nat)
    requires Numerator(whole, fraction) >= 0 && |fraction| <= FRAC
    requires r * Pow10(|fraction|) == Numerator(whole, fraction) * SCALE
    ensures Rounded(r, whole, fraction)
  {
    ExactIsNearest(r, Numerator(whole, fraction), |fraction|);
  }

  lemma ShortIsRounded(whole: string, fraction: string, r: int)
    requires IsDigits(whole) && IsDigits(fraction) && |fraction| <= FRAC
    requires r == Value(whole) * SCALE + FractionUnits(fraction)
    ensures r >= 0 && Rounded(r, whole, fraction)
  {
    NumeratorIsNatural(whole, fraction);
    ShortUnits(fraction, FRAC - |fraction|);
    ShortMagnitude(Value(whole), Value(fraction), |fraction|, r);
    ExactIsRounded(whole, fraction, r);
  }

  lemma LongIsRounded(whole: string, fraction: string, r: int)
    requires IsDigits(whole) && IsDigits(fraction) && |fraction| > FRAC
    requires r == Value(whole) * SCALE + FractionUnits(fraction)
    ensures r >= 0 && Rounded(r, whole, fraction)
  {
    NumeratorIsNatural(whole, fraction);
    LongUnits(fraction);
    LongIsNearest(whole, fraction, r);
  }

  lemma IsRounded(whole: string, fraction: string, r: int)
    requires IsDigits(whole) && IsDigits(fraction) && r == Value(whole) * SCALE + FractionUnits(fraction)
    ensures r >= 0 && Rounded(r, whole, fraction)
  {
    if |fraction| <= FRAC {
      ShortIsRounded(whole, fraction, r);
    } else {
      LongIsRounded(whole, fraction, r);
    }
  }

  lemma RoundedWithSign(negative: bool, whole: string, fraction: string, r: int, v: int)
    requires r >= 0 && Rounded(r, whole, fraction) && v == if negative then -r else r
    ensures Rounded(Abs(v), whole, fraction) && if negative then v <= 0 else v >= 0
  {
    assert Abs(v) == r;
  }

  lemma MagnitudeIsRounded(negative: bool, whole: string, fraction: string, v: int)
    requires IsDigits(whole) && IsDigits(fraction)
    requires v == (var m := Value(whole) * SCALE + FractionUnits(fraction); if negative then -m else m)
    ensures (if negative then v <= 0 else v >= 0) && Rounded(Abs(v), whole, fraction)
  {
    var r := Value(whole) * SCALE + FractionUnits(fraction);
    IsRounded(whole, fraction, r);
    RoundedWithSign(negative, whole, fraction, r, v);
  }

  /** The parser on well-formed text: exact up to twelve fraction digits; for any number of
      digits the nearest part of 10^12, halves away from zero, exactly when rounding the
      thirteenth digit does not carry out of the fraction; then a tenth is read instead. What
      the locals held before does not matter. */
  lemma ParserRounds(negative: bool, whole: string, fraction: string, unsetI: int, unsetF: int)
    requires whole != [] && IsDigits(whole) && IsDigits(fraction)
    ensures var v := Parse(Text(negative, whole, fraction), unsetI, unsetF);
            (if negative then v <= 0 else v >= 0) && Rounded(Abs(v), whole, fraction)
  {
    ParseText(negative, whole, fraction, unsetI, unsetF);
    MagnitudeIsRounded(negative, whole, fraction, Parse(Text(negative, whole, fraction), unsetI, unsetF));
  }

  /** The shortest fraction that carries: 0.9999999999995 is read as a tenth. */
  lemma CarryReadsTenth(unsetI: int, unsetF: int)
    ensures Parse(Text(false, "0", "9999999999995"), unsetI, unsetF) == 100_000_000_000
  {
    var fraction := "9999999999995";
    assert fraction[..FRAC + 1] == fraction;
    CarryDigits();
    ParserRounds(false, "0", fraction, unsetI, unsetF);
    assert "0" == Zeros(1);
    ValueOfZeros(1);
  }

  lemma CarryDigits()
    ensures Value("9999999999995") == 9_999_999_999_995
  {
    Nines("999999999999");
    Pow10Small();
    assert "9999999999995"[..12] == "999999999999";
  }

  // ---------- Printing and parsing ----------

  lemma Glue(negative: bool, whole: string, fraction: string)
    ensures (if negative then "-" else "") + whole + ("." + fraction) == Text(negative, whole, fraction)
    ensures (if negative then "-" else "") + whole + "" == Signed(negative, whole)
  {
    var sign := if negative then "-" else "";
    assert (sign + whole) + ("." + fraction) == sign + (whole + "." + fraction);
    assert (sign + whole) + "" == sign + whole;
  }

  lemma PrintIsText(v: int)
    ensures Abs(v) % SCALE != 0 ==>
              Print(v) == Text(v < 0, Digits(Abs(v) / SCALE), FractionText(Abs(v) % SCALE))
    ensures Abs(v) % SCALE == 0 ==> Print(v) == Signed(v < 0, Digits(Abs(v) / SCALE))
  {
    Glue(v < 0, Digits(Abs(v) / SCALE), FractionText(Abs(v) % SCALE));
  }

  /** A printed text is read back as the value printed when it has a fraction. Without one
      the parser never assigns its fraction, so the result is off by what that local held. */
  lemma ParsePrint(v: int, unsetI: int, unsetF: int)
    ensures Parse(Print(v), unsetI, unsetF)
         == if Abs(v) % SCALE != 0 then v else if v < 0 then v - unsetF else v + unsetF
  {
    var i, f := Abs(v) / SCALE, Abs(v) % SCALE;
    PrintIsText(v);
    ValueOfDigits(i);
    if f != 0 {
      ParseText(v < 0, Digits(i), FractionText(f), unsetI, unsetF);
      PrintedFraction(f);
    } else {
      ParseSigned(v < 0, Digits(i), unsetI, unsetF);
      MagnitudeWithoutPeriod(Digits(i), unsetI, unsetF);
    }
  }

  lemma PrintedFraction(f: nat)
    requires 0 < f < SCALE
    ensures FractionUnits(FractionText(f)) == f
  {
    FractionDenotes(f);
    ShortUnits(FractionText(f), FRAC - |FractionText(f)|);
  }

  lemma MagnitudeWithoutPeriod(whole: string, unsetI: int, unsetF: int)
    requires IsDigits(whole)
    ensures Magnitude(whole, unsetI, unsetF) == Value(whole) * SCALE + unsetF
  {
    assert Period(whole) == |whole|;
    assert whole[..|whole|] == whole;
  }

  /** Text without a point: the whole number, off by what the fraction's local held. */
  lemma ParseWithoutPoint(negative: bool, whole: string, unsetI: int, unsetF: int)
    requires whole != [] && IsDigits(whole)
    ensures Parse(Signed(negative, whole), unsetI, unsetF)
         == (var m := Value(whole) * SCALE + unsetF; if negative then -m else m)
  {
    ParseSigned(negative, whole, unsetI, unsetF);
    MagnitudeWithoutPeriod(whole, unsetI, unsetF);
  }

  /** Text with the point first: the fraction, off by what the whole part's local held. */
  lemma ParsePointFirst(negative: bool, fraction: string, unsetI: int, unsetF: int)
    requires IsDigits(fraction)
    ensures Parse(Signed(negative, "." + fraction), unsetI, unsetF)
         == (var m := unsetI * SCALE + FractionUnits(fraction); if negative then -m else m)
  {
    var body := "." + fraction;
    var s := Signed(negative, body);
    assert (if s[0] == '-' then s[1..] else s) == body;
    assert Period(body) == 0 && body[1..] == fraction;
  }

  /** Printing then parsing restores a value, whatever the locals hold, exactly when the value
      is not a whole number. */
  lemma RoundTripExactlyWhen(v: int)
    ensures (forall i, f :: Parse(Print(v), i, f) == v) <==> Abs(v) % SCALE != 0
  {
    forall i, f
      ensures Abs(v) % SCALE != 0 ==> Parse(Print(v), i, f) == v
    {
      ParsePrint(v, i, f);
    }
    ParsePrint(v, 0, 1);
    assert Abs(v) % SCALE == 0 ==> Parse(Print(v), 0, 1) != v;
  }

  /** No two values print alike. */
  lemma PrintInjective(v: int, w: int)
    requires Print(v) == Print(w)
    ensures v == w
  {
    ParsePrint(v, 0, 0);
    ParsePrint(w, 0, 0);
  }
}
