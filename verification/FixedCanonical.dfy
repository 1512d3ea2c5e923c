// The texts the printer writes are exactly the canonical ones, and on those the parser is its
// inverse (fixed12.cpp:104-202).
module FixedCanonical {
  import opened Decimal
  import opened FixedText

  /** Digits of a whole number without a redundant zero in front. */
  predicate CanonicalWhole(s: string)
  {
    s != [] && IsDigits(s) && (s[0] == '0' ==> |s| == 1)
  }

  /** One to twelve fraction digits, the last one not zero. */
  predicate CanonicalFraction(s: string)
  {
    0 < |s| <= FRAC && IsDigits(s) && s[|s| - 1] != '0'
  }

  /** A whole part, and behind the point at p a fraction. */
  predicate CanonicalBody(body: string, p: nat)
    requires p <= |body|
  {
    CanonicalWhole(body[..p]) && (p < |body| ==> CanonicalFraction(body[p + 1..]))
  }

  /** A sign, never in front of zero; a whole part; and a point and a fraction or neither. */
  predicate Canonical(s: string)
  {
    var negative := s != [] && s[0] == '-';
    var body := if negative then s[1..] else s;
    CanonicalBody(body, Period(body)) && (negative ==> body != "0")
  }

  lemma {:induction false} DigitsOfValue(s: string)
    requires CanonicalWhole(s)
    ensures Value(s) >= 0 && Digits(Value(s)) == s && (s != "0" ==> Value(s) > 0)
  {
    var h, c := s[..|s| - 1], s[|s| - 1];
    if h == [] {
      DigitsPush(h, c, 0);
      assert s == [c];
    } else {
      DigitsOfValue(h);
      DigitsPush(h, c, Value(h));
      assert s == h + [c];
    }
  }

  /** One more digit behind a number without a redundant zero. */
  lemma DigitsPush(h: string, c: char, n: nat)
    requires IsDigit(c) && if h == [] then n == 0 else n > 0 && Digits(n) == h
    ensures var m := n * 10 + (c as int - '0' as int);
            m >= 0 && Digits(m) == h + [c] && (h + [c] != "0" ==> m > 0)
  {
    var d: nat := c as int - '0' as int;
    assert (n * 10 + d) / 10 == n && (n * 10 + d) % 10 == d && DigitChar(d) == c;
  }

  lemma DigitsAreCanonical(n: nat)
    ensures CanonicalWhole(Digits(n)) && (Digits(n) == "0" ==> n == 0)
  {
    NoLeadingZero(n);
  }

  /** Splits the zeros off the front. */
  lemma {:induction false} LeadingZeros(s: string) returns (k: nat, u: string)
    requires s != [] && s[|s| - 1] != '0'
    ensures s == Zeros(k) + u && u != [] && u[0] != '0' && u[|u| - 1] == s[|s| - 1]
  {
    if s[0] == '0' {
      var k', u' := LeadingZeros(s[1..]);
      k, u := k' + 1, u';
      assert s == ['0'] + s[1..];
      assert Zeros(k) == ['0'] + Zeros(k');
    } else {
      k, u := 0, s;
      assert s == Zeros(0) + s;
    }
  }

  lemma {:induction false} StrippedPadded(u: string, k: nat)
    requires u == [] || u[|u| - 1] != '0'
    ensures Stripped(u + Zeros(k)) == u
  {
    if k == 0 {
      assert u + Zeros(0) == u;
    } else {
      assert (u + Zeros(k))[..|u| + k - 1] == u + Zeros(k - 1);
      StrippedPadded(u, k - 1);
    }
  }

  /** A canonical fraction is the text printed for its units. */
  lemma FractionOfUnits(t: string)
    requires CanonicalFraction(t)
    ensures 0 < FractionUnits(t) < SCALE && FractionText(FractionUnits(t)) == t
  {
    var k, u := LeadingZeros(t);
    assert forall i | 0 <= i < |u| :: u[i] == t[k + i];
    FractionOf(k, u, FRAC - |t|);
  }

  lemma FractionOf(k: nat, u: string, back: nat)
    requires u != [] && IsDigits(u) && u[0] != '0' && u[|u| - 1] != '0' && k + |u| + back == FRAC
    ensures var t := Zeros(k) + u; 0 < FractionUnits(t) < SCALE && FractionText(FractionUnits(t)) == t
  {
    var w := u + Zeros(back);
    DigitsOfValue(w);
    UnitsOf(k, u, back);
    StrippedPadded(u, back);
    Below(w);
    TextOf(Value(w), k, w, u);
  }

  lemma UnitsOf(k: nat, u: string, back: nat)
    requires k + |u| + back == FRAC
    ensures FractionUnits(Zeros(k) + u) == Value(u + Zeros(back))
  {
    assert Zeros(k) + u + Zeros(back) == Zeros(k) + (u + Zeros(back));
    ValueZerosFront(k, u + Zeros(back));
    PaddedUnits(Zeros(k) + u, Value(u + Zeros(back)));
  }

  lemma TextOf(f: nat, k: nat, w: string, u: string)
    requires f < SCALE && Digits(f) == w && Stripped(w) == u && k + |w| == FRAC
    ensures FractionText(f) == Zeros(k) + u
  {
  }

  lemma Below(w: string)
    requires IsDigits(w) && |w| <= FRAC
    ensures Value(w) < SCALE
  {
    ValueBounds(w);
    Pow10Small();
    Pow10Monotone(|w|, FRAC);
  }

  lemma {:induction false} Pow10Monotone(j: nat, k: nat)
    requires j <= k
    ensures Pow10(j) <= Pow10(k)
  {
    if j < k {
      Pow10Monotone(j, k - 1);
    }
  }

  lemma PrintIsCanonical(v: int)
    ensures Canonical(Print(v))
  {
    var i, f := Abs(v) / SCALE, Abs(v) % SCALE;
    PrintIsText(v);
    DigitsAreCanonical(i);
    if f != 0 {
      FractionDenotes(f);
      PeriodAfterDigits(Digits(i), FractionText(f));
      TextIsCanonical(v < 0, Digits(i), FractionText(f));
    } else {
      NoPeriod(Digits(i));
      WholeIsCanonical(v < 0, Digits(i));
    }
  }

  lemma NoPeriod(s: string)
    requires IsDigits(s)
    ensures Period(s) == |s|
  {
  }

  lemma TextIsCanonical(negative: bool, whole: string, fraction: string)
    requires CanonicalWhole(whole) && CanonicalFraction(fraction)
    requires Period(whole + "." + fraction) == |whole|
    ensures Canonical(Text(negative, whole, fraction))
  {
    var body := whole + "." + fraction;
    var s := Signed(negative, body);
    assert body[..|whole|] == whole && body[|whole| + 1..] == fraction;
    assert if negative then s[1..] == body else s == body && body[0] != '-';
  }

  lemma WholeIsCanonical(negative: bool, whole: string)
    requires CanonicalWhole(whole) && Period(whole) == |whole| && (negative ==> whole != "0")
    ensures Canonical(Signed(negative, whole))
  {
    var s := Signed(negative, whole);
    assert whole[..|whole|] == whole;
    assert if negative then s[1..] == whole else s == whole && whole[0] != '-';
  }

  lemma SplitUnits(negative: bool, i: nat, f: nat, v: int)
    requires f < SCALE && (negative ==> i > 0 || f > 0)
    requires v == if negative then -(i * SCALE + f) else i * SCALE + f
    ensures Abs(v) / SCALE == i && Abs(v) % SCALE == f && (v < 0 <==> negative)
  {
  }

  lemma PrintSplit(v: int, i: nat, f: nat)
    requires Abs(v) / SCALE == i && Abs(v) % SCALE == f
    ensures f == 0 ==> Print(v) == Signed(v < 0, Digits(i))
    ensures f != 0 ==> Print(v) == Text(v < 0, Digits(i), FractionText(f))
  {
    PrintIsText(v);
  }

  lemma PrintWhole(negative: bool, whole: string, i: nat, v: int)
    requires (negative ==> i > 0) && Digits(i) == whole && v == if negative then -(i * SCALE) else i * SCALE
    ensures Print(v) == Signed(negative, whole)
  {
    SplitUnits(negative, i, 0, v);
    PrintSplit(v, i, 0);
  }

  lemma PrintText(negative: bool, whole: string, fraction: string, i: nat, f: nat, v: int)
    requires 0 < f < SCALE && Digits(i) == whole && FractionText(f) == fraction
    requires v == if negative then -(i * SCALE + f) else i * SCALE + f
    ensures Print(v) == Text(negative, whole, fraction)
  {
    SplitUnits(negative, i, f, v);
    PrintSplit(v, i, f);
  }

  lemma WholeBack(negative: bool, whole: string)
    requires CanonicalWhole(whole) && (negative ==> whole != "0")
    ensures Print(Parse(Signed(negative, whole), 0, 0)) == Signed(negative, whole)
  {
    DigitsOfValue(whole);
    ParseSigned(negative, whole, 0, 0);
    MagnitudeWithoutPeriod(whole, 0, 0);
    PrintWhole(negative, whole, Value(whole), Parse(Signed(negative, whole), 0, 0));
  }

  lemma TextBack(negative: bool, whole: string, fraction: string)
    requires CanonicalWhole(whole) && CanonicalFraction(fraction)
    ensures Print(Parse(Text(negative, whole, fraction), 0, 0)) == Text(negative, whole, fraction)
  {
    DigitsOfValue(whole);
    FractionOfUnits(fraction);
    ParseText(negative, whole, fraction, 0, 0);
    PrintText(negative, whole, fraction, Value(whole), FractionUnits(fraction),
              Parse(Text(negative, whole, fraction), 0, 0));
  }

  lemma SplitAtPoint(body: string, p: nat)
    requires p < |body| && body[p] == '.'
    ensures body == body[..p] + "." + body[p + 1..]
  {
  }

  lemma BodyBack(negative: bool, body: string, p: nat)
    requires p <= |body| && CanonicalBody(body, p) && (p < |body| ==> body[p] == '.')
    requires negative ==> body != "0"
    ensures var s := Signed(negative, body); |s| > 0 && Print(Parse(s, 0, 0)) == s
  {
    if p == |body| {
      assert body[..p] == body;
      WholeBack(negative, body);
    } else {
      SplitAtPoint(body, p);
      TextBack(negative, body[..p], body[p + 1..]);
    }
  }

  /** Parsing a canonical text and printing the value gives the text back, with the locals
      starting at zero. */
  lemma PrintParse(s: string)
    requires Canonical(s)
    ensures |s| > 0 && Print(Parse(s, 0, 0)) == s
  {
    var negative := s != [] && s[0] == '-';
    var body := if negative then s[1..] else s;
    BodyBack(negative, body, Period(body));
    assert s == Signed(negative, body);
  }

  lemma PointExactlyWhen(v: int)
    ensures '.' in Print(v) <==> Abs(v) % SCALE != 0
  {
    PrintIsText(v);
    var i, f := Digits(Abs(v) / SCALE), Abs(v) % SCALE;
    if f != 0 {
      HasPoint(v < 0, i, FractionText(f));
    } else {
      assert forall k | 0 <= k < |i| :: i[k] != '.';
    }
  }

  lemma HasPoint(negative: bool, whole: string, fraction: string)
    ensures '.' in Text(negative, whole, fraction)
  {
    var s := Text(negative, whole, fraction);
    assert s[if negative then |whole| + 1 else |whole|] == '.';
  }

  /** Parsing a canonical text and printing the value gives the text back exactly when the text
      has a point, or the local the parser then leaves unassigned happened to hold zero. */
  lemma PrintParseWith(s: string, unsetI: int, unsetF: int)
    requires Canonical(s)
    ensures |s| > 0 && (Print(Parse(s, unsetI, unsetF)) == s <==> '.' in s || unsetF == 0)
  {
    PrintParse(s);
    var v := Parse(s, 0, 0);
    PointExactlyWhen(v);
    ParsePrint(v, unsetI, unsetF);
    if Print(Parse(s, unsetI, unsetF)) == s {
      PrintInjective(Parse(s, unsetI, unsetF), v);
    }
  }

  /** So it does whatever the locals hold exactly for texts with a point. */
  lemma PrintParseExactlyWhen(s: string)
    requires Canonical(s) && |s| > 0
    ensures (forall i, f :: Print(Parse(s, i, f)) == s) <==> '.' in s
  {
    forall i, f
      ensures '.' in s ==> Print(Parse(s, i, f)) == s
    {
      PrintParseWith(s, i, f);
    }
    PrintParseWith(s, 0, 1);
    assert '.' !in s ==> Print(Parse(s, 0, 1)) != s;
  }

  /** The printer's texts are exactly the canonical ones. */
  lemma PrintedExactlyCanonical(s: string)
    ensures Canonical(s) <==> exists v :: Print(v) == s
  {
    if Canonical(s) {
      PrintParse(s);
    }
    forall v | Print(v) == s
      ensures Canonical(s)
    {
      PrintIsCanonical(v);
    }
  }
}
