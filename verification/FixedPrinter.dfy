// The printer of fixed12.cpp as it runs: digits put into the caller's buffer backwards and
// reversed in place, then the point and the fraction, then the terminator.
module FixedPrinter {
  import Bits
  import opened Decimal
  import opened FixedText

  function Reversed(s: string): (r: string)
    ensures |r| == |s|
  {
    if s == [] then [] else Reversed(s[1..]) + [s[0]]
  }

  lemma {:induction false} ReversedAt(s: string, k: nat)
    requires k < |s|
    ensures Reversed(s)[k] == s[|s| - 1 - k]
  {
    if k < |s| - 1 {
      ReversedAt(s[1..], k);
    }
  }

  lemma {:induction false} ReversedPush(s: string, c: char)
    ensures Reversed(s + [c]) == [c] + Reversed(s)
  {
    if s == [] {
      assert Reversed([c]) == [c];
    } else {
      assert (s + [c])[1..] == s[1..] + [c];
      ReversedPush(s[1..], c);
    }
  }

  /** Puts the digits of n at the start of the buffer, last digit first. */
  method PutReversed(result: array<char>, n: nat) returns (index: nat)
    requires |Digits(n)| <= result.Length
    modifies result
    ensures index == |Digits(n)| && Reversed(result[..index]) == Digits(n)
    ensures forall k | index <= k < result.Length :: result[k] == old(result[k])
  {
    index := 0;
    var rest := n;
    assert Digits(rest) + Reversed(result[..0]) == Digits(n);
    while true
      invariant index + |Digits(rest)| == |Digits(n)|
      invariant Digits(rest) + Reversed(result[..index]) == Digits(n)
      invariant forall k | index <= k < result.Length :: result[k] == old(result[k])
      decreases rest
    {
      ghost var before := result[..index];
      var c := DigitChar(rest % 10);
      result[index] := c;
      assert result[..index + 1] == before + [c];
      ReversedPush(before, c);
      index := index + 1;
      if rest / 10 == 0 {
        break;
      }
      assert Digits(rest) == Digits(rest / 10) + [c];
      rest := rest / 10;
    }
  }

  /** Reverses the first n characters where they stand. */
  method ReversePrefix(result: array<char>, n: nat)
    requires n <= result.Length
    modifies result
    ensures result[..n] == Reversed(old(result[..n]))
    ensures forall k | n <= k < result.Length :: result[k] == old(result[k])
  {
    var i, j := 0, n - 1;
    while i < j
      invariant 0 <= i && i + j == n - 1 && i <= j + 1
      invariant forall k | 0 <= k < i :: result[k] == old(result[n - 1 - k])
      invariant forall k | j < k < n :: result[k] == old(result[n - 1 - k])
      invariant forall k | i <= k <= j :: result[k] == old(result[k])
      invariant forall k | n <= k < result.Length :: result[k] == old(result[k])
    {
      result[i], result[j] := result[j], result[i];
      i, j := i + 1, j - 1;
    }
    ghost var was := old(result[..n]);
    forall k | 0 <= k < n
      ensures result[k] == Reversed(was)[k]
    {
      ReversedAt(was, k);
    }
  }

  /** Writes the text at position n; the characters in front of it and behind it stay. */
  method PutZeros(result: array<char>, n: nat, count: nat)
    requires n + count <= result.Length
    modifies result
    ensures result[..n + count] == old(result[..n]) + Zeros(count)
    ensures forall k | n + count <= k < result.Length :: result[k] == old(result[k])
  {
    for i := 0 to count
      invariant result[..n + i] == old(result[..n]) + Zeros(i)
      invariant forall k | n + i <= k < result.Length :: result[k] == old(result[k])
    {
      result[n + i] := '0';
    }
  }

  method PutPrefix(result: array<char>, n: nat, text: string, count: nat)
    requires count <= |text| && n + count <= result.Length
    modifies result
    ensures result[..n + count] == old(result[..n]) + text[..count]
    ensures forall k | n + count <= k < result.Length :: result[k] == old(result[k])
  {
    for i := 0 to count
      invariant result[..n + i] == old(result[..n]) + text[..i]
      invariant forall k | n + i <= k < result.Length :: result[k] == old(result[k])
    {
      result[n + i] := text[i];
    }
  }

  /** The number of zeros at the end of a text. */
  method TrailingZeros(text: string) returns (count: nat)
    ensures count <= |text| && text[..|text| - count] == Stripped(text)
  {
    count := 0;
    var i := |text| - 1;
    assert text[..|text|] == text;
    while i >= 0
      invariant -1 <= i < |text| && count == |text| - 1 - i
      invariant Stripped(text[..i + 1]) == Stripped(text)
    {
      assert text[..i + 1][..i] == text[..i];
      if text[i] == '0' {
        count := count + 1;
      } else {
        break;
      }
      i := i - 1;
    }
  }

  /** The length of the text before the first terminator. */
  method StrLen(result: array<char>) returns (n: nat)
    requires '\0' in result[..]
    ensures n < result.Length && result[n] == '\0' && '\0' !in result[..n]
  {
    ghost var end :| 0 <= end < result.Length && result[end] == '\0';
    n := 0;
    while result[n] != '\0'
      invariant n <= end && forall k | 0 <= k < n :: result[k] != '\0'
      decreases end - n
    {
      n := n + 1;
    }
  }

  /** The sign and the whole part. */
  method PutWhole(result: array<char>, negative: bool, whole: nat) returns (index: nat)
    requires |Signed(negative, Digits(whole))| <= result.Length
    modifies result
    ensures index == |Signed(negative, Digits(whole))|
    ensures result[..index] == Signed(negative, Digits(whole))
    ensures forall k | index <= k < result.Length :: result[k] == old(result[k])
  {
    index := PutReversed(result, whole);
    if negative {
      ghost var before := result[..index];
      result[index] := '-';
      index := index + 1;
      assert result[..index] == before + ['-'];
      ReversedPush(before, '-');
    }
    ReversePrefix(result, index);
  }

  /** Zeros, if any are to be added. */
  method PutPadding(result: array<char>, start: nat, zerosToAdd: nat) returns (index: nat)
    requires start + zerosToAdd <= result.Length
    modifies result
    ensures index == start + zerosToAdd && result[..index] == old(result[..start]) + Zeros(zerosToAdd)
    ensures forall k | index <= k < result.Length :: result[k] == old(result[k])
  {
    index := start;
    if zerosToAdd > 0 {
      PutZeros(result, index, zerosToAdd);
      index := index + zerosToAdd;
    } else {
      assert old(result[..start]) + Zeros(0) == old(result[..start]);
    }
  }

  /** The fraction digits with zeros in front, behind the start characters already there. */
  method PutFraction(result: array<char>, start: nat, text: string) returns (index: nat)
    requires |text| <= FRAC && start + FRAC - |text| + |Stripped(text)| <= result.Length
    modifies result
    ensures index == start + (FRAC - |text|) + |Stripped(text)|
    ensures result[..index] == old(result[..start]) + Zeros(FRAC - |text|) + Stripped(text)
    ensures forall k | index <= k < result.Length :: result[k] == old(result[k])
  {
    index := PutPadding(result, start, FRAC - |text|);
    var count := TrailingZeros(text);
    PutPrefix(result, index, text, |text| - count);
    index := index + (|text| - count);
  }

  /** The parts the printer writes one after the other. */
  lemma PrintedParts(v: int)
    ensures var f := Abs(v) % SCALE;
            Print(v) == Signed(v < 0, Digits(Abs(v) / SCALE)) + if f > 0 then "." + FractionText(f) else ""
  {
  }

  lemma Joined(a: string, b: string, c: string, d: string)
    ensures a + b + c + d == a + (b + (c + d))
  {
  }

  /** The point and the fraction of f parts of 10^12. */
  method PutPoint(result: array<char>, start: nat, f: nat) returns (index: nat)
    requires 0 < f < SCALE && start + 1 + |FractionText(f)| <= result.Length
    modifies result
    ensures index == start + 1 + |FractionText(f)|
    ensures result[..index] == old(result[..start]) + ("." + FractionText(f))
    ensures forall k | index <= k < result.Length :: result[k] == old(result[k])
  {
    DigitsLength12(f);
    var text := Digits(f);
    result[start] := '.';
    assert result[..start + 1] == old(result[..start]) + ".";
    index := PutFraction(result, start + 1, text);
    Joined(old(result[..start]), ".", Zeros(FRAC - |text|), Stripped(text));
  }

  /** Prints a stored value into a buffer with room for the text and its terminator, and
      returns the length of the text. */
  method ToText(fixed: int, result: array<char>) returns (n: nat)
    requires -INT64_MAX <= fixed <= INT64_MAX
    requires |Print(fixed)| < result.Length
    modifies result
    ensures n == |Print(fixed)| && result[..n] == Print(fixed) && result[n] == '\0'
    ensures forall k | n + 1 <= k < result.Length :: result[k] == old(result[k])
  {
    var negative := fixed < 0;
    var magnitude: nat := if negative then -fixed else fixed;
    var whole, f := magnitude / SCALE, magnitude % SCALE;
    PrintedParts(fixed);
    var index := PutWhole(result, negative, whole);
    if f > 0 {
      index := PutPoint(result, index, f);
    }
    n := Terminate(result, index, fixed);
  }

  /** Terminates the text and measures it. */
  method Terminate(result: array<char>, index: nat, ghost fixed: int) returns (n: nat)
    requires index < result.Length && result[..index] == Print(fixed)
    modifies result
    ensures n == index && result[..n] == Print(fixed) && result[n] == '\0'
    ensures forall k | n + 1 <= k < result.Length :: result[k] == old(result[k])
  {
    result[index] := '\0';
    assert result[..index] == Print(fixed) && result[index] in result[..];
    NoTerminator(fixed);
    assert forall k | 0 <= k < index :: result[k] == Print(fixed)[k];
    n := StrLen(result);
  }

  lemma NoTerminator(v: int)
    ensures '\0' !in Print(v)
  {
    PrintIsText(v);
    if Abs(v) % SCALE != 0 {
      FractionDenotes(Abs(v) % SCALE);
    }
  }

  /** A buffer of 22 characters is enough for every value but the smallest. */
  lemma TwentyTwoSuffice(v: int)
    requires -INT64_MAX <= v <= INT64_MAX
    ensures |Print(v)| < 22
  {
    Pow10Small();
    DigitsLength(Abs(v) / SCALE, 7);
    PrintIsText(v);
    if Abs(v) % SCALE != 0 {
      FractionDenotes(Abs(v) % SCALE);
    }
  }

  // ---------- The conversion to a string ----------

  /** The characters the conversion sets aside. */
  const BUFFER: nat := 17

  method StringOf(value: int) returns (s: string)
    requires -INT64_MAX <= value <= INT64_MAX && |Print(value)| < BUFFER
    ensures s == Print(value)
  {
    var result := new char[BUFFER](_ => '\0');
    var n := ToText(value, result);
    s := result[..n];
  }

  lemma TenTimes(y: nat, p: nat)
    requires p > 0
    ensures 10 * y % (10 * p) == 0 <==> y % p == 0
  {
    if y % p == 0 {
      assert 10 * y == (10 * p) * (y / p);
      Bits.MultipleMod(10 * y, 10 * p, y / p);
    }
    if 10 * y % (10 * p) == 0 {
      var q := 10 * y / (10 * p);
      assert 10 * y == 10 * (p * q);
      Bits.MultipleMod(y, p, q);
    }
  }

  lemma TenDivides(x: nat, p: nat)
    requires p > 0
    ensures x % (10 * p) == 0 ==> x % 10 == 0
  {
    if x % (10 * p) == 0 {
      var q := x / (10 * p);
      assert x == 10 * (p * q);
    }
  }

  /** A number that does not end in zero, with j zeros behind it, is divisible by 10^k exactly
      when k is at most j. */
  lemma {:induction false} ZerosBehind(x: nat, j: nat, k: nat)
    requires x % 10 != 0
    ensures Shifted(x, j) >= 0 && (Shifted(x, j) % Pow10(k) == 0 <==> k <= j)
  {
    if k == 0 {
      ShiftedIsProduct(x, j);
    } else if j == 0 {
      TenDivides(x, Pow10(k - 1));
    } else {
      ZerosBehind(x, j - 1, k - 1);
      TenTimes(Shifted(x, j - 1), Pow10(k - 1));
    }
  }

  lemma LastDigitStays(t: string)
    requires t != [] && IsDigits(t) && t[|t| - 1] != '0'
    ensures Value(t) >= 0 && Value(t) % 10 != 0
  {
    ValueBounds(t);
  }

  /** The printed fraction leaves out k digits exactly when the fraction is divisible by 10^k. */
  lemma FractionLength(f: nat, k: nat)
    requires 0 < f < SCALE && k <= FRAC
    ensures |FractionText(f)| <= FRAC - k <==> f % Pow10(k) == 0
  {
    FractionDenotes(f);
    var t := FractionText(f);
    LastDigitStays(t);
    ZerosBehind(Value(t), FRAC - |t|, k);
  }

  /** How many digits of the fraction have no room beside the whole part and the sign. */
  function Excess(v: int): nat
  {
    var n := |Signed(v < 0, Digits(Abs(v) / SCALE))|;
    if n > 3 then n - 3 else 0
  }

  /** The text and its terminator have room exactly when the fraction digits without room are
      zeros; so every whole number has. */
  lemma HasRoomExactlyWhen(v: int)
    requires -INT64_MAX <= v <= INT64_MAX
    ensures |Print(v)| < BUFFER <==> Abs(v) % SCALE % Pow10(Excess(v)) == 0
  {
    var i, f := Abs(v) / SCALE, Abs(v) % SCALE;
    Pow10Small();
    DigitsLength(i, 7);
    PrintedParts(v);
    if f > 0 {
      FractionDenotes(f);
      FractionLength(f, Excess(v));
    }
  }

  /** 1000.000000000001 has none: it needs seventeen characters and a terminator. */
  lemma NoRoom()
    ensures |Print(1_000_000_000_000_001)| == 17
  {
    var v := 1000 * SCALE + 1;
    assert Abs(v) / SCALE == 1000 && Abs(v) % SCALE == 1;
    assert |Digits(1000)| == 4 by {
      DigitsOfPower(3);
      assert Pow10(3) == 1000;
    }
    PrintedParts(v);
    assert Digits(1) == "1" && Stripped("1") == "1";
    assert |FractionText(1)| == 12;
  }
}
