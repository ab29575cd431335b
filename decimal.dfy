/**
 * Decimal rendering of non-negative integers, as done by .NET's
 * `Int32.ToString("D8")` for values that are not negative: the decimal digits
 * of the value, without leading zeros, left-padded with '0' to at least eight
 * characters.
 *
 * `Value` reads a digit string back; it is the inverse that makes the
 * formatting injective.
 */
module Decimal {

  /** 10 raised to the power k. */
  function Pow10(k: nat): (p: nat)
    ensures p >= 1
  {
    if k == 0 then 1 else 10 * Pow10(k - 1)
  }

  lemma {:induction false} Pow10Monotone(i: nat, j: nat)
    requires i <= j
    ensures Pow10(i) <= Pow10(j)
    ensures i < j ==> Pow10(i) < Pow10(j)
  {
    if i < j {
      Pow10Monotone(i, j - 1);
    }
  }

  lemma Pow10Eight()
    ensures Pow10(8) == 100_000_000
  {
    assert Pow10(4) == 10_000 by {
      assert Pow10(2) == 100;
    }
  }

  predicate IsDigit(c: char) {
    '0' <= c <= '9'
  }

  predicate AllDigits(s: string) {
    forall i :: 0 <= i < |s| ==> IsDigit(s[i])
  }

  /** The value of one decimal digit character. */
  function DigitValue(c: char): (d: nat)
    requires IsDigit(c)
    ensures d < 10
    ensures (d == 0) == (c == '0')
  {
    (c as int) - ('0' as int)
  }

  /** The character of one decimal digit. */
  function DigitChar(d: nat): (c: char)
    requires d < 10
    ensures IsDigit(c) && DigitValue(c) == d
  {
    (('0' as int) + d) as char
  }

  lemma DigitValueInjective(a: char, b: char)
    requires IsDigit(a) && IsDigit(b) && DigitValue(a) == DigitValue(b)
    ensures a == b
  {
  }

  /** The shortest decimal representation of n (the digits "0" for zero). */
  function Digits(n: nat): (r: string)
    ensures 1 <= |r| && AllDigits(r)
    ensures n < Pow10(|r|)
    ensures |r| > 1 ==> Pow10(|r| - 1) <= n
    ensures (r[0] == '0') == (n == 0)
  {
    if n < 10 then [DigitChar(n)] else Digits(n / 10) + [DigitChar(n % 10)]
  }

  /** The number a string of decimal digits denotes (0 for the empty string). */
  function Value(s: string): (v: nat)
    requires AllDigits(s)
    ensures v < Pow10(|s|)
  {
    if s == [] then 0 else 10 * Value(s[..|s| - 1]) + DigitValue(s[|s| - 1])
  }

  lemma {:induction false} ValueOfDigits(n: nat)
    ensures Value(Digits(n)) == n
  {
    if n >= 10 {
      var d := Digits(n);
      assert d[..|d| - 1] == Digits(n / 10);
      ValueOfDigits(n / 10);
    }
  }

  /** A non-zero leading digit puts the value in the top decade of its length. */
  lemma {:induction false} ValueLowerBound(s: string)
    requires AllDigits(s) && |s| >= 1 && s[0] != '0'
    ensures Pow10(|s| - 1) <= Value(s)
  {
    if |s| > 1 {
      ValueLowerBound(s[..|s| - 1]);
    }
  }

  /** Two digit strings of the same length that denote the same number are equal. */
  lemma {:induction false} ValueInjective(a: string, b: string)
    requires AllDigits(a) && AllDigits(b) && |a| == |b|
    requires Value(a) == Value(b)
    ensures a == b
  {
    if a != [] {
      var n := |a| - 1;
      assert Value(a) == 10 * Value(a[..n]) + DigitValue(a[n]);
      assert Value(b) == 10 * Value(b[..n]) + DigitValue(b[n]);
      SplitLastDigit(Value(a[..n]), DigitValue(a[n]), Value(b[..n]), DigitValue(b[n]));
      DigitValueInjective(a[n], b[n]);
      ValueInjective(a[..n], b[..n]);
      assert a == a[..n] + [a[n]];
      assert b == b[..n] + [b[n]];
    }
  }

  lemma SplitLastDigit(va: nat, da: nat, vb: nat, db: nat)
    requires da < 10 && db < 10 && 10 * va + da == 10 * vb + db
    ensures da == db && va == vb
  {
  }

  /** k copies of the character '0'. */
  function Zeros(k: nat): (r: string)
    ensures |r| == k && AllDigits(r)
  {
    if k == 0 then [] else Zeros(k - 1) + ['0']
  }

  /** Leading zeros do not change the value of a digit string. */
  lemma {:induction false} ValueLeadingZeros(k: nat, s: string)
    requires AllDigits(s)
    ensures Value(Zeros(k) + s) == Value(s)
  {
    if s == [] {
      assert Zeros(k) + s == Zeros(k);
      ValueOfZeros(k);
    } else {
      var n := |s| - 1;
      assert (Zeros(k) + s)[..k + n] == Zeros(k) + s[..n];
      ValueLeadingZeros(k, s[..n]);
    }
  }

  lemma {:induction false} ValueOfZeros(k: nat)
    ensures Value(Zeros(k)) == 0
  {
    if k > 0 {
      assert Zeros(k)[..k - 1] == Zeros(k - 1);
      ValueOfZeros(k - 1);
    }
  }

  /**
   * n formatted with the .NET "D8" specifier: the digits of n left-padded
   * with '0' to at least eight characters.
   */
  function Pad8(n: nat): (r: string)
    ensures |r| == if |Digits(n)| < 8 then 8 else |Digits(n)|
    ensures AllDigits(r)
    ensures |r| > 8 ==> r[0] != '0'
    ensures Value(r) == n
  {
    var d := Digits(n);
    var pad := if |d| < 8 then 8 - |d| else 0;
    ValueLeadingZeros(pad, d);
    ValueOfDigits(n);
    Zeros(pad) + d
  }

  /** The rendering of a one-digit value: seven zeros and the digit. */
  lemma Pad8OneDigit(n: nat)
    requires n < 10
    ensures Pad8(n) == "0000000" + [DigitChar(n)]
  {
    assert Zeros(1) == "0";
    assert Zeros(3) == "000";
    assert Zeros(5) == "00000";
    assert Zeros(7) == "0000000";
    assert Digits(n) == [DigitChar(n)];
  }

  /** Exactly eight characters for every value below 10^8, more from there on. */
  lemma Pad8Width(n: nat)
    ensures |Pad8(n)| == 8 <==> n < 100_000_000
    ensures |Pad8(n)| >= 8
  {
    Pow10Eight();
    var d := Digits(n);
    if n < Pow10(8) {
      if |d| > 8 {
        Pow10Monotone(8, |d| - 1);
      }
    } else {
      if |d| <= 8 {
        Pow10Monotone(|d|, 8);
      }
    }
  }

  lemma Pad8Injective(m: nat, n: nat)
    requires Pad8(m) == Pad8(n)
    ensures m == n
  {
  }

  /**
   * The strings "D8" can produce: at least eight digits, and no leading zero
   * once longer than eight.
   */
  predicate IsPad8(t: string) {
    AllDigits(t) && |t| >= 8 && (|t| > 8 ==> t[0] != '0')
  }

  /** Every such string is the rendering of the number it denotes. */
  lemma Pad8OfValue(t: string)
    requires IsPad8(t)
    ensures Pad8(Value(t)) == t
  {
    var n := Value(t);
    var d := Digits(n);
    if |d| > |t| {
      Pow10Monotone(|t|, |d| - 1);
    }
    if |t| > 8 && |d| < |t| {
      ValueLowerBound(t);
      Pow10Monotone(|d|, |t| - 1);
    }
    ValueInjective(Pad8(n), t);
  }
}
