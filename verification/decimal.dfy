/**
 Decimal rendering of integers, as `String.valueOf(int)` produces it: an optional
 leading minus sign followed by the digits of the magnitude, most significant first,
 with no leading zeros. The matrix display width is the length of this rendering.
 */
module Decimal {

  function Pow10(k: nat): (p: nat)
    ensures p >= 1
  {
    if k == 0 then 1 else 10 * Pow10(k - 1)
  }

  lemma {:induction false} Pow10Monotone(i: nat, j: nat)
    requires i <= j
    ensures Pow10(i) <= Pow10(j)
  {
    if i < j {
      Pow10Monotone(i, j - 1);
    }
  }

  /** Number of decimal digits of a non-negative integer; zero is written with one digit. */
  function DigitCount(n: nat): (d: nat)
    ensures d >= 1
  {
    if n < 10 then 1 else 1 + DigitCount(n / 10)
  }

  /** `DigitCount(n)` is the unique `d` with 10^(d-1) <= n < 10^d (and 0 has one digit). */
  lemma {:induction false} DigitCountBounds(n: nat)
    ensures n < Pow10(DigitCount(n))
    ensures DigitCount(n) > 1 ==> Pow10(DigitCount(n) - 1) <= n
  {
    if n >= 10 {
      DigitCountBounds(n / 10);
      var d := DigitCount(n / 10);
      assert Pow10(d + 1) == 10 * Pow10(d);
      assert n < 10 * (n / 10) + 10;
      if d > 1 {
        assert Pow10(d) == 10 * Pow10(d - 1);
      }
    }
  }

  lemma DigitCountUnique(n: nat, k: nat)
    requires k >= 1
    requires n < Pow10(k)
    requires k > 1 ==> Pow10(k - 1) <= n
    ensures DigitCount(n) == k
  {
    var d := DigitCount(n);
    DigitCountBounds(n);
    if d < k {
      Pow10Monotone(d, k - 1);
    } else if d > k {
      Pow10Monotone(k, d - 1);
    }
  }

  /** Length of the decimal rendering of `v`, counting a leading minus sign. */
  function DecimalLength(v: int): (len: nat)
    ensures len >= 1
  {
    if v < 0 then 1 + DigitCount(-v) else DigitCount(v)
  }

  predicate IsDigit(c: char) {
    '0' <= c <= '9'
  }

  function DigitChar(d: int): (c: char)
    requires 0 <= d < 10
    ensures IsDigit(c)
    ensures c as int - '0' as int == d
  {
    ('0' as int + d) as char
  }

  /** The digits of `n`, most significant first. */
  function DigitsOf(n: nat): (s: string)
    ensures |s| >= 1
    ensures forall i :: 0 <= i < |s| ==> IsDigit(s[i])
  {
    if n < 10 then [DigitChar(n)] else DigitsOf(n / 10) + [DigitChar(n % 10)]
  }

  /** The rendering of `String.valueOf(int)`. */
  function IntToString(v: int): (s: string)
    ensures |s| >= 1
  {
    if v < 0 then "-" + DigitsOf(-v) else DigitsOf(v)
  }

  /** Reads back a run of decimal digits (the empty run reads as 0). */
  function ParseDigits(s: string): nat
    requires forall i :: 0 <= i < |s| ==> IsDigit(s[i])
  {
    if |s| == 0 then 0
    else
      assert IsDigit(s[|s| - 1]);
      10 * ParseDigits(s[..|s| - 1]) + (s[|s| - 1] as int - '0' as int)
  }

  /** Reads back an optionally signed decimal numeral. */
  function ParseInt(s: string): int
    requires |s| >= 1
    requires s[0] == '-' || IsDigit(s[0])
    requires forall i :: 1 <= i < |s| ==> IsDigit(s[i])
  {
    if s[0] == '-' then -(ParseDigits(s[1..]) as int) else ParseDigits(s)
  }

  lemma {:induction false} DigitsOfLength(n: nat)
    ensures |DigitsOf(n)| == DigitCount(n)
  {
    if n >= 10 {
      DigitsOfLength(n / 10);
    }
  }

  lemma {:induction false} ParseDigitsOf(n: nat)
    ensures ParseDigits(DigitsOf(n)) == n
  {
    if n >= 10 {
      var s := DigitsOf(n);
      assert s[..|s| - 1] == DigitsOf(n / 10);
      ParseDigitsOf(n / 10);
    }
  }

  /** The rendering has exactly `DecimalLength(v)` characters. */
  lemma IntToStringLength(v: int)
    ensures |IntToString(v)| == DecimalLength(v)
  {
    if v < 0 {
      DigitsOfLength(-v);
    } else {
      DigitsOfLength(v);
    }
  }

  /** The rendering is a well-formed numeral that reads back as `v`. */
  lemma IntToStringRoundTrip(v: int)
    ensures var s := IntToString(v);
      && (s[0] == '-' || IsDigit(s[0]))
      && (forall i :: 1 <= i < |s| ==> IsDigit(s[i]))
      && ParseInt(s) == v
  {
    var s := IntToString(v);
    if v < 0 {
      assert s[1..] == DigitsOf(-v);
      ParseDigitsOf(-v);
    } else {
      ParseDigitsOf(v);
    }
  }

  /** Width bound used for values of a known range: |v| < 10^k means at most k digits. */
  lemma DecimalLengthBound(v: int, k: nat)
    requires k >= 1
    requires -(Pow10(k) as int) < v < Pow10(k)
    ensures DecimalLength(v) <= (if v < 0 then k + 1 else k)
  {
    var n := if v < 0 then -v else v;
    DigitCountBounds(n);
    if DigitCount(n) > k {
      Pow10Monotone(k, DigitCount(n) - 1);
    }
  }
}
