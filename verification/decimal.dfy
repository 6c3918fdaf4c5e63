/**
 * Decimal rendering of natural numbers as Ruby's `Integer#to_s` produces it,
 * the zero padding that `strftime` applies to numeric fields, and the reading
 * of a digit string back into its value.
 */
module Decimal {
  import opened Strings

  predicate IsDigit(c: char) {
    '0' <= c <= '9'
  }

  predicate AllDigits(s: string) {
    forall k :: 0 <= k < |s| ==> IsDigit(s[k])
  }

  function DigitChar(d: nat): (c: char)
    requires d < 10
    ensures IsDigit(c) && c as int - '0' as int == d
  {
    ('0' as int + d) as char
  }

  function Pow10(k: nat): (p: nat)
    ensures p >= 1
  {
    if k == 0 then 1 else 10 * Pow10(k - 1)
  }

  /** The decimal digits of `n`, most significant first, without leading zeros. */
  function Digits(n: nat): (r: string)
    ensures |r| >= 1 && AllDigits(r)
    ensures r[0] == '0' ==> n == 0
  {
    if n < 10 then [DigitChar(n)]
    else Digits(n / 10) + [DigitChar(n % 10)]
  }

  /** The number a digit string denotes. */
  function ValueOf(s: string): nat
    requires AllDigits(s)
  {
    if |s| == 0 then 0
    else 10 * ValueOf(s[..|s| - 1]) + (s[|s| - 1] as int - '0' as int)
  }

  /**
   * `n` in decimal, padded on the left with '0' to at least `width` characters,
   * like `%0<width>d`; a number that needs more digits is not truncated.
   */
  function Pad(n: nat, width: nat): (r: string)
    ensures AllDigits(r)
    ensures |r| >= width && |r| >= |Digits(n)|
    ensures IsSuffix(Digits(n), r)
    ensures AllChar(r[..|r| - |Digits(n)|], '0')
  {
    var d := Digits(n);
    if |d| >= width then d
    else
      var r := seq(width - |d|, _ => '0') + d;
      assert r[..|r| - |d|] == seq(width - |d|, _ => '0');
      assert r[|r| - |d|..] == d;
      r
  }

  /** Reading the digits of `n` gives `n` back. */
  lemma {:induction false} ValueOfDigits(n: nat)
    ensures ValueOf(Digits(n)) == n
  {
    if n >= 10 {
      var d := Digits(n);
      assert d[..|d| - 1] == Digits(n / 10);
      ValueOfDigits(n / 10);
    }
  }

  /** Leading zeros do not change the value of a digit string. */
  lemma {:induction false} ValueOfLeadingZeros(z: string, s: string)
    requires AllChar(z, '0') && AllDigits(s)
    ensures AllDigits(z + s) && ValueOf(z + s) == ValueOf(s)
    decreases |s|
  {
    assert AllDigits(z + s) by {
      forall k | 0 <= k < |z + s| ensures IsDigit((z + s)[k]) {
        if k >= |z| { assert (z + s)[k] == s[k - |z|]; }
      }
    }
    if |s| == 0 {
      ValueOfZeros(z);
      assert z + s == z;
    } else {
      assert (z + s)[..|z + s| - 1] == z + s[..|s| - 1];
      ValueOfLeadingZeros(z, s[..|s| - 1]);
    }
  }

  /** A string of zeros is worth 0. */
  lemma {:induction false} ValueOfZeros(z: string)
    requires AllChar(z, '0')
    ensures AllDigits(z) && ValueOf(z) == 0
  {
    if |z| > 0 {
      ValueOfZeros(z[..|z| - 1]);
    }
  }

  /** Padding is undone by reading the value: `Pad` loses no information. */
  lemma ValueOfPad(n: nat, width: nat)
    ensures ValueOf(Pad(n, width)) == n
  {
    var r := Pad(n, width);
    var d := Digits(n);
    assert r == r[..|r| - |d|] + d;
    ValueOfLeadingZeros(r[..|r| - |d|], d);
    ValueOfDigits(n);
  }

  /** A number below 10^k has at most k digits. */
  lemma {:induction false} DigitsFit(n: nat, k: nat)
    requires k >= 1 && n < Pow10(k)
    ensures |Digits(n)| <= k
  {
    if n >= 10 {
      DigitsFit(n / 10, k - 1);
    }
  }

  /** Padding a number that fits in `width` digits gives exactly `width` characters. */
  lemma PadWidth(n: nat, width: nat)
    requires width >= 1 && n < Pow10(width)
    ensures |Pad(n, width)| == width
  {
    DigitsFit(n, width);
  }
}
