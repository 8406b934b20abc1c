/**
 * Decimal formatting of integers, as string interpolation renders an `int`
 * or a `long` under a culture whose negative sign is '-' (an optional '-'
 * followed by digits with no leading zeros), together with the parser that
 * inverts it.
 */
module Text {

  predicate IsDigit(c: char) {
    '0' <= c <= '9'
  }

  /** A character that can occur in a formatted integer. */
  predicate IsNumeralChar(c: char) {
    IsDigit(c) || c == '-'
  }

  predicate AllDigits(s: string) {
    forall i :: 0 <= i < |s| ==> IsDigit(s[i])
  }

  function DigitChar(d: nat): (c: char)
    requires d < 10
    ensures IsDigit(c)
  {
    (d + '0' as int) as char
  }

  function DigitValue(c: char): (d: nat)
    requires IsDigit(c)
    ensures d < 10
  {
    c as int - '0' as int
  }

  /** The decimal digits of `n`, most significant first. */
  function NatToString(n: nat): (s: string)
    ensures |s| >= 1 && AllDigits(s)
    ensures |s| > 1 ==> s[0] != '0'
    decreases n
  {
    if n < 10 then [DigitChar(n)] else NatToString(n / 10) + [DigitChar(n % 10)]
  }

  function ParseNat(s: string): nat
    requires AllDigits(s)
    decreases |s|
  {
    if s == [] then 0 else ParseNat(s[..|s| - 1]) * 10 + DigitValue(s[|s| - 1])
  }

  lemma {:induction false} ParseNatToString(n: nat)
    ensures ParseNat(NatToString(n)) == n
    decreases n
  {
    if n >= 10 {
      var s := NatToString(n);
      assert s[..|s| - 1] == NatToString(n / 10);
      ParseNatToString(n / 10);
    }
  }

  /** `{i}` in an interpolated string. */
  function IntToString(i: int): (s: string)
    ensures |s| >= 1 && forall k :: 0 <= k < |s| ==> IsNumeralChar(s[k])
  {
    if i < 0 then "-" + NatToString(-i) else NatToString(i)
  }

  function ParseInt(s: string): int
    requires forall k :: 0 <= k < |s| ==> IsNumeralChar(s[k])
  {
    if |s| > 0 && s[0] == '-' && AllDigits(s[1..]) then 0 - ParseNat(s[1..])
    else if AllDigits(s) then ParseNat(s)
    else 0
  }

  /** Formatting loses nothing: the number can be read back. */
  lemma ParseIntToString(i: int)
    ensures ParseInt(IntToString(i)) == i
  {
    if i < 0 {
      var s := IntToString(i);
      assert s[1..] == NatToString(-i);
      ParseNatToString(-i);
    } else {
      ParseNatToString(i);
    }
  }

  lemma IntToStringInjective(x: int, y: int)
    ensures IntToString(x) == IntToString(y) <==> x == y
  {
    if IntToString(x) == IntToString(y) {
      ParseIntToString(x);
      ParseIntToString(y);
    }
  }

  /**
   * A formatted integer followed by text that does not start with a numeral
   * character can be split in one way only: the number and the rest are
   * both determined.
   */
  lemma {:induction false} NumeralPrefixUnique(x: int, a: string, y: int, b: string)
    requires |a| > 0 && !IsNumeralChar(a[0])
    requires |b| > 0 && !IsNumeralChar(b[0])
    requires IntToString(x) + a == IntToString(y) + b
    ensures x == y && a == b
  {
    var sx, sy := IntToString(x), IntToString(y);
    if |sx| < |sy| {
      SplitMismatch(sx, a, sy, b);
    } else if |sy| < |sx| {
      SplitMismatch(sy, b, sx, a);
    }
    assert sx == (sx + a)[..|sx|] == (sy + b)[..|sy|] == sy;
    IntToStringInjective(x, y);
    assert a == (sx + a)[|sx|..] == (sy + b)[|sy|..] == b;
  }

  lemma SplitMismatch(sx: string, a: string, sy: string, b: string)
    requires |a| > 0 && !IsNumeralChar(a[0])
    requires forall k :: 0 <= k < |sy| ==> IsNumeralChar(sy[k])
    requires |sx| < |sy|
    ensures sx + a != sy + b
  {
    assert (sx + a)[|sx|] == a[0];
    assert (sy + b)[|sx|] == sy[|sx|];
  }
}
