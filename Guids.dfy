/**
 * A Guid is a 128-bit value; the program only ever renders it as text, in
 * the default "D" format: 32 lower-case hexadecimal digits grouped 8-4-4-4-12
 * and joined by hyphens. Here a Guid is the number whose hexadecimal digits
 * are the ones that format shows, most significant first.
 */
module Guids {

  function Pow16(w: nat): (p: nat)
    ensures p >= 1
  {
    if w == 0 then 1 else 16 * Pow16(w - 1)
  }

  type Guid = n: nat | n < Pow16(32)

  predicate IsHexChar(c: char) {
    '0' <= c <= '9' || 'a' <= c <= 'f'
  }

  function HexChar(d: nat): (c: char)
    requires d < 16
    ensures IsHexChar(c)
  {
    if d < 10 then (d + '0' as int) as char else (d - 10 + 'a' as int) as char
  }

  function HexValue(c: char): (d: nat)
    requires IsHexChar(c)
    ensures d < 16
  {
    if c <= '9' then c as int - '0' as int else c as int - 'a' as int + 10
  }

  /** The `width` low hexadecimal digits of `n`, most significant first. */
  function Hex(n: nat, width: nat): (s: string)
    ensures |s| == width
    ensures forall i :: 0 <= i < |s| ==> IsHexChar(s[i])
  {
    if width == 0 then [] else Hex(n / 16, width - 1) + [HexChar(n % 16)]
  }

  function ParseHex(s: string): nat
    requires forall i :: 0 <= i < |s| ==> IsHexChar(s[i])
  {
    if s == [] then 0 else ParseHex(s[..|s| - 1]) * 16 + HexValue(s[|s| - 1])
  }

  lemma {:induction false} ParseHexOfHex(n: nat, width: nat)
    requires n < Pow16(width)
    ensures ParseHex(Hex(n, width)) == n
  {
    if width > 0 {
      var s := Hex(n, width);
      assert s[..|s| - 1] == Hex(n / 16, width - 1);
      assert n / 16 < Pow16(width - 1);
      ParseHexOfHex(n / 16, width - 1);
      assert HexValue(HexChar(n % 16)) == n % 16;
    }
  }

  /** `{guid}` in an interpolated string: the "D" format. */
  function Format(g: Guid): (s: string)
    ensures |s| == 36
    ensures forall i :: 0 <= i < |s| ==> IsHexChar(s[i]) || s[i] == '-'
    ensures s[8] == '-' && s[13] == '-' && s[18] == '-' && s[23] == '-'
  {
    var h := Hex(g, 32);
    h[..8] + "-" + h[8..12] + "-" + h[12..16] + "-" + h[16..20] + "-" + h[20..]
  }

  /** The hexadecimal digits of a "D"-formatted Guid, hyphens removed. */
  function Digits(s: string): string
    requires |s| == 36
  {
    s[..8] + s[9..13] + s[14..18] + s[19..23] + s[24..]
  }

  lemma DigitsOfFormat(g: Guid)
    ensures Digits(Format(g)) == Hex(g, 32)
  {
    var h := Hex(g, 32);
    var s := Format(g);
    assert s[..8] == h[..8];
    assert s[9..13] == h[8..12];
    assert s[14..18] == h[12..16];
    assert s[19..23] == h[16..20];
    assert s[24..] == h[20..];
    assert h == h[..8] + h[8..12] + h[12..16] + h[16..20] + h[20..];
  }

  /** Every position of a rendered Guid other than the four hyphens holds a hex digit. */
  lemma FormatLayout(g: Guid)
    ensures forall i :: 0 <= i < 36 && i != 8 && i != 13 && i != 18 && i != 23 ==> IsHexChar(Format(g)[i])
  {
    var h := Hex(g, 32);
    var s := Format(g);
    forall i | 0 <= i < 36 && i != 8 && i != 13 && i != 18 && i != 23
      ensures IsHexChar(s[i])
    {
      if i < 8 {
        assert s[i] == h[i];
      } else if i < 13 {
        assert s[i] == h[i - 1];
      } else if i < 18 {
        assert s[i] == h[i - 2];
      } else if i < 23 {
        assert s[i] == h[i - 3];
      } else {
        assert s[i] == h[i - 4];
      }
    }
  }

  /** A rendered Guid followed by any text: the first 36 characters are the Guid. */
  lemma FormatPrefix(g: Guid, rest: string)
    ensures |Format(g) + rest| > 35 && (Format(g) + rest)[..36] == Format(g)
  {
  }

  /** Two Guids render alike exactly when they are the same Guid. */
  lemma FormatInjective(a: Guid, b: Guid)
    ensures Format(a) == Format(b) <==> a == b
  {
    if Format(a) == Format(b) {
      DigitsOfFormat(a);
      DigitsOfFormat(b);
      ParseHexOfHex(a, 32);
      ParseHexOfHex(b, 32);
    }
  }
}
