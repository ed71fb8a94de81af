/**
 * Colours as the whiteboard handles them: the picker yields a `#rrggbb`
 * string, and `hexToRgba` turns it into the four channel bytes that the
 * flood fill writes into the canvas buffer. The conversion goes through
 * JavaScript's `parseInt(s, 16)`, `>>` and `&`, which are modelled here
 * step by step (ECMA-262 parseInt, ToInt32, arithmetic shift, bit mask).
 */
module Color {
  import opened Wrappers

  /** One channel of a canvas pixel (the element type of Uint8ClampedArray). */
  newtype Byte = x: int | 0 <= x < 256

  datatype Rgba = Rgba(r: Byte, g: Byte, b: Byte, a: Byte)

  /** Channel `j` of a colour, in buffer order r, g, b, a. */
  function Channel(c: Rgba, j: int): Byte
    requires 0 <= j < 4
  {
    if j == 0 then c.r else if j == 1 then c.g else if j == 2 then c.b else c.a
  }

  // ---------------------------------------------------------------------
  // parseInt(s, 16)
  // ---------------------------------------------------------------------

  predicate IsHexDigit(c: char) {
    ('0' <= c <= '9') || ('a' <= c <= 'f') || ('A' <= c <= 'F')
  }

  /** The value of a hex digit; other characters, which parseInt never reads as digits, give 0. */
  function DigitValue(c: char): (v: nat)
    ensures v < 16
  {
    if '0' <= c <= '9' then (c as int) - ('0' as int)
    else if 'a' <= c <= 'f' then (c as int) - ('a' as int) + 10
    else if 'A' <= c <= 'F' then (c as int) - ('A' as int) + 10
    else 0
  }

  /** The characters parseInt skips before the number: WhiteSpace and LineTerminator. */
  predicate IsStrWhiteSpace(c: char) {
    c == '\t' || c == '\U{000B}' || c == '\U{000C}' || c == ' ' || c == '\U{00A0}'
    || c == '\U{FEFF}' || c == '\U{1680}' || ('\U{2000}' <= c <= '\U{200A}')
    || c == '\U{202F}' || c == '\U{205F}' || c == '\U{3000}'
    || c == '\n' || c == '\r' || c == '\U{2028}' || c == '\U{2029}'
  }

  function TrimStart(s: string): string {
    if |s| > 0 && IsStrWhiteSpace(s[0]) then TrimStart(s[1..]) else s
  }

  /** Trimming removes exactly the leading white space: what is left is a suffix that starts with something else. */
  lemma {:induction false} TrimStartSuffix(s: string)
    ensures |TrimStart(s)| <= |s| && TrimStart(s) == s[|s| - |TrimStart(s)|..]
    ensures forall i | 0 <= i < |s| - |TrimStart(s)| :: IsStrWhiteSpace(s[i])
    ensures |TrimStart(s)| > 0 ==> !IsStrWhiteSpace(TrimStart(s)[0])
  {
    if |s| > 0 && IsStrWhiteSpace(s[0]) {
      TrimStartSuffix(s[1..]);
      forall i | 1 <= i < |s| - |TrimStart(s)|
        ensures IsStrWhiteSpace(s[i])
      {
        assert s[i] == s[1..][i - 1];
      }
    }
  }

  /** Number of leading hexadecimal digits of `s`. */
  function HexPrefixLength(s: string): (n: nat)
    ensures n <= |s|
  {
    if |s| > 0 && IsHexDigit(s[0]) then 1 + HexPrefixLength(s[1..]) else 0
  }

  /** The prefix counted is the longest run of hex digits at the start. */
  lemma {:induction false} HexPrefixMaximal(s: string)
    ensures forall i | 0 <= i < HexPrefixLength(s) :: IsHexDigit(s[i])
    ensures HexPrefixLength(s) < |s| ==> !IsHexDigit(s[HexPrefixLength(s)])
  {
    if |s| > 0 && IsHexDigit(s[0]) {
      HexPrefixMaximal(s[1..]);
      forall i | 1 <= i < HexPrefixLength(s)
        ensures IsHexDigit(s[i])
      {
        assert s[i] == s[1..][i - 1];
      }
    }
  }

  /** A string made only of hex digits is read to its end. */
  lemma {:induction false} HexPrefixOfDigits(s: string)
    requires forall i | 0 <= i < |s| :: IsHexDigit(s[i])
    ensures HexPrefixLength(s) == |s|
  {
    if |s| > 0 {
      assert forall i | 0 <= i < |s[1..]| :: s[1..][i] == s[i + 1];
      HexPrefixOfDigits(s[1..]);
    }
  }

  /** Value of a string of hexadecimal digits, most significant first. */
  function HexValue(digits: string): nat
  {
    if |digits| == 0 then 0
    else HexValue(digits[..|digits| - 1]) * 16 + DigitValue(digits[|digits| - 1])
  }

  /** Removes a leading "0x" or "0X", as parseInt does for radix 16. */
  function StripHexPrefix(s: string): string {
    if |s| >= 2 && s[0] == '0' && (s[1] == 'x' || s[1] == 'X') then s[2..] else s
  }

  /**
   * parseInt(s, 16): skip white space, read an optional sign and an optional
   * "0x", then the longest run of hex digits. `None` stands for NaN (no digit).
   */
  function ParseIntHex(s: string): Option<int> {
    var t := TrimStart(s);
    var negative := |t| > 0 && t[0] == '-';
    var unsigned := if |t| > 0 && (t[0] == '-' || t[0] == '+') then t[1..] else t;
    var body := StripHexPrefix(unsigned);
    var n := HexPrefixLength(body);
    if n == 0 then None
    else
      var magnitude: int := HexValue(body[..n]);
      Some(if negative then -magnitude else magnitude)
  }

  // ---------------------------------------------------------------------
  // The bit operations of hexToRgba
  // ---------------------------------------------------------------------

  const TwoTo31: int := 0x8000_0000
  const TwoTo32: int := 0x1_0000_0000

  /** ECMA-262 ToInt32 applied to an integral Number; NaN becomes 0. */
  function ToInt32(v: Option<int>): int {
    match v
    case None => 0
    case Some(n) =>
      var m := n % TwoTo32;
      if m >= TwoTo31 then m - TwoTo32 else m
  }

  /** ToInt32 yields a signed 32-bit integer congruent to its argument modulo 2^32. */
  lemma ToInt32Wraps(v: Option<int>)
    ensures -TwoTo31 <= ToInt32(v) < TwoTo31
    ensures v.None? ==> ToInt32(v) == 0
    ensures v.Some? ==> (ToInt32(v) - v.value) % TwoTo32 == 0
  {
  }

  /** `x & 255` on a 32-bit signed integer: its low byte in two's complement. */
  function LowByte(x: int): Byte {
    (x % 256) as Byte
  }

  /**
   * hexToRgba: parse everything after the first character as hex, take
   * bits 16..23, 8..15 and 0..7 of its 32-bit form, and make it opaque.
   * `x >> k` on a 32-bit integer is floor division by 2^k.
   */
  function HexToRgba(hex: string): (c: Rgba)
    ensures c.a == 255
    ensures ParseIntHex(if |hex| == 0 then "" else hex[1..]).None? ==> c == Rgba(0, 0, 0, 255)
  {
    var bigint := ToInt32(ParseIntHex(if |hex| == 0 then "" else hex[1..]));
    Rgba(LowByte(bigint / 0x1_0000), LowByte(bigint / 0x100), LowByte(bigint), 255)
  }

  // ---------------------------------------------------------------------
  // The picker's format and the round trip
  // ---------------------------------------------------------------------

  /** A colour code as the picker produces it: '#' and six hex digits. */
  predicate IsColorCode(hex: string) {
    |hex| == 7 && hex[0] == '#' && forall i | 1 <= i < 7 :: IsHexDigit(hex[i])
  }

  /** The byte written by two hex digits. */
  function PairValue(hi: char, lo: char): (b: Byte)
    requires IsHexDigit(hi) && IsHexDigit(lo)
  {
    (DigitValue(hi) * 16 + DigitValue(lo)) as Byte
  }

  /** Lower-case hex digit for 0..15. */
  function HexChar(d: nat): (c: char)
    requires d < 16
    ensures IsHexDigit(c) && DigitValue(c) == d
  {
    if d < 10 then (('0' as int) + d) as char else (('a' as int) + d - 10) as char
  }

  /** `#rrggbb` in lower case, the form the colour picker hands to the whiteboard. */
  function FormatHex(r: Byte, g: Byte, b: Byte): (hex: string)
    ensures IsColorCode(hex)
    ensures PairValue(hex[1], hex[2]) == r && PairValue(hex[3], hex[4]) == g
    ensures PairValue(hex[5], hex[6]) == b
  {
    var ri, gi, bi := r as int, g as int, b as int;
    ['#', HexChar(ri / 16), HexChar(ri % 16), HexChar(gi / 16), HexChar(gi % 16),
     HexChar(bi / 16), HexChar(bi % 16)]
  }

  lemma HexValueOfSix(d: string)
    requires |d| == 6 && forall i | 0 <= i < 6 :: IsHexDigit(d[i])
    ensures HexValue(d) == PairValue(d[0], d[1]) as int * 0x1_0000
                           + PairValue(d[2], d[3]) as int * 0x100
                           + PairValue(d[4], d[5]) as int
  {
    var v0, v1, v2 := DigitValue(d[0]), DigitValue(d[1]), DigitValue(d[2]);
    var v3, v4, v5 := DigitValue(d[3]), DigitValue(d[4]), DigitValue(d[5]);
    assert d[..1][..0] == [];
    assert HexValue(d[..1]) == v0;
    assert d[..2][..1] == d[..1];
    assert HexValue(d[..2]) == v0 * 16 + v1;
    assert d[..3][..2] == d[..2];
    assert HexValue(d[..3]) == (v0 * 16 + v1) * 16 + v2;
    assert d[..4][..3] == d[..3];
    assert HexValue(d[..4]) == ((v0 * 16 + v1) * 16 + v2) * 16 + v3;
    assert d[..5][..4] == d[..4];
    assert HexValue(d[..5]) == (((v0 * 16 + v1) * 16 + v2) * 16 + v3) * 16 + v4;
    assert d[..6] == d;
    assert d[..5] == d[..|d| - 1];
    assert HexValue(d) == ((((v0 * 16 + v1) * 16 + v2) * 16 + v3) * 16 + v4) * 16 + v5;
  }

  /** parseInt reads all six digits of a colour code's body. */
  lemma ParseColorCodeBody(s: string)
    requires |s| == 6 && forall i | 0 <= i < 6 :: IsHexDigit(s[i])
    ensures ParseIntHex(s) == Some(HexValue(s))
  {
    assert !IsStrWhiteSpace(s[0]) && s[0] != '-' && s[0] != '+';
    assert TrimStart(s) == s;
    assert s[1] != 'x' && s[1] != 'X';
    assert StripHexPrefix(s) == s;
    HexPrefixOfDigits(s);
    assert s[..6] == s;
  }

  /** Shift-and-mask recovers the three bytes of a 24-bit value. */
  lemma ExtractBytes(r: Byte, g: Byte, b: Byte)
    ensures var v := r as int * 0x1_0000 + g as int * 0x100 + b as int;
            ToInt32(Some(v)) == v && LowByte(v / 0x1_0000) == r
            && LowByte(v / 0x100) == g && LowByte(v) == b
  {
    var v := r as int * 0x1_0000 + g as int * 0x100 + b as int;
    assert 0 <= v < TwoTo31;
    assert v / 0x1_0000 == r as int;
    assert v / 0x100 == r as int * 0x100 + g as int;
    assert (r as int * 0x100 + g as int) % 256 == g as int;
  }

  /** parseInt of a colour code's body is r * 2^16 + g * 2^8 + b for its three pairs. */
  lemma ColorCodeValue(hex: string)
    requires IsColorCode(hex)
    ensures ParseIntHex(hex[1..]) == Some(PairValue(hex[1], hex[2]) as int * 0x1_0000
                                          + PairValue(hex[3], hex[4]) as int * 0x100
                                          + PairValue(hex[5], hex[6]) as int)
  {
    var s := hex[1..];
    assert s[0] == hex[1] && s[1] == hex[2] && s[2] == hex[3];
    assert s[3] == hex[4] && s[4] == hex[5] && s[5] == hex[6];
    var r, g, b := PairValue(hex[1], hex[2]), PairValue(hex[3], hex[4]), PairValue(hex[5], hex[6]);
    assert PairValue(s[0], s[1]) == r && PairValue(s[2], s[3]) == g && PairValue(s[4], s[5]) == b;
    HexValueOfSix(s);
    var v := HexValue(s);
    assert v == r as int * 0x1_0000 + g as int * 0x100 + b as int;
    ParseColorCodeBody(s);
  }

  /** A `#rrggbb` code yields its three byte pairs and alpha 255. */
  lemma HexToRgbaOfColorCode(hex: string)
    requires IsColorCode(hex)
    ensures HexToRgba(hex)
            == Rgba(PairValue(hex[1], hex[2]), PairValue(hex[3], hex[4]), PairValue(hex[5], hex[6]), 255)
  {
    var r, g, b := PairValue(hex[1], hex[2]), PairValue(hex[3], hex[4]), PairValue(hex[5], hex[6]);
    var v := r as int * 0x1_0000 + g as int * 0x100 + b as int;
    ColorCodeValue(hex);
    ExtractBytes(r, g, b);
    HexToRgbaOfValue(hex, v);
  }

  /** When the code's body parses to a non-negative 31-bit value, the channels are its three low bytes. */
  lemma HexToRgbaOfValue(hex: string, v: int)
    requires |hex| > 0 && ParseIntHex(hex[1..]) == Some(v) && 0 <= v < TwoTo31
    ensures HexToRgba(hex) == Rgba(LowByte(v / 0x1_0000), LowByte(v / 0x100), LowByte(v), 255)
  {
    assert ToInt32(Some(v)) == v;
  }

  /** The picker's code for (r, g, b) converts back to (r, g, b) at full opacity. */
  lemma HexToRgbaRoundTrip(r: Byte, g: Byte, b: Byte)
    ensures HexToRgba(FormatHex(r, g, b)) == Rgba(r, g, b, 255)
  {
    HexToRgbaOfColorCode(FormatHex(r, g, b));
  }
}
