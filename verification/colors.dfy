/**
 * Colour tests shared by the hotspot pipeline: the Chebyshev RGB distance,
 * exact RGB equality, `#RRGGBB` formatting, the packed-RGB cache key and the
 * FNV-1a colour hash used for display colours.
 */
module Colors {

  import opened Wrappers

  /** One 8-bit channel, as stored in a Uint8ClampedArray. */
  type Byte = x: int | 0 <= x < 256

  /** A UTF-16 code unit, the element of a JavaScript string. */
  type CodeUnit = x: int | 0 <= x < 0x1_0000

  datatype Rgb = Rgb(r: Byte, g: Byte, b: Byte)

  function Abs(x: int): nat {
    if x < 0 then -x else x
  }

  /** Chebyshev distance `max(|dr|, |dg|, |db|)` between two colours. */
  function ColorDist(a: Rgb, c: Rgb): (d: nat)
    ensures d <= 255
    ensures Abs(a.r - c.r) <= d && Abs(a.g - c.g) <= d && Abs(a.b - c.b) <= d
    ensures d == Abs(a.r - c.r) || d == Abs(a.g - c.g) || d == Abs(a.b - c.b)
    ensures d == 0 <==> a == c
  {
    var dr := Abs(a.r - c.r);
    var dg := Abs(a.g - c.g);
    var db := Abs(a.b - c.b);
    var m := if dr < dg then dg else dr;
    if m < db then db else m
  }

  /** The colour test of the tolerance flood fills: distance at most `tol`. */
  predicate WithinTol(a: Rgb, c: Rgb, tol: int) {
    ColorDist(a, c) <= tol
  }

  /** Exact channel-by-channel equality, the test of the 4-connected fill. */
  predicate SameRgb(a: Rgb, c: Rgb) {
    a.r == c.r && a.g == c.g && a.b == c.b
  }

  /** Exact equality and zero Chebyshev distance are the same test. */
  lemma SameRgbIsZeroDistance(a: Rgb, c: Rgb)
    ensures SameRgb(a, c) <==> ColorDist(a, c) == 0
    ensures WithinTol(a, c, 0) <==> SameRgb(a, c)
  {
  }

  lemma ColorDistSymmetric(a: Rgb, c: Rgb)
    ensures ColorDist(a, c) == ColorDist(c, a)
  {
  }

  // ---------------------------------------------------------------------
  // Hex formatting
  // ---------------------------------------------------------------------

  const LowerDigits: string := "0123456789abcdef"

  /** `n.toString(16)` for a channel value: one or two lower-case digits. */
  function ToHexLower(n: Byte): (s: string)
    ensures |s| == (if n < 16 then 1 else 2)
  {
    if n < 16 then [LowerDigits[n]] else [LowerDigits[n / 16], LowerDigits[n % 16]]
  }

  /** `s.padStart(2, "0")`. */
  function PadStart2(s: string): (p: string)
    ensures |s| <= 2 ==> |p| == 2
  {
    if |s| < 2 then seq(2 - |s|, _ => '0') + s else s
  }

  /** `toUpperCase` restricted to the characters that can occur here. */
  function UpperChar(ch: char): char {
    if 'a' <= ch <= 'z' then (ch as int - 32) as char else ch
  }

  function ToUpper(s: string): (u: string)
    ensures |u| == |s|
  {
    seq(|s|, i requires 0 <= i < |s| => UpperChar(s[i]))
  }

  predicate IsUpperHexDigit(ch: char) {
    '0' <= ch <= '9' || 'A' <= ch <= 'F'
  }

  /** The numeric value of an upper-case hex digit. */
  function HexValue(ch: char): nat
    requires IsUpperHexDigit(ch)
  {
    if ch <= '9' then ch as int - '0' as int else ch as int - 'A' as int + 10
  }

  /** Lower-case hex digit `d`, upper-cased, is an upper-case digit worth `d`. */
  lemma DigitValue(d: nat)
    requires d < 16
    ensures IsUpperHexDigit(UpperChar(LowerDigits[d]))
    ensures HexValue(UpperChar(LowerDigits[d])) == d
  {
    assert LowerDigits[d] == "0123456789abcdef"[d];
  }

  lemma ToUpperConcat(a: string, c: string)
    ensures ToUpper(a + c) == ToUpper(a) + ToUpper(c)
  {
  }

  /** One channel as written: `toString(16)`, padded to two, upper-cased. */
  function ChannelHex(n: Byte): (s: string)
    ensures |s| == 2 && IsUpperHexDigit(s[0]) && IsUpperHexDigit(s[1])
    ensures HexValue(s[0]) * 16 + HexValue(s[1]) == n
  {
    DigitValue(n / 16);
    DigitValue(n % 16);
    PaddedDigits(n);
    ToUpper(PadStart2(ToHexLower(n)))
  }

  /** The padded lower-case form is the high digit then the low digit. */
  lemma PaddedDigits(n: Byte)
    ensures PadStart2(ToHexLower(n)) == [LowerDigits[n / 16], LowerDigits[n % 16]]
    ensures ToUpper(PadStart2(ToHexLower(n))) == [UpperChar(LowerDigits[n / 16]), UpperChar(LowerDigits[n % 16])]
  {
    if n < 16 {
      assert LowerDigits[n / 16] == '0';
    }
  }

  /** The upper-cased whole string is "#" and the three upper-cased channels. */
  lemma HexLayout(c: Rgb)
    ensures ToUpper("#" + PadStart2(ToHexLower(c.r)) + PadStart2(ToHexLower(c.g)) + PadStart2(ToHexLower(c.b)))
         == "#" + ChannelHex(c.r) + ChannelHex(c.g) + ChannelHex(c.b)
  {
    var pr, pg, pb := PadStart2(ToHexLower(c.r)), PadStart2(ToHexLower(c.g)), PadStart2(ToHexLower(c.b));
    ToUpperConcat("#" + pr + pg, pb);
    ToUpperConcat("#" + pr, pg);
    ToUpperConcat("#", pr);
  }

  /**
   * `rgbToHex`: "#" followed by the two-digit lower-case hex of each channel,
   * the whole string then upper-cased. The contract states the format
   * independently: seven characters, upper-case digits, two per channel,
   * most significant first.
   */
  function RgbToHex(c: Rgb): (s: string)
    ensures |s| == 7 && s[0] == '#'
    ensures forall i :: 1 <= i < 7 ==> IsUpperHexDigit(s[i])
    ensures HexValue(s[1]) * 16 + HexValue(s[2]) == c.r
    ensures HexValue(s[3]) * 16 + HexValue(s[4]) == c.g
    ensures HexValue(s[5]) * 16 + HexValue(s[6]) == c.b
  {
    HexLayout(c);
    HexJoin(ChannelHex(c.r), ChannelHex(c.g), ChannelHex(c.b));
    ToUpper("#" + PadStart2(ToHexLower(c.r)) + PadStart2(ToHexLower(c.g)) + PadStart2(ToHexLower(c.b)))
  }

  /** "#" and three two-digit channels: where each digit lands. */
  lemma HexJoin(x: string, y: string, z: string)
    requires |x| == 2 && |y| == 2 && |z| == 2
    requires IsUpperHexDigit(x[0]) && IsUpperHexDigit(x[1]) && IsUpperHexDigit(y[0])
    requires IsUpperHexDigit(y[1]) && IsUpperHexDigit(z[0]) && IsUpperHexDigit(z[1])
    ensures |"#" + x + y + z| == 7 && ("#" + x + y + z)[0] == '#'
    ensures forall i :: 1 <= i < 7 ==> IsUpperHexDigit(("#" + x + y + z)[i])
    ensures ("#" + x + y + z)[1] == x[0] && ("#" + x + y + z)[2] == x[1]
    ensures ("#" + x + y + z)[3] == y[0] && ("#" + x + y + z)[4] == y[1]
    ensures ("#" + x + y + z)[5] == z[0] && ("#" + x + y + z)[6] == z[1]
  {
    var s := "#" + x + y + z;
    assert s == ['#', x[0], x[1], y[0], y[1], z[0], z[1]];
  }

  /** Reads back a `#RRGGBB` string with upper-case digits. */
  function ParseHex(s: string): (c: Option<Rgb>)
  {
    if |s| == 7 && s[0] == '#' && (forall i :: 1 <= i < 7 ==> IsUpperHexDigit(s[i])) then
      Some(Rgb(HexValue(s[1]) * 16 + HexValue(s[2]),
               HexValue(s[3]) * 16 + HexValue(s[4]),
               HexValue(s[5]) * 16 + HexValue(s[6])))
    else None
  }

  lemma ParseHexRoundTrip(c: Rgb)
    ensures ParseHex(RgbToHex(c)) == Some(c)
  {
    var s := RgbToHex(c);
    assert forall i :: 1 <= i < 7 ==> IsUpperHexDigit(s[i]);
  }

  /** Different colours always get different hex strings. */
  lemma RgbToHexInjective(a: Rgb, c: Rgb)
    ensures RgbToHex(a) == RgbToHex(c) <==> a == c
  {
    if RgbToHex(a) == RgbToHex(c) {
      ParseHexRoundTrip(a);
      ParseHexRoundTrip(c);
    }
  }

  // ---------------------------------------------------------------------
  // Packed cache key
  // ---------------------------------------------------------------------

  /**
   * `packRGB`: `(r << 16) | (g << 8) | b`, the grouper's cache key. The three
   * fields occupy disjoint bits, so the bitwise or is the sum written here.
   */
  function PackRgb(c: Rgb): (k: nat)
    ensures k < 0x100_0000
  {
    c.r * 0x1_0000 + c.g * 0x100 + c.b
  }

  /** The packed key loses nothing: distinct colours never share a cache slot. */
  lemma PackRgbInjective(a: Rgb, c: Rgb)
    ensures PackRgb(a) == PackRgb(c) <==> a == c
  {
    if PackRgb(a) == PackRgb(c) {
      assert (a.r - c.r) * 0x1_0000 == (c.g - a.g) * 0x100 + (c.b - a.b);
      assert a.r == c.r;
      assert (a.g - c.g) * 0x100 == c.b - a.b;
    }
  }

  // ---------------------------------------------------------------------
  // FNV-1a colour hash (geometry.ts hashColor)
  // ---------------------------------------------------------------------

  const FnvOffsetBasis: bv32 := 0x811C_9DC5  // 2166136261
  const FnvPrime: bv32 := 0x0100_0193        // 16777619

  /** One FNV-1a round: xor in the code unit, multiply modulo 2^32. */
  function FnvStep(h: bv32, u: CodeUnit): bv32 {
    (h ^ (u as bv32)) * FnvPrime
  }

  /** 32-bit FNV-1a of a string of code units, defined by its last unit. */
  function Fnv1a(s: seq<CodeUnit>): bv32
    decreases |s|
  {
    if |s| == 0 then FnvOffsetBasis else FnvStep(Fnv1a(s[..|s| - 1]), s[|s| - 1])
  }

  /** Continues an FNV-1a state over more code units, first unit first. */
  function FnvFrom(h: bv32, t: seq<CodeUnit>): bv32
    decreases |t|
  {
    if |t| == 0 then h else FnvFrom(FnvStep(h, t[0]), t[1..])
  }

  /** Hashing is streaming: the hash of `s + t` continues the hash of `s`. */
  lemma {:induction false} FnvStreaming(s: seq<CodeUnit>, t: seq<CodeUnit>)
    ensures Fnv1a(s + t) == FnvFrom(Fnv1a(s), t)
    decreases |t|
  {
    if |t| == 0 {
      assert s + t == s;
    } else {
      var s' := s + [t[0]];
      assert s' + t[1..] == s + t;
      assert s'[..|s'| - 1] == s;
      FnvStreaming(s', t[1..]);
    }
  }

  /**
   * `hashColor`: the display colour of a string. The three channels, read
   * back in the order red, green, blue, are the low 24 bits of the 32-bit
   * FNV-1a hash of the string's code units.
   */
  method HashColor(s: seq<CodeUnit>) returns (r: bv8, g: bv8, b: bv8)
    ensures ((r as bv32) << 16) | ((g as bv32) << 8) | (b as bv32) == Fnv1a(s) & 0xFF_FFFF
  {
    var h := FnvOffsetBasis;
    var i := 0;
    while i < |s|
      invariant 0 <= i <= |s|
      invariant h == Fnv1a(s[..i])
    {
      assert s[..i + 1][..i] == s[..i];
      h := FnvStep(h, s[i]);
      i := i + 1;
    }
    assert s[..i] == s;
    r := ((h >> 16) & 0xFF) as bv8;
    g := ((h >> 8) & 0xFF) as bv8;
    b := (h & 0xFF) as bv8;
  }
}
