/** color_scheme_generator/utils.py: the hexadecimal codec. `hex_to_rgb`
    strips '#', cuts the rest into three equal slices (doubling each digit
    of the 3-digit CSS shorthand) and divides each parsed channel by 255;
    `rgb_to_hex` scales by 255, truncates, zero-pads and upper-cases. */
module HexCodec {
  import opened Numeric
  import opened Outcomes
  import opened Constants

  // ---------------------------------------------------------------- digits

  predicate IsHexDigit(c: char) {
    '0' <= c <= '9' || 'a' <= c <= 'f' || 'A' <= c <= 'F'
  }

  predicate AllHexDigits(s: string) {
    forall i :: 0 <= i < |s| ==> IsHexDigit(s[i])
  }

  function DigitValue(c: char): (d: nat)
    requires IsHexDigit(c)
    ensures d < 16
  {
    if '0' <= c <= '9' then c as int - '0' as int
    else if 'a' <= c <= 'f' then c as int - 'a' as int + 10
    else c as int - 'A' as int + 10
  }

  /** The lower-case digit Python's `hex()` writes for `d`. */
  function DigitChar(d: nat): (c: char)
    requires d < 16
    ensures IsHexDigit(c) && DigitValue(c) == d
    ensures !('A' <= c <= 'F')
  {
    if d < 10 then ('0' as int + d) as char else ('a' as int + d - 10) as char
  }

  function Pow16(k: nat): (p: nat)
    ensures p >= 1
  {
    if k == 0 then 1 else 16 * Pow16(k - 1)
  }

  /** The number a string of hex digits denotes, most significant digit first. */
  function HexValue(s: string): nat
    requires AllHexDigits(s)
  {
    if |s| == 0 then 0 else 16 * HexValue(s[..|s| - 1]) + DigitValue(s[|s| - 1])
  }

  /** `k` hex digits denote less than `16^k`. */
  lemma {:induction false} HexValueBound(s: string)
    requires AllHexDigits(s)
    ensures HexValue(s) < Pow16(|s|)
  {
    if |s| > 0 {
      HexValueBound(s[..|s| - 1]);
    }
  }

  lemma HexValueAppend(s: string, c: char)
    requires AllHexDigits(s) && IsHexDigit(c)
    ensures AllHexDigits(s + [c])
    ensures HexValue(s + [c]) == 16 * HexValue(s) + DigitValue(c)
  {
    assert (s + [c])[..|s|] == s;
  }

  // ---------------------------------------------------------------- case

  function UpperChar(c: char): (u: char)
    ensures !('a' <= u <= 'z')
    ensures u == c || 'a' <= c <= 'z'
  {
    if 'a' <= c <= 'z' then (c as int - 'a' as int + 'A' as int) as char else c
  }

  /** `str.upper()` on the ASCII text the codec produces. */
  function Upper(s: string): (r: string)
    ensures |r| == |s|
    ensures forall i :: 0 <= i < |s| ==> r[i] == UpperChar(s[i])
    ensures |s| > 0 && s[0] == '#' ==> r[0] == '#'
  {
    seq(|s|, i requires 0 <= i < |s| => UpperChar(s[i]))
  }

  lemma UpperConcat(a: string, b: string)
    ensures Upper(a + b) == Upper(a) + Upper(b)
  {
  }

  /** Writing back the value of a digit gives the same digit up to case. */
  lemma DigitCharUpper(c: char)
    requires IsHexDigit(c)
    ensures UpperChar(DigitChar(DigitValue(c))) == UpperChar(c)
  {
  }

  // ---------------------------------------------------------------- parsing

  /** The characters `hex_to_rgb` is meant for: hex digits and '#'. This
      keeps out what Python's `int(s, 16)` tolerates besides digits
      (signs, '_', surrounding blanks, a "0x" prefix). */
  predicate HexInput(h: string) {
    forall i :: 0 <= i < |h| ==> IsHexDigit(h[i]) || h[i] == '#'
  }

  /** `int(s, 16)` on hex digits and '#': the empty string and any '#'
      raise ValueError. */
  function ParseHex(s: string): Result<nat> {
    if |s| > 0 && AllHexDigits(s) then Ok(HexValue(s)) else Err(InvalidLiteral)
  }

  /** The end of the run of '#' that starts at `i`. */
  function HashRunEnd(s: string, i: nat): (j: nat)
    requires i <= |s|
    ensures i <= j <= |s|
    ensures forall k :: i <= k < j ==> s[k] == '#'
    ensures j == |s| || s[j] != '#'
    decreases |s| - i
  {
    if i < |s| && s[i] == '#' then HashRunEnd(s, i + 1) else i
  }

  /** The start of the run of '#' that ends at `j`, not going below `lo`. */
  function HashRunStart(s: string, lo: nat, j: nat): (i: nat)
    requires lo <= j <= |s|
    ensures lo <= i <= j
    ensures forall k :: i <= k < j ==> s[k] == '#'
    ensures i == lo || s[i - 1] != '#'
  {
    if j > lo && s[j - 1] == '#' then HashRunStart(s, lo, j - 1) else j
  }

  /** `s.strip('#')`: drop the leading run of '#', then the trailing one. */
  function StripHash(s: string): (r: string)
    ensures |r| <= |s|
    ensures r == [] || (r[0] != '#' && r[|r| - 1] != '#')
    ensures HexInput(s) ==> HexInput(r)
  {
    var i := HashRunEnd(s, 0);
    s[i..HashRunStart(s, i, |s|)]
  }

  predicate AllHash(s: string) {
    forall i :: 0 <= i < |s| ==> s[i] == '#'
  }

  /** Stripping removes exactly the '#' run on either side of the text. */
  lemma StripSurrounded(p: string, t: string, q: string)
    requires AllHash(p) && AllHash(q)
    requires t != [] && t[0] != '#' && t[|t| - 1] != '#'
    ensures StripHash(p + t + q) == t
  {
    var s := p + t + q;
    var i := HashRunEnd(s, 0);
    assert s[|p|] == t[0];
    assert i == |p|;
    var j := HashRunStart(s, i, |s|);
    assert s[|p| + |t| - 1] == t[|t| - 1];
    assert j == |p| + |t|;
    assert s[i..j] == t;
  }

  /** `hex_to_rgb`: strip '#', then parse what is left. */
  function HexToRgb(h: string): (r: Result<Rgb>)
    requires HexInput(h)
    ensures r.Err? ==> r.error == InvalidLiteral
    ensures r.Ok? ==> |StripHash(h)| >= 3
    ensures r.Ok? ==> 0.0 <= r.value.red && 0.0 <= r.value.green && 0.0 <= r.value.blue
  {
    ParseStripped(StripHash(h))
  }

  /** `hex_to_rgb` succeeds exactly when at least three characters remain
      after stripping and the first `3 * (|t| / 3)` of them are hex digits;
      otherwise `int(..., 16)` raises. */
  lemma HexToRgbAccepts(h: string)
    requires HexInput(h)
    ensures var t := StripHash(h);
      HexToRgb(h).Ok? <==> |t| >= 3 && AllHexDigits(t[..3 * (|t| / 3)])
  {
    var t := StripHash(h);
    AllSlices(t, |t| / 3);
  }

  /** The stripped text `t` is cut into three slices of width `|t| / 3`; a
      3-character `t` has each digit doubled (`_hex[:n] * 2`) before parsing.
      Each channel is its parsed value / 255. */
  function ParseStripped(t: string): Result<Rgb> {
    var n := |t| / 3;
    if |t| == 3 then
      var red :- ParseHex(t[..n] + t[..n]);
      var green :- ParseHex(t[n..2 * n] + t[n..2 * n]);
      var blue :- ParseHex(t[2 * n..3 * n] + t[2 * n..3 * n]);
      Ok(Rgb(red as real / 255.0, green as real / 255.0, blue as real / 255.0))
    else
      var red :- ParseHex(t[..n]);
      var green :- ParseHex(t[n..2 * n]);
      var blue :- ParseHex(t[2 * n..3 * n]);
      Ok(Rgb(red as real / 255.0, green as real / 255.0, blue as real / 255.0))
  }

  /** The channels of a 3-digit shorthand: each digit `d` counts as `dd`,
      that is `17 * d`, out of 255. */
  lemma ShorthandChannels(h: string)
    requires HexInput(h)
    requires |StripHash(h)| == 3 && AllHexDigits(StripHash(h))
    ensures var t := StripHash(h);
      && HexToRgb(h).Ok?
      && HexToRgb(h).value.red == (17 * DigitValue(t[0])) as real / 255.0
      && HexToRgb(h).value.green == (17 * DigitValue(t[1])) as real / 255.0
      && HexToRgb(h).value.blue == (17 * DigitValue(t[2])) as real / 255.0
  {
    var t := StripHash(h);
    assert t[..1] == [t[0]] && t[1..2] == [t[1]] && t[2..3] == [t[2]];
    ShorthandDigit(t[0]);
    ShorthandDigit(t[1]);
    ShorthandDigit(t[2]);
  }

  /** Any other length: three slices of width `|t| / 3`, characters past
      `3 * (|t| / 3)` ignored. */
  lemma SlicedChannels(h: string)
    requires HexInput(h)
    requires var t := StripHash(h); |t| != 3 && |t| >= 3 && AllHexDigits(t[..3 * (|t| / 3)])
    ensures var t := StripHash(h); var n := |t| / 3;
      && AllHexDigits(t[..n]) && AllHexDigits(t[n..2 * n]) && AllHexDigits(t[2 * n..3 * n])
      && HexToRgb(h).Ok?
      && HexToRgb(h).value.red == HexValue(t[..n]) as real / 255.0
      && HexToRgb(h).value.green == HexValue(t[n..2 * n]) as real / 255.0
      && HexToRgb(h).value.blue == HexValue(t[2 * n..3 * n]) as real / 255.0
  {
    var t := StripHash(h);
    AllSlices(t, |t| / 3);
  }

  /** For 3- and 6-digit input every channel is `k / 255` with `k` in 0..255,
      so it lies in [0, 1]. */
  lemma HexChannelsOnByteGrid(h: string)
    requires HexInput(h)
    requires |StripHash(h)| == 3 || |StripHash(h)| == 6
    requires HexToRgb(h).Ok?
    ensures OnByteGrid(HexToRgb(h).value)
  {
    if |StripHash(h)| == 3 {
      ShorthandOnGrid(h);
    } else {
      SixOnGrid(h);
    }
  }

  /** Parsed channels are never negative: `int(s, 16)` of hex digits is a
      natural number. */
  lemma ParsedNonNegative(h: string)
    requires HexInput(h) && HexToRgb(h).Ok?
    ensures var c := HexToRgb(h).value; 0.0 <= c.red && 0.0 <= c.green && 0.0 <= c.blue
  {
    var t := StripHash(h);
    HexToRgbAccepts(h);
    if |t| == 3 {
      assert t[..3] == t;
      ShorthandChannels(h);
    } else {
      SlicedChannels(h);
    }
  }

  lemma ShorthandOnGrid(h: string)
    requires HexInput(h)
    requires |StripHash(h)| == 3 && HexToRgb(h).Ok?
    ensures OnByteGrid(HexToRgb(h).value)
  {
    var t := StripHash(h);
    HexToRgbAccepts(h);
    assert t[..3] == t;
    ShorthandChannels(h);
    var c := HexToRgb(h).value;
    ByteFraction(c.red, 17 * DigitValue(t[0]));
    ByteFraction(c.green, 17 * DigitValue(t[1]));
    ByteFraction(c.blue, 17 * DigitValue(t[2]));
  }

  lemma SixOnGrid(h: string)
    requires HexInput(h)
    requires |StripHash(h)| == 6 && HexToRgb(h).Ok?
    ensures OnByteGrid(HexToRgb(h).value)
  {
    var t := StripHash(h);
    HexToRgbAccepts(h);
    assert t[..6] == t;
    SlicedChannels(h);
    PairsOnGrid(HexToRgb(h).value, t);
  }

  /** Channels read from the three digit pairs of six hex digits lie on the byte grid. */
  lemma PairsOnGrid(c: Rgb, t: string)
    requires |t| == 6
    requires AllHexDigits(t[..2]) && AllHexDigits(t[2..4]) && AllHexDigits(t[4..6])
    requires c.red == HexValue(t[..2]) as real / 255.0
    requires c.green == HexValue(t[2..4]) as real / 255.0
    requires c.blue == HexValue(t[4..6]) as real / 255.0
    ensures OnByteGrid(c)
  {
    PairBound(t[..2]);
    PairBound(t[2..4]);
    PairBound(t[4..6]);
    ByteFraction(c.red, HexValue(t[..2]));
    ByteFraction(c.green, HexValue(t[2..4]));
    ByteFraction(c.blue, HexValue(t[4..6]));
  }

  /** Two hex digits denote a byte. */
  lemma PairBound(u: string)
    requires |u| == 2 && AllHexDigits(u)
    ensures HexValue(u) <= 255
  {
    HexValuePair(u);
  }

  /** The channel `k / 255` of a byte `k` lies on the byte grid. */
  lemma ByteFraction(x: real, k: nat)
    requires k <= 255 && x == k as real / 255.0
    ensures 0.0 <= x <= 1.0 && IsIntegral(x * 255.0)
  {
    assert x * 255.0 == k as real;
  }

  lemma ShorthandDigit(c: char)
    requires IsHexDigit(c)
    ensures AllHexDigits([c] + [c])
    ensures HexValue([c] + [c]) == 17 * DigitValue(c)
  {
    HexValueAppend([c], c);
    assert [c][..0] == [];
  }

  /** The first `3 * n` characters are digits exactly when each of the
      three slices of width `n` is. */
  lemma AllSlices(t: string, n: nat)
    requires 3 * n <= |t|
    ensures AllHexDigits(t[..3 * n]) <==>
      AllHexDigits(t[..n]) && AllHexDigits(t[n..2 * n]) && AllHexDigits(t[2 * n..3 * n])
    ensures n == 1 ==>
      (AllHexDigits(t[..3]) <==>
        AllHexDigits(t[..1] + t[..1]) && AllHexDigits(t[1..2] + t[1..2]) && AllHexDigits(t[2..3] + t[2..3]))
  {
    if AllHexDigits(t[..n]) && AllHexDigits(t[n..2 * n]) && AllHexDigits(t[2 * n..3 * n]) {
      forall i | 0 <= i < 3 * n
        ensures IsHexDigit(t[..3 * n][i])
      {
        if i < n {
          assert t[..n][i] == t[i];
        } else if i < 2 * n {
          assert t[n..2 * n][i - n] == t[i];
        } else {
          assert t[2 * n..3 * n][i - 2 * n] == t[i];
        }
      }
    }
    if n == 1 {
      DoubledSlice(t, 0);
      DoubledSlice(t, 1);
      DoubledSlice(t, 2);
    }
  }

  /** A one-character slice repeated twice is all digits when that character is one. */
  lemma DoubledSlice(t: string, k: nat)
    requires k < |t|
    ensures AllHexDigits(t[k..k + 1] + t[k..k + 1]) <==> IsHexDigit(t[k])
    ensures AllHexDigits(t[k..k + 1]) <==> IsHexDigit(t[k])
  {
    var d := t[k..k + 1];
    assert d == [t[k]] && d[0] == t[k];
    assert d + d == [t[k], t[k]] && (d + d)[0] == t[k];
  }

  /** Every channel is `k / 255` for a whole `k` in 0..255. */
  predicate OnByteGrid(c: Rgb) {
    && 0.0 <= c.red <= 1.0 && IsIntegral(c.red * 255.0)
    && 0.0 <= c.green <= 1.0 && IsIntegral(c.green * 255.0)
    && 0.0 <= c.blue <= 1.0 && IsIntegral(c.blue * 255.0)
  }

  // ---------------------------------------------------------------- formatting

  /** The digits of Python's `hex(n)` without the "0x" prefix. */
  function LowerHex(n: nat): (s: string)
    ensures 1 <= |s| && AllHexDigits(s)
    ensures |s| > 1 ==> s[0] != '0'
    ensures n < 16 ==> |s| == 1
    ensures n < 256 ==> |s| <= 2
    decreases n
  {
    if n < 16 then [DigitChar(n)] else LowerHex(n / 16) + [DigitChar(n % 16)]
  }

  /** The digits `hex()` writes denote the number written. */
  lemma {:induction false} LowerHexValue(n: nat)
    ensures HexValue(LowerHex(n)) == n
    decreases n
  {
    if n < 16 {
      assert LowerHex(n) == [] + [DigitChar(n)];
      HexValueAppend([], DigitChar(n));
    } else {
      LowerHexValue(n / 16);
      HexValueAppend(LowerHex(n / 16), DigitChar(n % 16));
    }
  }

  /** `hex(n)[2:]`: for a negative `n`, Python writes "-0x…", so slicing
      off two characters leaves a stray 'x' in front of the digits. */
  function HexText(n: int): (s: string)
    ensures 1 <= |s|
    ensures n < 0 ==> s[0] == 'x'
  {
    if n >= 0 then LowerHex(n) else "x" + LowerHex(-n)
  }

  /** `s.zfill(width)` on text that does not start with a sign: '0's are
      put in front until the text is `width` long; longer text is kept whole. */
  function ZFill(s: string, width: nat): (r: string)
    ensures |r| == if |s| >= width then |s| else width
    ensures r[|r| - |s|..] == s
    ensures forall i :: 0 <= i < |r| - |s| ==> r[i] == '0'
  {
    if |s| >= width then s else seq(width - |s|, _ => '0') + s
  }

  /** One channel of `rgb_to_hex`: `hex(int(k * 255))[2:].zfill(2)`. */
  function ChannelText(x: real): (s: string)
    ensures |s| >= 2
  {
    ZFill(HexText(Truncate(x * 255.0)), 2)
  }

  /** `rgb_to_hex`. */
  function RgbToHex(c: Rgb): (r: string)
    ensures 7 <= |r| && r[0] == '#'
  {
    var body := "#" + ChannelText(c.red) + ChannelText(c.green) + ChannelText(c.blue);
    assert body[0] == '#';
    Upper(body)
  }

  // ---------------------------------------------------------------- bytes

  /** The two upper-case digits `rgb_to_hex` writes for a byte `k`. */
  function ByteText(k: nat): (s: string)
    requires k <= 255
    ensures |s| == 2
  {
    [UpperChar(DigitChar(k / 16)), UpperChar(DigitChar(k % 16))]
  }

  /** The two digits of a byte denote that byte. */
  lemma ByteTextValue(k: nat)
    requires k <= 255
    ensures AllHexDigits(ByteText(k)) && HexValue(ByteText(k)) == k
  {
    var s := ByteText(k);
    UpperDigit(DigitChar(k / 16));
    UpperDigit(DigitChar(k % 16));
    HexValuePair(s);
  }

  /** Upper-casing a hex digit keeps it a digit of the same value. */
  lemma UpperDigit(c: char)
    requires IsHexDigit(c)
    ensures IsHexDigit(UpperChar(c)) && DigitValue(UpperChar(c)) == DigitValue(c)
  {
  }

  lemma HexValuePair(u: string)
    requires |u| == 2 && AllHexDigits(u)
    ensures HexValue(u) == 16 * DigitValue(u[0]) + DigitValue(u[1])
  {
    assert u[..1] == [] + [u[0]];
    HexValueAppend([], u[0]);
    assert u == u[..1] + [u[1]];
    HexValueAppend(u[..1], u[1]);
  }

  /** Two hex digits are the upper-case text of the byte they denote. */
  lemma PairText(u: string)
    requires |u| == 2 && AllHexDigits(u)
    ensures HexValue(u) <= 255 && ByteText(HexValue(u)) == Upper(u)
  {
    HexValuePair(u);
    var n := HexValue(u);
    assert n / 16 == DigitValue(u[0]) && n % 16 == DigitValue(u[1]);
    DigitCharUpper(u[0]);
    DigitCharUpper(u[1]);
    PairIsItsDigits(u);
    UpperPair(u[0], u[1]);
  }

  lemma PairIsItsDigits(u: string)
    requires |u| == 2
    ensures u == [u[0], u[1]]
  {
  }

  lemma UpperPair(a: char, b: char)
    ensures Upper([a, b]) == [UpperChar(a), UpperChar(b)]
  {
  }

  /** What `hex(k)[2:].zfill(2)` writes for a byte `k`: its two digits. */
  lemma ByteDigits(k: nat)
    requires k <= 255
    ensures ZFill(LowerHex(k), 2) == [DigitChar(k / 16), DigitChar(k % 16)]
  {
    if k < 16 {
      OneDigitByte(k);
    } else {
      TwoDigitByte(k);
    }
  }

  lemma OneDigitByte(k: nat)
    requires k < 16
    ensures ZFill(LowerHex(k), 2) == [DigitChar(0), DigitChar(k)]
  {
    var d := DigitChar(k);
    assert LowerHex(k) == [d];
    var z := ZFill([d], 2);
    assert z[1] == d && z[0] == '0';
  }

  lemma TwoDigitByte(k: nat)
    requires 16 <= k <= 255
    ensures ZFill(LowerHex(k), 2) == [DigitChar(k / 16), DigitChar(k % 16)]
  {
    assert LowerHex(k / 16) == [DigitChar(k / 16)];
    assert LowerHex(k) == [DigitChar(k / 16)] + [DigitChar(k % 16)];
  }

  /** A channel in [0, 1] is written as the two digits of the byte
      `int(255 * x)`. */
  lemma ChannelByte(x: real)
    requires 0.0 <= x <= 1.0
    ensures 0 <= Truncate(x * 255.0) <= 255
    ensures Upper(ChannelText(x)) == ByteText(Truncate(x * 255.0))
  {
    var k := Truncate(x * 255.0);
    assert ChannelText(x) == ZFill(LowerHex(k), 2);
    ByteDigits(k);
    UpperPair(DigitChar(k / 16), DigitChar(k % 16));
  }

  /** The channel `k / 255` is written as the two digits of `k`. */
  lemma ChannelOfByte(x: real, k: nat)
    requires k <= 255 && x == k as real / 255.0
    ensures Upper(ChannelText(x)) == ByteText(k)
  {
    assert x * 255.0 == k as real;
    TruncateOfInteger(k);
    assert Truncate(x * 255.0) == k;
    assert HexText(k) == LowerHex(k);
    assert ChannelText(x) == ZFill(LowerHex(k), 2);
    ByteDigits(k);
    var pair := [DigitChar(k / 16), DigitChar(k % 16)];
    assert ChannelText(x) == pair;
    UpperPair(DigitChar(k / 16), DigitChar(k % 16));
    assert Upper(pair) == ByteText(k);
  }

  // ---------------------------------------------------------------- formatting properties

  /** `rgb_to_hex` upper-cases channel by channel. */
  lemma RgbToHexParts(c: Rgb)
    ensures RgbToHex(c) ==
      "#" + Upper(ChannelText(c.red)) + Upper(ChannelText(c.green)) + Upper(ChannelText(c.blue))
  {
    var a, b, d := ChannelText(c.red), ChannelText(c.green), ChannelText(c.blue);
    UpperConcat("#" + a + b, d);
    UpperConcat("#" + a, b);
    UpperConcat("#", a);
    assert Upper("#") == "#";
  }

  /** A color on the byte grid, `(i, j, k) / 255`, is written as the digits
      of `i`, `j` and `k`. */
  lemma RgbToHexOnGrid(c: Rgb, i: nat, j: nat, k: nat)
    requires i <= 255 && j <= 255 && k <= 255
    requires c.red == i as real / 255.0
    requires c.green == j as real / 255.0
    requires c.blue == k as real / 255.0
    ensures RgbToHex(c) == "#" + ByteText(i) + ByteText(j) + ByteText(k)
  {
    ChannelOfByte(c.red, i);
    ChannelOfByte(c.green, j);
    ChannelOfByte(c.blue, k);
    RgbToHexParts(c);
  }

  /** With every channel in [0, 1] the output is '#' and the two digits of
      each truncated byte `int(255 * x)`, the whole number `i` with
      `i <= 255 * x < i + 1`: exactly seven characters. */
  lemma RgbToHexInUnitCube(c: Rgb, i: nat, j: nat, k: nat)
    requires 0.0 <= c.red <= 1.0 && 0.0 <= c.green <= 1.0 && 0.0 <= c.blue <= 1.0
    requires i as real <= c.red * 255.0 < i as real + 1.0
    requires j as real <= c.green * 255.0 < j as real + 1.0
    requires k as real <= c.blue * 255.0 < k as real + 1.0
    ensures i <= 255 && j <= 255 && k <= 255
    ensures RgbToHex(c) == "#" + ByteText(i) + ByteText(j) + ByteText(k)
    ensures |RgbToHex(c)| == 7
  {
    TruncatedChannel(c.red, i);
    TruncatedChannel(c.green, j);
    TruncatedChannel(c.blue, k);
    AssembleHex(c, i, j, k);
  }

  lemma TruncatedChannel(x: real, k: nat)
    requires 0.0 <= x <= 1.0 && k as real <= x * 255.0 < k as real + 1.0
    ensures k <= 255 && Upper(ChannelText(x)) == ByteText(k)
  {
    TruncateIs(x * 255.0, k);
    assert ChannelText(x) == ZFill(LowerHex(k), 2);
    ByteDigits(k);
    UpperPair(DigitChar(k / 16), DigitChar(k % 16));
  }

  /** The whole number `k` with `k <= y < k + 1` is `int(y)` for `y >= 0`. */
  lemma TruncateIs(y: real, k: nat)
    requires k as real <= y < k as real + 1.0
    ensures Truncate(y) == k
  {
    var t := Truncate(y);
    assert t as real <= y < t as real + 1.0;
    assert (t - k) as real < 1.0 && (k - t) as real < 1.0;
  }

  /** The output once each channel's two digits are known. */
  lemma AssembleHex(c: Rgb, i: nat, j: nat, k: nat)
    requires i <= 255 && j <= 255 && k <= 255
    requires Upper(ChannelText(c.red)) == ByteText(i)
    requires Upper(ChannelText(c.green)) == ByteText(j)
    requires Upper(ChannelText(c.blue)) == ByteText(k)
    ensures RgbToHex(c) == "#" + ByteText(i) + ByteText(j) + ByteText(k)
    ensures |RgbToHex(c)| == 7
  {
    RgbToHexParts(c);
  }

  /** "#" and three parts is "#" and their concatenation. Stated on its
      own so that the round trips below reassociate the output text without
      their real-arithmetic facts in view. */
  lemma JoinParts(r: string, p: string, q: string, w: string, whole: string)
    requires r == "#" + p + q + w && whole == p + q + w
    ensures r == "#" + whole
  {
  }

  /** Where three 2-character parts sit in their concatenation. */
  lemma SixLayout(t: string, a: string, b: string, d: string)
    requires |a| == 2 && |b| == 2 && |d| == 2 && t == a + b + d
    ensures |t| == 6 && t[..2] == a && t[2..4] == b && t[4..6] == d
  {
  }

  lemma UpperThirds(t: string)
    requires |t| == 6
    ensures Upper(t) == Upper(t[..2]) + Upper(t[2..4]) + Upper(t[4..6])
  {
    assert t == t[..2] + t[2..4] + t[4..6];
    UpperConcat(t[..2] + t[2..4], t[4..6]);
    UpperConcat(t[..2], t[2..4]);
  }

  // ---------------------------------------------------------------- round trips

  /** Text made only of hex digits is left alone by stripping. */
  lemma StripDigits(t: string)
    requires AllHexDigits(t)
    ensures StripHash(t) == t
  {
    if t != [] {
      StripSurrounded("", t, "");
      assert "" + t + "" == t;
    }
  }

  lemma HashPrefixStripped(t: string)
    requires AllHexDigits(t) && t != []
    ensures StripHash("#" + t) == t
  {
    StripSurrounded("#", t, "");
    assert "#" + t + "" == "#" + t;
  }

  /** A leading '#' changes nothing. */
  lemma HashPrefixIgnored(t: string)
    requires AllHexDigits(t) && t != []
    ensures HexInput("#" + t) && HexInput(t)
    ensures HexToRgb("#" + t) == HexToRgb(t)
  {
    HashPrefixStripped(t);
    StripDigits(t);
  }

  /** "#rrggbb" parses pair by pair. */
  lemma SixDigits(t: string)
    requires |t| == 6 && AllHexDigits(t)
    ensures HexInput("#" + t)
    ensures AllHexDigits(t[..2]) && AllHexDigits(t[2..4]) && AllHexDigits(t[4..6])
    ensures && HexToRgb("#" + t).Ok?
            && HexToRgb("#" + t).value.red == HexValue(t[..2]) as real / 255.0
            && HexToRgb("#" + t).value.green == HexValue(t[2..4]) as real / 255.0
            && HexToRgb("#" + t).value.blue == HexValue(t[4..6]) as real / 255.0
  {
    HashPrefixStripped(t);
    assert t[..6] == t;
    SlicedChannels("#" + t);
  }

  /** `rgb_to_hex(hex_to_rgb(h))` gives back the six digits of `h`,
      upper-cased, with one leading '#', whatever '#' run surrounded them. */
  lemma HexRoundTrip(h: string)
    requires HexInput(h)
    requires |StripHash(h)| == 6 && AllHexDigits(StripHash(h))
    ensures HexToRgb(h).Ok?
    ensures RgbToHex(HexToRgb(h).value) == "#" + Upper(StripHash(h))
  {
    var t := StripHash(h);
    assert t[..6] == t;
    SlicedChannels(h);
    PairText(t[..2]);
    PairText(t[2..4]);
    PairText(t[4..6]);
    RgbToHexOnGrid(HexToRgb(h).value, HexValue(t[..2]), HexValue(t[2..4]), HexValue(t[4..6]));
    UpperThirds(t);
    JoinParts(RgbToHex(HexToRgb(h).value), Upper(t[..2]), Upper(t[2..4]), Upper(t[4..6]), Upper(t));
  }

  /** The doubled form `rrggbb` of a 3-digit shorthand `rgb`. */
  function Doubled(t: string): (d: string)
    requires |t| == 3
    ensures |d| == 6 && forall i :: 0 <= i < 6 ==> d[i] == t[i / 2]
  {
    [t[0], t[0], t[1], t[1], t[2], t[2]]
  }

  /** Each pair of the doubled form is one repeated digit worth `17 * d`. */
  lemma DoubledPairs(t: string)
    requires |t| == 3 && AllHexDigits(t)
    ensures var d := Doubled(t);
      && AllHexDigits(d) && d[..6] == d
      && AllHexDigits(d[..2]) && AllHexDigits(d[2..4]) && AllHexDigits(d[4..6])
      && HexValue(d[..2]) == 17 * DigitValue(t[0])
      && HexValue(d[2..4]) == 17 * DigitValue(t[1])
      && HexValue(d[4..6]) == 17 * DigitValue(t[2])
  {
    var d := Doubled(t);
    ShorthandDigit(t[0]);
    ShorthandDigit(t[1]);
    ShorthandDigit(t[2]);
    assert d[..2] == [t[0]] + [t[0]];
    assert d[2..4] == [t[1]] + [t[1]];
    assert d[4..6] == [t[2]] + [t[2]];
  }

  /** A 3-digit shorthand comes back in its doubled 6-digit form. */
  lemma ShorthandRoundTrip(h: string)
    requires HexInput(h)
    requires |StripHash(h)| == 3 && AllHexDigits(StripHash(h))
    ensures HexToRgb(h).Ok?
    ensures RgbToHex(HexToRgb(h).value) == "#" + Upper(Doubled(StripHash(h)))
  {
    var t := StripHash(h);
    var d := Doubled(t);
    ShorthandChannels(h);
    DoubledPairs(t);
    PairText(d[..2]);
    PairText(d[2..4]);
    PairText(d[4..6]);
    RgbToHexOnGrid(HexToRgb(h).value, HexValue(d[..2]), HexValue(d[2..4]), HexValue(d[4..6]));
    UpperThirds(d);
    JoinParts(RgbToHex(HexToRgb(h).value), Upper(d[..2]), Upper(d[2..4]), Upper(d[4..6]), Upper(d));
  }

  /** A shorthand parses exactly like its doubled form. */
  lemma ShorthandParsesAsDoubled(t: string)
    requires |t| == 3 && AllHexDigits(t)
    ensures HexInput(t) && HexInput(Doubled(t))
    ensures HexToRgb(t) == HexToRgb(Doubled(t))
  {
    var d := Doubled(t);
    StripDigits(t);
    StripDigits(d);
    ShorthandChannels(t);
    DoubledPairs(t);
    SlicedChannels(d);
  }

  /** Characters past `3 * (|t| / 3)` never reach the parser. */
  lemma TrailingIgnored(t: string)
    requires AllHexDigits(t) && |t| >= 6
    ensures HexInput(t) && HexInput(t[..3 * (|t| / 3)])
    ensures HexToRgb(t) == HexToRgb(t[..3 * (|t| / 3)])
  {
    var n := |t| / 3;
    var u := t[..3 * n];
    assert AllHexDigits(u);
    StripDigits(t);
    StripDigits(u);
    assert |u| / 3 == n && u[..3 * (|u| / 3)] == u;
    SlicedChannels(t);
    SlicedChannels(u);
    PrefixSlices(t, u, n);
    SameResult(HexToRgb(t), HexToRgb(u));
  }

  /** Cutting `t` down to `3 * n` characters keeps its three slices. */
  lemma PrefixSlices(t: string, u: string, n: nat)
    requires 3 * n <= |t| && u == t[..3 * n]
    ensures u[..n] == t[..n] && u[n..2 * n] == t[n..2 * n] && u[2 * n..3 * n] == t[2 * n..3 * n]
  {
  }

  /** Two successful parses with the same channels are the same result. */
  lemma SameResult(a: Result<Rgb>, b: Result<Rgb>)
    requires a.Ok? && b.Ok?
    requires a.value.red == b.value.red && a.value.green == b.value.green && a.value.blue == b.value.blue
    ensures a == b
  {
  }

  /** A color made of three bytes, `(i, j, k) / 255`, survives
      `hex_to_rgb(rgb_to_hex(c))`. */
  lemma GridRoundTrip(i: nat, j: nat, k: nat)
    requires i <= 255 && j <= 255 && k <= 255
    ensures var c := Rgb(i as real / 255.0, j as real / 255.0, k as real / 255.0);
      HexInput(RgbToHex(c)) && HexToRgb(RgbToHex(c)) == Ok(c)
  {
    var c := Rgb(i as real / 255.0, j as real / 255.0, k as real / 255.0);
    RgbToHexOnGrid(c, i, j, k);
    var t := ByteText(i) + ByteText(j) + ByteText(k);
    JoinParts(RgbToHex(c), ByteText(i), ByteText(j), ByteText(k), t);
    ParseBytes(t, i, j, k);
  }

  /** A color is determined by its three channels. */
  lemma RgbFields(c: Rgb, x: real, y: real, z: real)
    requires c.red == x && c.green == y && c.blue == z
    ensures c == Rgb(x, y, z)
  {
  }

  /** The six digits of three bytes parse back to those bytes. */
  lemma ParseBytes(t: string, i: nat, j: nat, k: nat)
    requires i <= 255 && j <= 255 && k <= 255
    requires t == ByteText(i) + ByteText(j) + ByteText(k)
    ensures HexInput("#" + t)
    ensures HexToRgb("#" + t) == Ok(Rgb(i as real / 255.0, j as real / 255.0, k as real / 255.0))
  {
    ByteSlices(t, i, j, k);
    ParseSix(t, i, j, k);
  }

  /** Six hex digits whose pairs denote `i`, `j` and `k` parse to `(i, j, k) / 255`. */
  lemma ParseSix(t: string, i: nat, j: nat, k: nat)
    requires |t| == 6 && AllHexDigits(t)
    requires AllHexDigits(t[..2]) && AllHexDigits(t[2..4]) && AllHexDigits(t[4..6])
    requires HexValue(t[..2]) == i && HexValue(t[2..4]) == j && HexValue(t[4..6]) == k
    ensures HexInput("#" + t)
    ensures HexToRgb("#" + t) == Ok(Rgb(i as real / 255.0, j as real / 255.0, k as real / 255.0))
  {
    SixDigits(t);
    OkRgb(HexToRgb("#" + t), i as real / 255.0, j as real / 255.0, k as real / 255.0);
  }

  /** The three two-digit slices of the digits of three bytes denote those bytes. */
  lemma ByteSlices(t: string, i: nat, j: nat, k: nat)
    requires i <= 255 && j <= 255 && k <= 255
    requires t == ByteText(i) + ByteText(j) + ByteText(k)
    ensures |t| == 6 && AllHexDigits(t)
    ensures AllHexDigits(t[..2]) && AllHexDigits(t[2..4]) && AllHexDigits(t[4..6])
    ensures HexValue(t[..2]) == i && HexValue(t[2..4]) == j && HexValue(t[4..6]) == k
  {
    ByteTextValue(i);
    ByteTextValue(j);
    ByteTextValue(k);
    SixLayout(t, ByteText(i), ByteText(j), ByteText(k));
    assert AllHexDigits(t);
    SameText(t[..2], ByteText(i));
    SameText(t[2..4], ByteText(j));
    SameText(t[4..6], ByteText(k));
  }

  lemma SameText(a: string, b: string)
    requires a == b && AllHexDigits(a)
    ensures AllHexDigits(b) && HexValue(a) == HexValue(b)
  {
  }

  /** A successful parse is determined by its three channels. */
  lemma OkRgb(r: Result<Rgb>, x: real, y: real, z: real)
    requires r.Ok? && r.value.red == x && r.value.green == y && r.value.blue == z
    ensures r == Ok(Rgb(x, y, z))
  {
  }

  // ---------------------------------------------------------------- examples

  /** "FF" is the byte 255 and "00" the byte 0. */
  lemma ByteTexts()
    ensures ByteText(255) == "FF" && ByteText(0) == "00"
  {
  }

  lemma RgbToHexRed()
    ensures RgbToHex(Rgb(1.0, 0.0, 0.0)) == "#FF0000"
  {
    assert "#" + "FF" + "00" + "00" == "#FF0000";
    ByteTexts();
    RgbToHexOnGrid(Rgb(1.0, 0.0, 0.0), 255, 0, 0);
  }

  lemma HexToRgbRed()
    ensures HexInput("#FF0000") && HexToRgb("#FF0000") == Ok(Rgb(1.0, 0.0, 0.0))
  {
    ParseRed("#FF0000");
  }

  lemma ParseRed(h: string)
    requires h == "#FF0000"
    ensures HexInput(h) && HexToRgb(h) == Ok(Rgb(1.0, 0.0, 0.0))
  {
    var t := ByteText(255) + ByteText(0) + ByteText(0);
    ParseBytes(t, 255, 0, 0);
    ByteTexts();
    assert t == "FF" + "00" + "00";
    assert "#" + t == h;
  }

  lemma RgbToHexBlack()
    ensures RgbToHex(Rgb(0.0, 0.0, 0.0)) == "#000000"
  {
    assert "#" + "00" + "00" + "00" == "#000000";
    ByteTexts();
    RgbToHexOnGrid(Rgb(0.0, 0.0, 0.0), 0, 0, 0);
  }

  lemma HexToRgbBlack()
    ensures HexInput("#000000") && HexToRgb("#000000") == Ok(Rgb(0.0, 0.0, 0.0))
  {
    ParseBlack("#000000");
  }

  lemma ParseBlack(h: string)
    requires h == "#000000"
    ensures HexInput(h) && HexToRgb(h) == Ok(Rgb(0.0, 0.0, 0.0))
  {
    var t := ByteText(0) + ByteText(0) + ByteText(0);
    ParseBytes(t, 0, 0, 0);
    ByteTexts();
    assert t == "00" + "00" + "00";
    assert "#" + t == h;
  }

  lemma HexToRgbShorthandRed()
    ensures HexInput("F00") && HexToRgb("F00") == Ok(Rgb(1.0, 0.0, 0.0))
  {
    StripDigits("F00");
    ShorthandChannels("F00");
    assert DigitValue('F') == 15 && DigitValue('0') == 0;
  }

  /** `zfill` pads but never caps: a channel above 1 gives three digits. */
  lemma RgbToHexAboveOne()
    ensures RgbToHex(Rgb(2.0, 0.0, 0.0)) == "#1FE0000"
  {
    var c := Rgb(2.0, 0.0, 0.0);
    assert Upper(ChannelText(c.red)) == "1FE" by {
      TruncateOfInteger(510);
      assert LowerHex(31) == LowerHex(1) + [DigitChar(15)];
      assert LowerHex(510) == LowerHex(31) + [DigitChar(14)] == "1fe";
    }
    ChannelOfByte(c.green, 0);
    ChannelOfByte(c.blue, 0);
    ByteTexts();
    RgbToHexParts(c);
  }

  /** `hex(-255)[2:]` is "xff": the slice leaves the prefix's 'x' behind. */
  lemma RgbToHexNegative()
    ensures RgbToHex(Rgb(-1.0, 0.0, 0.0)) == "#XFF0000"
  {
    var c := Rgb(-1.0, 0.0, 0.0);
    assert Upper(ChannelText(c.red)) == "XFF" by {
      TruncateOfInteger(-255);
      assert LowerHex(255) == LowerHex(15) + [DigitChar(15)] == "ff";
    }
    ChannelOfByte(c.green, 0);
    ChannelOfByte(c.blue, 0);
    ByteTexts();
    RgbToHexParts(c);
  }
}
