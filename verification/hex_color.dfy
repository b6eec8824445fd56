/**
 The integer part of the colour initialiser that takes a hex string: the input
 is trimmed and upper-cased, one leading `#` is dropped, the rest is scanned as
 a hexadecimal number, and three byte channels are cut out of that number.
 The conversion of the channels to floating-point fractions is not modelled.
 */
module HexColor {
  import opened Ascii

  /** The largest value of Swift's `UInt64`. */
  const UInt64Max: nat := 0xFFFF_FFFF_FFFF_FFFF

  predicate IsHexDigit(c: char) {
    ('0' <= c <= '9') || ('A' <= c <= 'F') || ('a' <= c <= 'f')
  }

  predicate AllHexDigits(s: string) {
    forall i :: 0 <= i < |s| ==> IsHexDigit(s[i])
  }

  /** The value of a hex digit; anything else counts as 0, which never arises
      because only scanned digits are evaluated. */
  function DigitValue(c: char): (v: nat)
    ensures v < 16
  {
    if '0' <= c <= '9' then c as int - '0' as int
    else if 'A' <= c <= 'F' then c as int - 'A' as int + 10
    else if 'a' <= c <= 'f' then c as int - 'a' as int + 10
    else 0
  }

  function Pow16(n: nat): (p: nat)
    ensures p >= 1
  {
    if n == 0 then 1 else 16 * Pow16(n - 1)
  }

  /** The number a string of hex digits denotes, most significant digit first. */
  function HexValue(d: string): (v: nat)
    ensures v < Pow16(|d|)
  {
    if d == [] then 0
    else HexValue(d[..|d| - 1]) * 16 + DigitValue(d[|d| - 1])
  }

  /** The longest prefix of `s` made of hex digits. */
  function HexPrefix(s: string): (r: string)
    ensures |r| <= |s| && r == s[..|r|]
    ensures AllHexDigits(r)
    ensures |r| < |s| ==> !IsHexDigit(s[|r|])
  {
    if |s| > 0 && IsHexDigit(s[0]) then [s[0]] + HexPrefix(s[1..]) else []
  }

  /** `Scanner.scanHexInt64` on a fresh scanner: leading whitespace is skipped,
      the longest run of hex digits is read, and a value beyond `UInt64` reads as
      `UInt64.max`. Without any digit the target keeps its initial 0. */
  function ScanHexInt64(s: string): (v: nat)
    ensures v <= UInt64Max
  {
    var v := HexValue(HexPrefix(TrimLeft(s)));
    if v > UInt64Max then UInt64Max else v
  }

  /** The input after trimming and upper-casing. */
  function CleanHex(hex: string): string {
    Upper(Trim(hex))
  }

  /** What the scanner reads: the cleaned input without one leading `#`. */
  function HexBody(clean: string): string {
    if |clean| > 0 && clean[0] == '#' then clean[1..] else clean
  }

  /** The scanned value `rgb`. */
  function ParseRgb(hex: string): (rgb: nat)
    ensures rgb <= UInt64Max
  {
    ScanHexInt64(HexBody(CleanHex(hex)))
  }

  /** The three channels, each a byte. */
  datatype Channels = Channels(red: nat, green: nat, blue: nat)

  /** `(rgb >> 16) & 0xFF`, `(rgb >> 8) & 0xFF` and `rgb & 0xFF` on a `UInt64`:
      shifting right by k divides by 2^k and masking with 0xFF keeps the
      remainder modulo 256. */
  function ExtractChannels(rgb: nat): (c: Channels)
    ensures c.red < 256 && c.green < 256 && c.blue < 256
  {
    Channels((rgb / 0x1_0000) % 0x100, (rgb / 0x100) % 0x100, rgb % 0x100)
  }

  /** The channels of `Color(hex:)` before they are divided by 255. */
  function HexChannels(hex: string): (c: Channels)
    ensures c.red < 256 && c.green < 256 && c.blue < 256
  {
    ExtractChannels(ParseRgb(hex))
  }

  /** Extraction loses nothing on a 24-bit value: the channels put back together
      give the value again. */
  lemma ChannelsLossless(rgb: nat)
    requires rgb < 0x100_0000
    ensures var c := ExtractChannels(rgb); c.red * 0x1_0000 + c.green * 0x100 + c.blue == rgb
  {
    var hi := rgb / 0x100;
    assert rgb == hi * 0x100 + rgb % 0x100;
    assert hi == (hi / 0x100) * 0x100 + hi % 0x100;
    assert hi / 0x100 == rgb / 0x1_0000;
  }

  /** Three bytes packed as red, green, blue are extracted as those bytes. */
  lemma ChannelsOfPacked(v: nat, r: nat, g: nat, b: nat)
    requires r < 256 && g < 256 && b < 256
    requires v == r * 0x1_0000 + g * 0x100 + b
    ensures ExtractChannels(v) == Channels(r, g, b)
  {
    assert v / 0x100 == r * 0x100 + g;
    assert v / 0x1_0000 == r;
  }

  lemma ShiftDigit(x: nat, p: nat, y: nat, z: nat)
    ensures (x * p + y) * 16 + z == x * (p * 16) + (y * 16 + z)
  {
  }

  /** One more digit at the end multiplies by 16 and adds the digit. */
  lemma HexValueSnoc(x: string, c: char)
    ensures HexValue(x + [c]) == HexValue(x) * 16 + DigitValue(c)
  {
    assert (x + [c])[..|x|] == x;
  }

  lemma SnocSplit<T>(a: seq<T>, b: seq<T>)
    requires b != []
    ensures b == b[..|b| - 1] + [b[|b| - 1]]
    ensures a + b == (a + b[..|b| - 1]) + [b[|b| - 1]]
  {
  }

  /** Appending digits shifts the value left by four bits per digit. */
  lemma {:induction false} HexValueAppend(a: string, b: string)
    ensures HexValue(a + b) == HexValue(a) * Pow16(|b|) + HexValue(b)
    decreases |b|
  {
    if b == [] {
      assert a + b == a;
    } else {
      var b', c := b[..|b| - 1], b[|b| - 1];
      SnocSplit(a, b);
      HexValueAppend(a, b');
      HexValueSnoc(a + b', c);
      HexValueSnoc(b', c);
      ShiftDigit(HexValue(a), Pow16(|b'|), HexValue(b'), DigitValue(c));
    }
  }

  /** Upper-casing does not change the value of a digit string. */
  lemma {:induction false} HexValueUpper(d: string)
    ensures HexValue(Upper(d)) == HexValue(d)
    decreases |d|
  {
    var u := Upper(d);
    if d != [] {
      var d' := d[..|d| - 1];
      assert u[..|u| - 1] == Upper(d');
      HexValueUpper(d');
    }
  }

  /** The scanner skips whitespace in front of the digits. */
  lemma ScanSkipsWhitespace(w: string, x: string)
    requires AllWhitespace(w)
    ensures ScanHexInt64(w + x) == ScanHexInt64(x)
  {
    TrimLeftSkips(w, x);
  }

  /** Whitespace the scanner would skip anyway may as well be trimmed first. */
  lemma ScanAfterTrimLeft(x: string)
    ensures ScanHexInt64(TrimLeft(x)) == ScanHexInt64(x)
  {
    var l := TrimLeft(x);
    if |l| > 0 {
      assert l[0] == x[LeadingWhitespace(x)];
    }
    LeadingWhitespaceAt(l, 0);
  }

  /** A string of hex digits is read in full. */
  lemma ScanDigits(d: string)
    requires AllHexDigits(d) && HexValue(d) <= UInt64Max
    ensures ScanHexInt64(d) == HexValue(d)
  {
    if |d| > 0 {
      assert !IsWhitespace(d[0]);
    }
    LeadingWhitespaceAt(d, 0);
    var p := HexPrefix(d);
    assert p == d;
  }

  /** Inputs that agree up to letter case parse alike. */
  lemma ParseIgnoresCase(s: string, t: string)
    requires Upper(s) == Upper(t)
    ensures ParseRgb(s) == ParseRgb(t)
  {
    UpperCommutesWithTrim(s);
    UpperCommutesWithTrim(t);
  }

  /** Surrounding whitespace and letter case do not change the parsed value. */
  lemma ParseIgnoresPaddingAndCase(pre: string, s: string, post: string)
    requires AllWhitespace(pre) && AllWhitespace(post)
    ensures ParseRgb(pre + s + post) == ParseRgb(s)
    ensures ParseRgb(Lower(s)) == ParseRgb(s)
    ensures ParseRgb(Upper(s)) == ParseRgb(s)
  {
    TrimIgnoresPadding(pre, s, post);
    UpperForgetsCase(s);
    ParseIgnoresCase(Lower(s), s);
    ParseIgnoresCase(Upper(s), s);
  }

  /** Without a `#` anywhere, the scanner reads the whole cleaned input. */
  lemma BodyWithoutHash(s: string)
    requires forall i :: 0 <= i < |s| ==> s[i] != '#'
    ensures HexBody(CleanHex(s)) == Upper(Trim(s))
  {
    var t := Trim(s);
    if |t| > 0 {
      assert t[0] == s[LeadingWhitespace(s)];
      assert Upper(t)[0] != '#';
    }
  }

  /** With a leading `#`, the scanner reads the rest, trimmed at the right end only. */
  lemma BodyWithHash(s: string)
    ensures HexBody(CleanHex("#" + s)) == Upper(TrimRight(s))
  {
    var r := TrimRight(s);
    assert "#" + s == ['#'] + s;
    TrimAfterNonWhitespace('#', s);
    UpperAppend("#", r);
    assert Upper("#") == "#";
  }

  /** Exactly one leading `#` is dropped: with it and without it the same value
      is read, for any input that holds no other `#`. */
  lemma HashIsOptional(s: string)
    requires forall i :: 0 <= i < |s| ==> s[i] != '#'
    ensures ParseRgb("#" + s) == ParseRgb(s)
  {
    var r := TrimRight(s);
    BodyWithHash(s);
    BodyWithoutHash(s);
    ScanAfterTrimLeft(Upper(r));
    UpperCommutesWithTrimLeft(r);
    TrimLeftOfTrimRight(s);
    calc {
      ParseRgb("#" + s);
      ScanHexInt64(Upper(r));
      ScanHexInt64(TrimLeft(Upper(r)));
      ScanHexInt64(Upper(TrimLeft(r)));
      ScanHexInt64(Upper(Trim(s)));
      ParseRgb(s);
    }
  }

  /** A string of hex digits of any length that fits `UInt64` parses to its value,
      whatever the case of its letters. */
  lemma ParseDigits(d: string)
    requires AllHexDigits(d) && HexValue(d) <= UInt64Max
    ensures ParseRgb(d) == HexValue(d)
  {
    assert forall i :: 0 <= i < |d| ==> d[i] != '#' && !IsWhitespace(d[i]);
    if |d| > 0 {
      assert IsTrimOf(d, d, 0) by {
        assert d == d[0..|d|];
      }
      TrimUnique(d, d, 0);
    }
    BodyWithoutHash(d);
    HexValueUpper(d);
    ScanDigits(Upper(d));
  }

  lemma Pow16Two()
    ensures Pow16(2) == 0x100
  {
    assert Pow16(1) == 16;
  }

  lemma ShiftBytes(r: nat, g: nat, b: nat)
    ensures (r * 0x100 + g) * 0x100 + b == r * 0x1_0000 + g * 0x100 + b
  {
  }

  /** Six digits are three two-digit bytes. */
  lemma SixDigitSplit(d: string)
    requires |d| == 6 && AllHexDigits(d)
    ensures HexValue(d) == HexValue(d[..2]) * 0x1_0000 + HexValue(d[2..4]) * 0x100 + HexValue(d[4..])
    ensures HexValue(d[..2]) < 0x100 && HexValue(d[2..4]) < 0x100 && HexValue(d[4..]) < 0x100
  {
    var r, g, b := d[..2], d[2..4], d[4..];
    Pow16Two();
    HexValueAppend(r, g);
    HexValueAppend(r + g, b);
    assert r + g + b == d;
    ShiftBytes(HexValue(r), HexValue(g), HexValue(b));
  }

  /** A six-digit code parses to its three bytes. */
  lemma SixDigitBytes(d: string)
    requires |d| == 6 && AllHexDigits(d)
    ensures HexChannels(d) == Channels(HexValue(d[..2]), HexValue(d[2..4]), HexValue(d[4..]))
  {
    var r, g, b := HexValue(d[..2]), HexValue(d[2..4]), HexValue(d[4..]);
    SixDigitSplit(d);
    assert HexValue(d) < 0x100_0000;
    ParseDigits(d);
    ChannelsOfPacked(ParseRgb(d), r, g, b);
  }

  /** For a six-digit code, with or without `#`, red is the value of digits 1-2,
      green of digits 3-4 and blue of digits 5-6. */
  lemma SixDigitChannels(d: string)
    requires |d| == 6 && AllHexDigits(d)
    ensures HexChannels("#" + d) == HexChannels(d)
    ensures HexChannels(d) == Channels(HexValue(d[..2]), HexValue(d[2..4]), HexValue(d[4..]))
  {
    SixDigitBytes(d);
    assert forall i :: 0 <= i < |d| ==> d[i] != '#';
    HashIsOptional(d);
  }
}
