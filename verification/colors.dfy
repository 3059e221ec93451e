/** The integer part of the iOS `UIColor(hex:)` initializer: the string is trimmed
    of leading and trailing non-alphanumeric characters (the '#'), its leading hex
    digits are scanned into an unsigned integer, and the string's length selects
    how that integer is cut into alpha, red, green and blue channels. The final
    division of each channel by 255 into a floating-point component is not modelled. */
module HexColor {
  import opened Text

  predicate IsHexDigit(c: char)
  {
    IsDigit(c) || ('a' <= c <= 'f') || ('A' <= c <= 'F')
  }

  predicate AllHex(s: string) { forall i :: 0 <= i < |s| ==> IsHexDigit(s[i]) }

  function HexDigitValue(c: char): (v: nat)
    requires IsHexDigit(c)
    ensures v < 16
  {
    if IsDigit(c) then c as int - '0' as int
    else if 'a' <= c <= 'f' then c as int - 'a' as int + 10
    else c as int - 'A' as int + 10
  }

  function Pow16(k: nat): (p: nat)
    ensures p >= 1
  {
    if k == 0 then 1 else 16 * Pow16(k - 1)
  }

  /** The big-endian value of a string of hex digits. */
  function HexValue(s: string): (v: nat)
    requires AllHex(s)
    ensures v < Pow16(|s|)
  {
    if s == [] then 0 else HexValue(s[..|s| - 1]) * 16 + HexDigitValue(s[|s| - 1])
  }

  /** The longest prefix of `s` made of hex digits. */
  function LeadingHexDigits(s: string): (r: string)
    ensures |r| <= |s| && r == s[..|r|] && AllHex(r)
    ensures |r| == |s| || !IsHexDigit(s[|r|])
  {
    if s != [] && IsHexDigit(s[0]) then [s[0]] + LeadingHexDigits(s[1..]) else []
  }

  /** `Scanner.scanHexInt64`: the value of the leading hex digits (0 when there are none). */
  function ScanHex(s: string): (v: nat)
    ensures v < Pow16(|s|)
    ensures AllHex(s) ==> v == HexValue(s)
    ensures s == [] || !IsHexDigit(s[0]) ==> v == 0
  {
    var digits := LeadingHexDigits(s);
    assert AllHex(s) ==> digits == s by { if AllHex(s) { AllHexIsLeading(s); } }
    assert Pow16(|digits|) <= Pow16(|s|) by { Pow16Monotone(|digits|, |s|); }
    HexValue(digits)
  }

  lemma {:induction false} Pow16Monotone(i: nat, j: nat)
    requires i <= j
    ensures Pow16(i) <= Pow16(j)
    decreases j
  {
    if i < j {
      Pow16Monotone(i, j - 1);
    }
  }

  predicate IsNotAlphanumeric(c: char) { !IsAlphanumeric(c) }

  datatype Argb = Argb(a: nat, r: nat, g: nat, b: nat)

  predicate ChannelsAreBytes(c: Argb)
  {
    c.a <= 255 && c.r <= 255 && c.g <= 255 && c.b <= 255
  }

  /** `v >> (4 * k)`: the value with its last `k` hex digits shifted out. */
  function ShiftNibbles(v: nat, k: nat): nat
  {
    if k == 0 then v else ShiftNibbles(v / 16, k - 1)
  }

  lemma {:induction false} ShiftNibblesBound(v: nat, n: nat, k: nat)
    requires v < Pow16(n) && k <= n
    ensures ShiftNibbles(v, k) < Pow16(n - k)
    decreases k
  {
    if k > 0 {
      ShiftNibblesBound(v / 16, n - 1, k - 1);
    }
  }

  /** Decodes `#RGB`, `#RRGGBB` and `#AARRGGBB`; any other length gives (1, 1, 1, 0).
      `>> 8`, `>> 16` and `>> 24` are 2, 4 and 6 nibble shifts; `& 0xF` and `& 0xFF` are
      remainders by 16 and 256. */
  function DecodeHexColor(raw: string): (c: Argb)
    ensures ChannelsAreBytes(c)
  {
    var hex := Trim(raw, IsNotAlphanumeric);
    var v := ScanHex(hex);
    if |hex| == 3 then
      ShiftNibblesBound(v, 3, 2);
      Argb(255, ShiftNibbles(v, 2) * 17, (ShiftNibbles(v, 1) % 16) * 17, (v % 16) * 17)
    else if |hex| == 6 then
      ShiftNibblesBound(v, 6, 4);
      Argb(255, ShiftNibbles(v, 4), ShiftNibbles(v, 2) % 256, v % 256)
    else if |hex| == 8 then
      ShiftNibblesBound(v, 8, 6);
      Argb(ShiftNibbles(v, 6), ShiftNibbles(v, 4) % 256, ShiftNibbles(v, 2) % 256, v % 256)
    else
      Argb(1, 1, 1, 0)
  }

  // ---------------------------------------------------------------------------
  // Encoding, as the inverse the decoder is meant to undo.

  function HexChar(d: nat): (c: char)
    requires d < 16
    ensures IsHexDigit(c) && HexDigitValue(c) == d
  {
    if d < 10 then ('0' as int + d) as char else ('A' as int + d - 10) as char
  }

  /** The `n` upper-case hex digits of `v` (big-endian, zero-padded). */
  function HexDigits(v: nat, n: nat): (s: string)
    ensures |s| == n && AllHex(s)
    ensures forall i :: 0 <= i < |s| ==> IsAlphanumeric(s[i])
  {
    if n == 0 then [] else HexDigits(v / 16, n - 1) + [HexChar(v % 16)]
  }

  lemma {:induction false} HexDigitsRoundTrip(v: nat, n: nat)
    requires v < Pow16(n)
    ensures HexValue(HexDigits(v, n)) == v
  {
    if n > 0 {
      HexDigitsRoundTrip(v / 16, n - 1);
      var s := HexDigits(v, n);
      assert s[..|s| - 1] == HexDigits(v / 16, n - 1);
    }
  }

  /** Trimming "#" off "#" + alphanumerics leaves the alphanumerics. */
  lemma TrimHash(h: string)
    requires h != []
    requires forall i :: 0 <= i < |h| ==> IsAlphanumeric(h[i])
    ensures Trim("#" + h, IsNotAlphanumeric) == h
  {
    var s := "#" + h;
    assert s[1..] == h;
    assert IsNotAlphanumeric(s[0]);
    assert !IsNotAlphanumeric(h[0]);
    assert !IsNotAlphanumeric(h[|h| - 1]);
    calc {
      Trim(s, IsNotAlphanumeric);
      TrimEnd(TrimStart(s, IsNotAlphanumeric), IsNotAlphanumeric);
      TrimEnd(TrimStart(h, IsNotAlphanumeric), IsNotAlphanumeric);
      TrimEnd(h, IsNotAlphanumeric);
      h;
    }
  }

  /** The byte two hex digits spell, high digit first. */
  function HexByte(hi: char, lo: char): (b: nat)
    requires IsHexDigit(hi) && IsHexDigit(lo)
    ensures b < 256
  {
    HexDigitValue(hi) * 16 + HexDigitValue(lo)
  }

  /** One more digit on the right multiplies the value so far by 16 and adds that digit. */
  lemma HexValuePrefix(h: string, k: nat)
    requires AllHex(h) && 1 <= k <= |h|
    ensures HexValue(h[..k]) == HexValue(h[..k - 1]) * 16 + HexDigitValue(h[k - 1])
  {
    assert h[..k][..k - 1] == h[..k - 1];
  }

  /** Two more digits on the right multiply the value so far by 256 and add the byte they spell. */
  lemma HexValueByte(h: string, k: nat)
    requires AllHex(h) && 2 <= k <= |h|
    ensures HexValue(h[..k]) == HexValue(h[..k - 2]) * 256 + HexByte(h[k - 2], h[k - 1])
  {
    HexValuePrefix(h, k);
    HexValuePrefix(h, k - 1);
  }

  /** The scanned value of three hex digits, written out digit by digit. */
  lemma HexValueThree(h: string)
    requires AllHex(h) && |h| == 3
    ensures ScanHex(h) == (HexDigitValue(h[0]) * 16 + HexDigitValue(h[1])) * 16 + HexDigitValue(h[2])
  {
    assert h[..3] == h && h[..0] == [];
    HexValuePrefix(h, 3);
    HexValueByte(h, 2);
  }

  /** The scanned value of six hex digits, written out byte by byte. */
  lemma HexValueSix(h: string)
    requires AllHex(h) && |h| == 6
    ensures ScanHex(h) == (HexByte(h[0], h[1]) * 256 + HexByte(h[2], h[3])) * 256 + HexByte(h[4], h[5])
  {
    assert h[..6] == h && h[..0] == [];
    HexValueByte(h, 6);
    HexValueByte(h, 4);
    HexValueByte(h, 2);
  }

  /** The scanned value of eight hex digits, written out byte by byte. */
  lemma HexValueEight(h: string)
    requires AllHex(h) && |h| == 8
    ensures ScanHex(h) == ((HexByte(h[0], h[1]) * 256 + HexByte(h[2], h[3])) * 256
                           + HexByte(h[4], h[5])) * 256 + HexByte(h[6], h[7])
  {
    assert h[..8] == h && h[..0] == [];
    HexValueByte(h, 8);
    HexValueByte(h, 6);
    HexValueByte(h, 4);
    HexValueByte(h, 2);
  }

  lemma {:induction false} AllHexIsLeading(h: string)
    requires AllHex(h)
    ensures LeadingHexDigits(h) == h
  {
    if h != [] {
      AllHexIsLeading(h[1..]);
      assert [h[0]] + h[1..] == h;
    }
  }

  /** Decoding "#" + the `n` hex digits of `v` scans exactly those digits back to `v`. */
  lemma ScanEncoded(v: nat, n: nat)
    requires n >= 1 && v < Pow16(n)
    ensures Trim("#" + HexDigits(v, n), IsNotAlphanumeric) == HexDigits(v, n)
    ensures ScanHex(HexDigits(v, n)) == v
  {
    var h := HexDigits(v, n);
    TrimHash(h);
    AllHexIsLeading(h);
    HexDigitsRoundTrip(v, n);
  }

  lemma Pow16Values()
    ensures Pow16(3) == 4096 && Pow16(6) == 16777216 && Pow16(8) == 4294967296
  {
    assert Pow16(2) == 256;
    assert Pow16(4) == 65536;
    assert Pow16(6) == 16777216;
  }

  /** Shifting out one nibble. */
  lemma SplitNibble(hi: nat, lo: nat)
    requires lo < 16
    ensures ShiftNibbles(hi * 16 + lo, 1) == hi && (hi * 16 + lo) % 16 == lo
  {
  }

  /** Shifting out one byte, two nibbles at a time. */
  lemma SplitByte(hi: nat, lo: nat)
    requires lo < 256
    ensures ShiftNibbles(hi * 256 + lo, 2) == hi && (hi * 256 + lo) % 256 == lo
  {
    var v := hi * 256 + lo;
    assert v == (hi * 16 + lo / 16) * 16 + lo % 16;
    SplitNibble(hi * 16 + lo / 16, lo % 16);
    SplitNibble(hi, lo / 16);
  }

  lemma {:induction false} ShiftNibblesAdd(v: nat, i: nat, j: nat)
    ensures ShiftNibbles(v, i + j) == ShiftNibbles(ShiftNibbles(v, i), j)
    decreases i
  {
    if i > 0 {
      ShiftNibblesAdd(v / 16, i - 1, j);
    }
  }

  /** The six-digit branch reads the red, green and blue bytes of the scanned value. */
  lemma DecodeSixDigitValue(v: nat)
    requires v < 16777216
    ensures DecodeHexColor("#" + HexDigits(v, 6)) == Argb(255, ShiftNibbles(v, 4), ShiftNibbles(v, 2) % 256, v % 256)
  {
    Pow16Values();
    ScanEncoded(v, 6);
  }

  lemma ThreeBytes(r: nat, g: nat, b: nat)
    requires g < 256 && b < 256
    ensures var v := (r * 256 + g) * 256 + b;
      ShiftNibbles(v, 4) == r && ShiftNibbles(v, 2) % 256 == g && v % 256 == b
  {
    var rg := r * 256 + g;
    var v := rg * 256 + b;
    SplitByte(rg, b);
    SplitByte(r, g);
    ShiftNibblesAdd(v, 2, 2);
  }

  /** Encoding three bytes as `#RRGGBB` and decoding gives them back with alpha 255. */
  lemma SixDigitsRoundTrip(r: nat, g: nat, b: nat)
    requires r < 256 && g < 256 && b < 256
    ensures DecodeHexColor("#" + HexDigits((r * 256 + g) * 256 + b, 6)) == Argb(255, r, g, b)
  {
    ThreeBytes(r, g, b);
    DecodeSixDigitValue((r * 256 + g) * 256 + b);
  }

  /** Any text that trims to six hex digits, in either case and with or without a prefix,
      decodes to the byte pairs it spells, with alpha 255. */
  lemma DecodeSixDigits(raw: string)
    requires var h := Trim(raw, IsNotAlphanumeric); |h| == 6 && AllHex(h)
    ensures var h := Trim(raw, IsNotAlphanumeric);
      DecodeHexColor(raw) == Argb(255, HexByte(h[0], h[1]), HexByte(h[2], h[3]), HexByte(h[4], h[5]))
  {
    var h := Trim(raw, IsNotAlphanumeric);
    HexValueSix(h);
    ThreeBytes(HexByte(h[0], h[1]), HexByte(h[2], h[3]), HexByte(h[4], h[5]));
  }

  /** The three-digit branch widens each nibble of the scanned value. */
  lemma DecodeThreeDigitValue(v: nat)
    requires v < 4096
    ensures DecodeHexColor("#" + HexDigits(v, 3))
            == Argb(255, ShiftNibbles(v, 2) * 17, (ShiftNibbles(v, 1) % 16) * 17, (v % 16) * 17)
  {
    Pow16Values();
    ScanEncoded(v, 3);
  }

  lemma ThreeNibbles(r: nat, g: nat, b: nat)
    requires g < 16 && b < 16
    ensures var v := (r * 16 + g) * 16 + b;
      ShiftNibbles(v, 2) == r && ShiftNibbles(v, 1) % 16 == g && v % 16 == b
  {
    var rg := r * 16 + g;
    var v := rg * 16 + b;
    SplitNibble(rg, b);
    SplitNibble(r, g);
    ShiftNibblesAdd(v, 1, 1);
  }

  /** Encoding three nibbles as `#RGB` and decoding widens each nibble n to n * 17, with alpha 255. */
  lemma ThreeDigitsRoundTrip(r: nat, g: nat, b: nat)
    requires r < 16 && g < 16 && b < 16
    ensures DecodeHexColor("#" + HexDigits((r * 16 + g) * 16 + b, 3)) == Argb(255, r * 17, g * 17, b * 17)
  {
    ThreeNibbles(r, g, b);
    DecodeThreeDigitValue((r * 16 + g) * 16 + b);
  }

  /** Any text that trims to three hex digits decodes each digit n to n * 17 (so F becomes FF),
      with alpha 255. */
  lemma DecodeThreeDigits(raw: string)
    requires var h := Trim(raw, IsNotAlphanumeric); |h| == 3 && AllHex(h)
    ensures var h := Trim(raw, IsNotAlphanumeric);
      DecodeHexColor(raw) == Argb(255, HexDigitValue(h[0]) * 17, HexDigitValue(h[1]) * 17, HexDigitValue(h[2]) * 17)
  {
    var h := Trim(raw, IsNotAlphanumeric);
    HexValueThree(h);
    ThreeNibbles(HexDigitValue(h[0]), HexDigitValue(h[1]), HexDigitValue(h[2]));
  }

  /** The eight-digit branch reads the alpha, red, green and blue bytes of the scanned value. */
  lemma DecodeEightDigitValue(v: nat)
    requires v < 4294967296
    ensures DecodeHexColor("#" + HexDigits(v, 8))
            == Argb(ShiftNibbles(v, 6), ShiftNibbles(v, 4) % 256, ShiftNibbles(v, 2) % 256, v % 256)
  {
    Pow16Values();
    ScanEncoded(v, 8);
  }

  lemma FourBytes(a: nat, r: nat, g: nat, b: nat)
    requires r < 256 && g < 256 && b < 256
    ensures var v := ((a * 256 + r) * 256 + g) * 256 + b;
      ShiftNibbles(v, 6) == a && ShiftNibbles(v, 4) % 256 == r && ShiftNibbles(v, 2) % 256 == g && v % 256 == b
  {
    var ar := a * 256 + r;
    var arg := ar * 256 + g;
    var v := arg * 256 + b;
    SplitByte(arg, b);
    SplitByte(ar, g);
    SplitByte(a, r);
    ShiftNibblesAdd(v, 2, 2);
    ShiftNibblesAdd(v, 4, 2);
  }

  /** Encoding four bytes as `#AARRGGBB` and decoding gives them back, alpha first. */
  lemma EightDigitsRoundTrip(a: nat, r: nat, g: nat, b: nat)
    requires a < 256 && r < 256 && g < 256 && b < 256
    ensures DecodeHexColor("#" + HexDigits(((a * 256 + r) * 256 + g) * 256 + b, 8)) == Argb(a, r, g, b)
  {
    FourBytes(a, r, g, b);
    DecodeEightDigitValue(((a * 256 + r) * 256 + g) * 256 + b);
  }

  /** Any text that trims to eight hex digits decodes to the byte pairs it spells, alpha first. */
  lemma DecodeEightDigits(raw: string)
    requires var h := Trim(raw, IsNotAlphanumeric); |h| == 8 && AllHex(h)
    ensures var h := Trim(raw, IsNotAlphanumeric);
      DecodeHexColor(raw) == Argb(HexByte(h[0], h[1]), HexByte(h[2], h[3]), HexByte(h[4], h[5]), HexByte(h[6], h[7]))
  {
    var h := Trim(raw, IsNotAlphanumeric);
    HexValueEight(h);
    FourBytes(HexByte(h[0], h[1]), HexByte(h[2], h[3]), HexByte(h[4], h[5]), HexByte(h[6], h[7]));
  }

  /** Lower-case digits decode like upper-case ones. */
  lemma LowerCaseDecodes()
    ensures DecodeHexColor("#abc") == Argb(255, 170, 187, 204)
  {
    var h := "abc";
    assert "#abc" == "#" + h;
    TrimHash(h);
    assert IsHexDigit(h[0]) && IsHexDigit(h[1]) && IsHexDigit(h[2]);
    DecodeThreeDigits("#abc");
  }

  /** Text without a leading '#' decodes the same as with one. */
  lemma BareDigitsDecode()
    ensures DecodeHexColor("0a0b0c") == Argb(255, 10, 11, 12)
  {
    var h := "0a0b0c";
    TrimClean(h, IsNotAlphanumeric);
    assert IsHexDigit(h[0]) && IsHexDigit(h[1]) && IsHexDigit(h[2]);
    assert IsHexDigit(h[3]) && IsHexDigit(h[4]) && IsHexDigit(h[5]);
    assert HexByte(h[0], h[1]) == 10 && HexByte(h[2], h[3]) == 11 && HexByte(h[4], h[5]) == 12;
    DecodeSixDigits(h);
  }

  /** A trimmed length other than 3, 6 or 8 gives the fallback (1, 1, 1, 0) whatever the digits. */
  lemma OtherLengthsFallBack(raw: string)
    requires var n := |Trim(raw, IsNotAlphanumeric)|; n != 3 && n != 6 && n != 8
    ensures DecodeHexColor(raw) == Argb(1, 1, 1, 0)
  {
  }
}
