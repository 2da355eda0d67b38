/**
 * The legacy revision, `Sources/VLColorKit/UIColor.swift`: an extension of
 * `UIColor` with the same API as the current revision, an older hex parser
 * (no shorthand, no `alphaFirst`, an unmasked red byte), a `toHSL()` with
 * the saturation split on `l < 0.5`, and `bestTextColor` with variants at
 * lightness 0.9 and 0.1.
 *
 * Its HSL initialiser, `findBest`, `bestContrast`, `bestLuminance`,
 * `contrastRatio`, `isDark` and `toHex` are the current revision's, line
 * for line (without the macOS branch), and are modelled once, in
 * `VLColorHsl`, `VLColorText` and `VLColorHex`.
 */
module KitUIColor {
  import opened Wrappers
  import opened HexText
  import opened Carrier
  import opened Reference
  import opened VLColorHex
  import VLColorHsl
  import VLColorText

  // ---------------------------------------------------------------------------
  // init?(hex:)
  // ---------------------------------------------------------------------------

  /**
   * The channel values of the legacy parser: the scanned value cut as
   * `red = v >> 16`, `green = (v >> 8) & 0xFF`, `blue = v & 0xFF`, with
   * alpha 255 for 6 characters and `v >> 24` for 8. Red is not masked, so
   * it is the top two bytes of the value; alpha is one byte.
   */
  function LegacyHexBytes(hex: string): (r: Option<Bytes>)
    ensures r.Some? ==> 0 <= r.value.green < 256 && 0 <= r.value.blue < 256
    ensures r.Some? ==> 0 <= r.value.red < 0x1_0000 && 0 <= r.value.alpha < 256
    ensures r.Some? ==> |Stripped(hex)| == 6 || |Stripped(hex)| == 8
  {
    LegacyDecode(Stripped(hex))
  }

  /** Scanning the stripped string and cutting the value, without a mask on red. */
  function LegacyDecode(s: string): (r: Option<Bytes>)
    ensures r.Some? ==> 0 <= r.value.green < 256 && 0 <= r.value.blue < 256
    ensures r.Some? ==> 0 <= r.value.red < 0x1_0000 && 0 <= r.value.alpha < 256
    ensures r.Some? ==> |s| == 6 || |s| == 8
  {
    match ScanHexInt64(s)
    case None => None
    case Some(v) =>
      ScanBound(s);
      if |s| == 6 then Pow16Bound(6); Some(Bytes(v / 0x1_0000, v / 0x100 % 0x100, v % 0x100, 255))
      else if |s| == 8 then Pow16Bound(8); Some(Bytes(v / 0x1_0000, v / 0x100 % 0x100, v % 0x100, v / 0x100_0000))
      else None
  }

  /** `self.init(red: CGFloat(red) / 255, ...)`, through `Make`, whose clamp caps what lies above 1. */
  function LegacyColorOfBytes(b: Bytes): (c: Color)
    requires 0 <= b.red && 0 <= b.green && 0 <= b.blue && 0 <= b.alpha
    ensures c.rgba.Some? && c.model == RGB
    ensures b.red >= 255 ==> c.rgba.value.red == 1.0
    ensures b.alpha >= 255 ==> c.rgba.value.alpha == 1.0
    ensures InByteRange(b) ==> c == ColorOfBytes(b)
  {
    Make(b.red as real / 255.0, b.green as real / 255.0, b.blue as real / 255.0, b.alpha as real / 255.0)
  }

  /** `init?(hex:)` of the legacy revision as a value. */
  function LegacyHexColor(hex: string): Option<Color>
  {
    match LegacyHexBytes(hex)
    case None => None
    case Some(b) => Some(LegacyColorOfBytes(b))
  }

  /** `init?(hex:)`, step by step on the local `hexString`. */
  method LegacyInitHex(hex: string) returns (color: Option<Color>)
    ensures color == LegacyHexColor(hex)
  {
    var hexString := Uppercased(Trim(hex));
    if |hexString| > 0 && hexString[0] == '#' {
      hexString := hexString[1..];
    }
    var scanned := ScanHexInt64(hexString);
    if scanned.None? {
      return None;
    }
    var rgbValue := scanned.value;
    var red, green, blue, alpha;
    if |hexString| == 6 {
      red := rgbValue / 0x1_0000;
      green := rgbValue / 0x100 % 0x100;
      blue := rgbValue % 0x100;
      alpha := 255;
    } else if |hexString| == 8 {
      red := rgbValue / 0x1_0000;
      green := rgbValue / 0x100 % 0x100;
      blue := rgbValue % 0x100;
      alpha := rgbValue / 0x100_0000;
    } else {
      return None;
    }
    color := Some(LegacyColorOfBytes(Bytes(red, green, blue, alpha)));
  }

  /** Nothing is decoded exactly when the scan fails or the stripped length is neither 6 nor 8. */
  lemma LegacyHexRejects(hex: string)
    ensures LegacyHexColor(hex).None? <==>
            ScanHexInt64(Stripped(hex)).None? || (|Stripped(hex)| != 6 && |Stripped(hex)| != 8)
  {
  }

  /** There is no shorthand: three hex digits are refused, where the current parser accepts them. */
  lemma LegacyRefusesShorthand(s: string)
    requires |s| == 3 && AllHexDigits(s)
    ensures LegacyHexColor(s).None?
    ensures HexColor(s, false).Some?
  {
    LegacyShortRefused(s);
    ShorthandDoubles(s, false);
  }

  lemma LegacyShortRefused(s: string)
    requires |s| == 3 && AllHexDigits(s)
    ensures LegacyHexBytes(s).None?
  {
    StrippedDigits(s);
    assert |Stripped(s)| == 3;
  }

  /** On six hex digits the legacy parser reads the same bytes as the current one. */
  lemma LegacySixAgrees(s: string)
    requires |s| == 6 && AllHexDigits(s)
    ensures LegacyHexBytes(s) == HexBytes(s, false)
  {
    LegacyScansWhole(s);
    ThreePairs(s);
    SixDigitLayout(s, false);
    UnmaskedThree(HexValue(s), PairAt(s, 0), PairAt(s, 2), PairAt(s, 4));
  }

  /**
   * Eight hex digits `AARRGGBB` give the alpha, green and blue bytes the
   * current parser's `AARRGGBB` mode reads, but red is the two top bytes
   * `AARR` together.
   */
  lemma {:induction false} LegacyEightLayout(s: string)
    requires |s| == 8 && AllHexDigits(s)
    ensures AlphaOverRed(HexBytes(s, true), LegacyHexBytes(s))
  {
    LegacyEightWhole(s);
    CurrentScansWhole(s);
    EightDigitsBound(s);
    CutsOfValue(LegacyHexBytes(s), HexBytes(s, true), HexValue(s));
  }

  /** Eight hex digits hold a 32-bit value. */
  lemma EightDigitsBound(s: string)
    requires |s| == 8 && AllHexDigits(s)
    ensures HexValue(s) < 0x1_0000_0000
  {
    HexValueBound(s);
    Pow16Bound(8);
  }

  /** Eight digits are cut by the legacy parser from their whole value, red unmasked. */
  lemma LegacyEightWhole(s: string)
    requires |s| == 8 && AllHexDigits(s)
    ensures var v := HexValue(s);
      LegacyHexBytes(s) == Some(Bytes(v / 0x1_0000, v / 0x100 % 0x100, v % 0x100, v / 0x100_0000))
  {
    ScanDigits(s);
    StrippedDigits(s);
    LegacyCut(Prepared(s), HexValue(s));
  }

  /** Eight digits in the current `AARRGGBB` mode are cut, masked, from their whole value. */
  lemma CurrentScansWhole(s: string)
    requires |s| == 8 && AllHexDigits(s)
    ensures var v := HexValue(s);
      HexBytes(s, true) ==
      Some(Bytes(v / 0x1_0000 % 0x100, v / 0x100 % 0x100, v % 0x100, v / 0x100_0000 % 0x100))
  {
    ScanDigits(s);
    CurrentCut(Prepared(s), HexValue(s));
  }

  lemma LegacyCut(t: string, v: nat)
    requires |t| == 8 && ScanHexInt64(t) == Some(v)
    ensures LegacyDecode(t) == Some(Bytes(v / 0x1_0000, v / 0x100 % 0x100, v % 0x100, v / 0x100_0000))
  {
  }

  lemma CurrentCut(t: string, v: nat)
    requires |t| == 8 && ScanHexInt64(t) == Some(v)
    ensures DecodePrepared(t, true) ==
            Some(Bytes(v / 0x1_0000 % 0x100, v / 0x100 % 0x100, v % 0x100, v / 0x100_0000 % 0x100))
  {
  }

  lemma CutsOfValue(legacy: Option<Bytes>, current: Option<Bytes>, v: nat)
    requires v < 0x1_0000_0000
    requires legacy == Some(Bytes(v / 0x1_0000, v / 0x100 % 0x100, v % 0x100, v / 0x100_0000))
    requires current == Some(Bytes(v / 0x1_0000 % 0x100, v / 0x100 % 0x100, v % 0x100, v / 0x100_0000 % 0x100))
    ensures AlphaOverRed(current, legacy)
  {
    TopBytes(v);
  }

  /**
   * Both parsers decode, and the legacy bytes are the current ones with the
   * alpha byte sitting above the red byte.
   */
  predicate AlphaOverRed(current: Option<Bytes>, legacy: Option<Bytes>)
  {
    current.Some? &&
    legacy == Some(Bytes(current.value.alpha * 0x100 + current.value.red, current.value.green,
                         current.value.blue, current.value.alpha))
  }

  /** A string of 6 or 8 hex digits is decoded from its whole value. */
  lemma LegacyScansWhole(s: string)
    requires (|s| == 6 || |s| == 8) && AllHexDigits(s)
    ensures var v := HexValue(s);
      LegacyHexBytes(s) ==
      Some(Bytes(v / 0x1_0000, v / 0x100 % 0x100, v % 0x100, if |s| == 6 then 255 else v / 0x100_0000))
  {
    ScanDigits(s);
    StrippedDigits(s);
    assert Stripped(s) == Prepared(s);
  }

  /** `v >> 16` of a 32-bit value is its top byte times 256 plus its third byte. */
  lemma TopBytes(v: nat)
    requires v < 0x1_0000_0000
    ensures v / 0x100_0000 % 0x100 == v / 0x100_0000
    ensures v / 0x1_0000 == v / 0x100_0000 % 0x100 * 0x100 + v / 0x1_0000 % 0x100
  {
    var w := v / 0x1_0000;
    assert w < 0x1_0000;
    assert v / 0x100_0000 == w / 0x100;
  }

  /** `v >> 16` of a three-byte value is its top byte. */
  lemma UnmaskedThree(v: nat, p0: nat, p1: nat, p2: nat)
    requires p0 < 256 && p1 < 256 && p2 < 256
    requires v == (p0 * 0x100 + p1) * 0x100 + p2
    ensures v / 0x1_0000 == p0 && v / 0x100 % 0x100 == p1 && v % 0x100 == p2
  {
    ThreeBytes(v, p0, p1, p2);
    var low := p1 * 0x100 + p2;
    assert v == p0 * 0x1_0000 + low && low < 0x1_0000;
  }

  /**
   * As written, any `AARRGGBB` string with a non-zero alpha pair gets a red
   * value of at least 256, which the modelled clamp caps at full red; the
   * current parser's masked `AARRGGBB` mode reads red from the `RR` pair.
   */
  lemma LegacyAlphaOverflowsRed(s: string)
    requires |s| == 8 && AllHexDigits(s) && PairAt(s, 0) > 0
    ensures LegacyHexBytes(s).Some? && LegacyHexBytes(s).value.red >= 256
    ensures LegacyHexColor(s).Some? && LegacyHexColor(s).value.rgba.value.red == 1.0
    ensures HexColor(s, true).Some?
    ensures HexColor(s, true).value.rgba.value.red * 255.0 == PairAt(s, 2) as real
  {
    LegacyEightLayout(s);
    EightDigitLayout(s, true);
  }

  /** "FF000000", opaque black in `AARRGGBB` form, has a non-zero alpha pair and a zero `RR` pair. */
  lemma OpaqueBlackPairs(s: string)
    requires s == "FF000000"
    ensures |s| == 8 && AllHexDigits(s)
    ensures PairAt(s, 0) == 255 && PairAt(s, 2) == 0
  {
    assert AllHexDigits(s) by {
      assert forall i | 0 <= i < |s| :: IsHexDigit(s[i]);
    }
    PairAtDigits(s, 0);
    PairAtDigits(s, 2);
    assert DigitValue('F') == 15 && DigitValue('0') == 0;
  }

  // ---------------------------------------------------------------------------
  // toHSL()
  // ---------------------------------------------------------------------------

  /** `x.truncatingRemainder(dividingBy: 6)`: the remainder takes the sign of `x`. */
  function TruncRem6(x: real): (r: real)
    ensures -6.0 < x < 6.0 ==> r == x
  {
    x - 6.0 * Trunc(x / 6.0) as real
  }

  /**
   * `toHSL()` of the legacy revision: saturation `delta / (max + min)`
   * below half lightness and `delta / (2 - max - min)` from it on; the
   * red-largest hue taken modulo 6 with the sign kept, then 1 added to a
   * negative hue after dividing by 6. It computes the same as the current
   * revision's `toHSL()`.
   */
  method LegacyToHSL(c: Color) returns (result: Option<Hsl>)
    ensures result == HslOf(c)
  {
    if c.rgba.None? {
      return None;
    }
    var p := c.rgba.value;
    var r: real, g: real, b: real, a: real := p.red, p.green, p.blue, p.alpha;
    var maxVal := Max3(r, g, b);
    var minVal := Min3(r, g, b);
    var delta := maxVal - minVal;
    var l := (maxVal + minVal) / 2.0;
    var h := 0.0;
    var s := 0.0;
    if delta == 0.0 {
      h := 0.0;
      s := 0.0;
    } else {
      s := if l < 0.5 then delta / (maxVal + minVal) else delta / (2.0 - maxVal - minVal);
      assert s == delta / (1.0 - Abs(2.0 * l - 1.0));
      if maxVal == r {
        QuotientInUnit(g - b, delta);
        h := TruncRem6((g - b) / delta);
        assert h == (g - b) / delta;
        VLColorHsl.QuotientPlace(g - b, delta);
      } else if maxVal == g {
        QuotientInUnit(b - r, delta);
        h := (b - r) / delta + 2.0;
      } else {
        QuotientInUnit(r - g, delta);
        h := (r - g) / delta + 4.0;
      }
      h := h / 6.0;
      if h < 0.0 {
        h := h + 1.0;
      }
      assert h == HueSector(p) / 6.0;
    }
    result := Some(Hsl(h, s, l, a));
  }

  // ---------------------------------------------------------------------------
  // bestTextColor
  // ---------------------------------------------------------------------------

  /** `bestTextColor` of the legacy revision: the same cascade over the lightness-0.9 and lightness-0.1 variants. */
  function LegacyBestTextColor(c: Color, curve: Curve): Color
  {
    VLColorText.TextColor(c, VLColorText.Variants(c, 0.9, 0.1), curve)
  }

  /**
   * The legacy text colour is a variant, white or black, with a contrast of
   * at least 4.5 or a luminance gap of at least 0.5.
   */
  lemma LegacyTextGuarantee(c: Color, curve: Curve)
    ensures var t := LegacyBestTextColor(c, curve);
      (t in VLColorText.Variants(c, 0.9, 0.1) || t == White || t == Black) &&
      (VLColorText.ContrastRatio(c, t, curve) >= VLColorText.AaaLarge ||
       VLColorText.Gap(c, t, curve) >= VLColorText.LuminanceGap)
  {
    VLColorText.TextColorGuarantee(c, VLColorText.Variants(c, 0.9, 0.1), curve);
  }

  /** A colour without RGBA has no variants and luminance 1: its legacy text colour is black. */
  lemma LegacyUnreadableGetsBlack(c: Color, curve: Curve)
    requires c.rgba.None?
    ensures LegacyBestTextColor(c, curve) == Black
  {
    VLColorText.WhiteOrBlackLast(c, VLColorText.Variants(c, 0.9, 0.1), curve);
  }

  /**
   * On white the legacy text colour is the 0.1 grey whenever the power
   * curve puts 0.1 at a luminance of at most 0.1 (it is about 0.010) and
   * below 0.9's.
   */
  lemma LegacyWhiteBackgroundGetsGrey(curve: Curve)
    requires curve(0.1) <= 0.1 && curve(0.1) <= curve(0.9)
    ensures LegacyBestTextColor(White, curve) == Make(0.1, 0.1, 0.1, 1.0)
  {
    VLColorText.WhiteBackgroundText(0.9, 0.1, curve);
  }
}
