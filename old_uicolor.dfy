/**
 * The oldest revision, `Sources/UIColor.swift`: an extension of `UIColor`
 * with the hex initialiser of the legacy revision (modelled once, in
 * `KitUIColor`), a darkness test on the plain weighted sum of the channels,
 * `contrastingColor`, and an optional-returning `toHex` that indexes the
 * colour's components without checking how many there are.
 */
module OldUIColor {
  import opened Wrappers
  import opened HexText
  import opened Carrier
  import opened VLColorHex
  import VLColorText
  import KitUIColor

  // ---------------------------------------------------------------------------
  // isDarkColor, contrastingColor
  // ---------------------------------------------------------------------------

  /**
   * `0.2126 r + 0.7152 g + 0.0722 b` of the channels as stored, without
   * linearisation. When the accessor fails, the channels keep the zeros
   * they start with.
   */
  function Luma(c: Color): (lum: real)
    ensures 0.0 <= lum <= 1.0
    ensures c.rgba.None? ==> lum == 0.0
    ensures c.rgba.Some? && c.rgba.value.red == c.rgba.value.green == c.rgba.value.blue ==>
              lum == c.rgba.value.red
  {
    match c.rgba
    case None => 0.0
    case Some(p) => 0.2126 * p.red + 0.7152 * p.green + 0.0722 * p.blue
  }

  /** `isDarkColor` as a value: the weighted sum lies below one half. */
  predicate DarkColor(c: Color)
  {
    Luma(c) < 0.5
  }

  /** `isDarkColor`, filling `r`, `g`, `b`, `a` through the accessor's out-parameters. */
  method IsDarkColor(c: Color) returns (dark: bool)
    ensures dark == DarkColor(c)
    ensures c.rgba.None? ==> dark
  {
    var r, g, b, a := 0.0, 0.0, 0.0, 0.0;
    if c.rgba.Some? {
      r, g, b, a := c.rgba.value.red, c.rgba.value.green, c.rgba.value.blue, c.rgba.value.alpha;
    }
    var lum := 0.2126 * r + 0.7152 * g + 0.0722 * b;
    dark := lum < 0.5;
  }

  /** `contrastingColor`: white on a dark colour, black otherwise. */
  function ContrastingColor(c: Color): (r: Color)
    ensures r == White <==> DarkColor(c)
    ensures r == Black <==> !DarkColor(c)
  {
    if DarkColor(c) then White else Black
  }

  /** Black is dark and white is not, so each gets the other as its contrasting colour. */
  lemma ExtremesContrast()
    ensures DarkColor(Black) && !DarkColor(White)
    ensures ContrastingColor(Black) == White && ContrastingColor(White) == Black
  {
  }

  /** A grey of value `v` in [0,1] is dark exactly when `v` lies below one half. */
  lemma GreyDarkness(v: real)
    requires 0.0 <= v <= 1.0
    ensures DarkColor(Make(v, v, v, 1.0)) <==> v < 0.5
  {
    assert Make(v, v, v, 1.0).rgba.value.red == v;
  }

  /**
   * A colour the accessor cannot read is dark here, and gets white, while
   * the WCAG test of the later revisions calls it light.
   */
  lemma UnreadableDisagrees(c: Color, curve: Curve)
    requires c.rgba.None?
    ensures DarkColor(c) && ContrastingColor(c) == White
    ensures !VLColorText.IsDark(c, curve)
  {
    UnreadableIsDark(c);
    LightWhenUnreadable(c, curve);
  }

  lemma UnreadableIsDark(c: Color)
    requires c.rgba.None?
    ensures DarkColor(c) && ContrastingColor(c) == White
  {
    assert Luma(c) == 0.0;
  }

  lemma LightWhenUnreadable(c: Color, curve: Curve)
    requires c.rgba.None?
    ensures !VLColorText.IsDark(c, curve)
  {
    VLColorText.DarknessOfExtremes(c, curve);
  }

  /**
   * A grey below one half whose luminance is at least 0.18 (0.48 has about
   * 0.196 under the sRGB curve) is dark here but light under the WCAG test.
   */
  lemma GreyDisagrees(v: real, curve: Curve)
    requires Knee < v < 0.5 && 0.18 <= curve(v)
    ensures DarkColor(Make(v, v, v, 1.0))
    ensures !VLColorText.IsDark(Make(v, v, v, 1.0), curve)
  {
    GreyDarkness(v);
    GreyLuminance(v, curve);
    VLColorText.IsDarkByLuminance(Make(v, v, v, 1.0), curve);
    AboveCrossing(curve(v));
  }

  lemma GreyLuminance(v: real, curve: Curve)
    requires Knee < v <= 1.0
    ensures Luminance(Make(v, v, v, 1.0), curve) == curve(v)
  {
    assert Make(v, v, v, 1.0).rgba == Some(Rgba(v, v, v, 1.0));
    assert Linear(v, curve) == curve(v);
  }

  lemma AboveCrossing(l: real)
    requires 0.18 <= l
    ensures !VLColorText.BelowCrossing(l)
  {
    assert (l + 0.05) * (l + 0.05) >= 0.23 * (l + 0.05) >= 0.23 * 0.23;
  }

  // ---------------------------------------------------------------------------
  // toHex(prefixed:includeAlpha:)
  // ---------------------------------------------------------------------------

  /** What `toHex` does: trap on a missing component, return nil, or return a string. */
  datatype HexOutcome = Trap | Nil | Written(text: string)

  /** The bytes written: components 0, 1 and 2, and the last component as alpha. */
  function OldBytes(comps: seq<real>): (b: Bytes)
    requires |comps| >= 3
    ensures UnitComponents(comps) ==> InByteRange(b)
  {
    Bytes(ChannelByte(comps[0]), ChannelByte(comps[1]), ChannelByte(comps[2]), ChannelByte(comps[|comps| - 1]))
  }

  /**
   * `toHex(prefixed:includeAlpha:)` as a value: `nil` without components,
   * a trap with fewer than three, and otherwise the digit pairs of
   * components 0, 1 and 2, then of the last component as alpha.
   */
  function OldHexString(c: Color, prefixed: bool, includeAlpha: bool): (r: HexOutcome)
    ensures r == Nil <==> c.components.None?
    ensures r == Trap <==> c.components.Some? && |c.components.value| < 3
    ensures r.Written? && UnitComponents(c.components.value) ==>
              var comps := c.components.value;
              WritesBytes(r.text, prefixed, includeAlpha,
                          Bytes(ChannelByte(comps[0]), ChannelByte(comps[1]), ChannelByte(comps[2]),
                                ChannelByte(comps[|comps| - 1])))
  {
    match c.components
    case None => Nil
    case Some(comps) =>
      if |comps| < 3 then Trap
      else
        var b := OldBytes(comps);
        if UnitComponents(comps) then
          WrittenDigits(b, prefixed, includeAlpha);
          Written(WithPrefix(prefixed, Digits(b, includeAlpha)))
        else Written(WithPrefix(prefixed, Digits(b, includeAlpha)))
  }

  /** `toHex(prefixed:includeAlpha:)`, reading `red`, `green`, `blue` and `alpha` one by one. */
  method OldToHex(c: Color, prefixed: bool, includeAlpha: bool) returns (r: HexOutcome)
    ensures r == OldHexString(c, prefixed, includeAlpha)
  {
    if c.components.None? {
      return Nil;
    }
    var components := c.components.value;
    if |components| < 3 {
      return Trap;
    }
    var red := ChannelByte(components[0]);
    var green := ChannelByte(components[1]);
    var blue := ChannelByte(components[2]);
    var hexString: string;
    if includeAlpha {
      var alphaValue := ChannelByte(components[|components| - 1]);
      hexString := Format02X(red) + Format02X(green) + Format02X(blue) + Format02X(alphaValue);
    } else {
      hexString := Format02X(red) + Format02X(green) + Format02X(blue);
    }
    r := Written(if prefixed then "#" + hexString else hexString);
  }

  /** On an RGB colour with four components the oldest `toHex` writes what the current one writes. */
  lemma OldAgreesOnRgba(c: Color, prefixed: bool, includeAlpha: bool, fallback: string)
    requires c.model == RGB && c.components.Some? && |c.components.value| == 4
    ensures HexReadable(c)
    ensures OldHexString(c, prefixed, includeAlpha) == Written(HexString(c, prefixed, includeAlpha, fallback))
  {
  }

  /**
   * With three RGB components the oldest `toHex` takes blue, the last
   * component, as alpha; the current one writes alpha 255.
   */
  lemma ThreeComponentAlpha(c: Color, prefixed: bool, fallback: string)
    requires c.model == RGB && c.components.Some? && |c.components.value| == 3
    ensures var comps := c.components.value;
      var b := Bytes(ChannelByte(comps[0]), ChannelByte(comps[1]), ChannelByte(comps[2]), ChannelByte(comps[2]));
      OldHexString(c, prefixed, true) == Written(WithPrefix(prefixed, Digits(b, true))) &&
      HexString(c, prefixed, true, fallback) == WithPrefix(prefixed, Digits(b.(alpha := 255), true))
  {
  }

  /** A grey colour has two components, so `toHex` traps on `components[2]`. */
  lemma MonochromeTraps(c: Color, prefixed: bool, includeAlpha: bool)
    requires c.model == Monochrome && c.components.Some? && |c.components.value| == 2
    ensures OldHexString(c, prefixed, includeAlpha) == Trap
  {
  }

  /**
   * As written, the system white and black, both grey colours, trap; the
   * current revision writes them as "FFFFFF" and "000000".
   */
  lemma WhiteAndBlackTrap(prefixed: bool, includeAlpha: bool)
    ensures OldHexString(White, prefixed, includeAlpha) == Trap
    ensures OldHexString(Black, prefixed, includeAlpha) == Trap
  {
    MonochromeTraps(White, prefixed, includeAlpha);
    MonochromeTraps(Black, prefixed, includeAlpha);
  }

  /**
   * A colour built from bytes by the hex initialiser is written back as
   * their six digits, and the oldest parser reads those digits as the same
   * bytes, opaque.
   */
  lemma OldWrittenParsesBack(b: Bytes)
    requires InByteRange(b)
    ensures OldHexString(ColorOfBytes(b), false, false) == Written(Digits(b, false))
    ensures KitUIColor.LegacyHexBytes(Digits(b, false)) == Some(b.(alpha := 255))
  {
    ChannelsOfBytes(b);
    OldAgreesOnRgba(ColorOfBytes(b), false, false, "");
    WrittenBytes(b, false, "");
    DigitsShape(b, false);
    FormatThenParse(b, false);
    KitUIColor.LegacySixAgrees(Digits(b, false));
  }
}
