/**
 * HSL in the current revision: `VLColor.init(hue:saturation:lightness:alpha:)`,
 * its integer variant, `toHSL()` and `_adjustedLightness(to:)`.
 */
module VLColorHsl {
  import opened Wrappers
  import opened Carrier
  import opened Reference

  /** Three channel values before they are passed to the platform initialiser. */
  datatype Channels = Channels(red: real, green: real, blue: real)

  predicate InUnit(ch: Channels)
  {
    0.0 <= ch.red <= 1.0 && 0.0 <= ch.green <= 1.0 && 0.0 <= ch.blue <= 1.0
  }

  /** `x.truncatingRemainder(dividingBy: 2)`: the remainder takes the sign of `x`. */
  function TruncRem2(x: real): (r: real)
    ensures 0.0 <= x ==> 0.0 <= r < 2.0
    ensures x < 0.0 ==> -2.0 < r <= 0.0
    ensures 0.0 <= x < 2.0 ==> r == x
    ensures 2.0 <= x < 4.0 ==> r == x - 2.0
    ensures 4.0 <= x < 6.0 ==> r == x - 4.0
    ensures x == 6.0 ==> r == 0.0
  {
    x - 2.0 * Trunc(x / 2.0) as real
  }

  /** `1 - |2l - 1|`: the largest chroma lightness `l` allows. */
  function Room(l: real): (k: real)
    ensures 0.0 <= l <= 1.0 ==> 0.0 <= k <= 1.0
    ensures l <= 0.5 ==> k == 2.0 * l
    ensures 0.5 <= l ==> k == 2.0 - 2.0 * l
  {
    1.0 - Abs(2.0 * l - 1.0)
  }

  /**
   * The chroma `(1 - |2l - 1|) * s`; for `s` and `l` in [0,1] it fits in the
   * room `l` leaves: `l - c/2` and `l + c/2` stay in [0,1].
   */
  function Chroma(s: real, l: real): (c: real)
    ensures 0.0 <= s <= 1.0 && 0.0 <= l <= 1.0 ==>
              0.0 <= c <= Room(l) && 0.0 <= l - c / 2.0 && l + c / 2.0 <= 1.0
  {
    var k := Room(l);
    ScaledDown(k, s);
    k * s
  }

  /** The offset `c * (1 - |hh truncrem 2 - 1|)` at sector position `hh`, in [0,c] when `hh >= 0`. */
  function Offset(hh: real, c: real): (x: real)
    ensures 0.0 <= hh && 0.0 <= c ==> 0.0 <= x <= c
  {
    var f := 1.0 - Abs(TruncRem2(hh) - 1.0);
    ScaledDown(c, f);
    c * f
  }

  /**
   * The channels of `(c, x, 0)` and its rotations, picked by the sector
   * `h * 6` lies in, each shifted by `m`; outside [0,6) the sector part is
   * `(0, 0, 0)`, so the result is the grey `m`.
   */
  function HslChannels(h: real, s: real, l: real): Channels
  {
    var c := Chroma(s, l);
    var x := Offset(h * 6.0, c);
    var m := l - c / 2.0;
    var part := SectorPart(h * 6.0, c, x);
    Channels(part.red + m, part.green + m, part.blue + m)
  }

  /** The `switch h * 6`: `(c, x, 0)` rotated by sector, `(0, 0, 0)` outside [0,6). */
  function SectorPart(hh: real, c: real, x: real): (part: Channels)
    ensures 0.0 <= x <= c ==> 0.0 <= part.red <= c && 0.0 <= part.green <= c && 0.0 <= part.blue <= c
    ensures hh < 0.0 || 6.0 <= hh ==> part == Channels(0.0, 0.0, 0.0)
  {
    if 0.0 <= hh < 1.0 then Channels(c, x, 0.0)
    else if 1.0 <= hh < 2.0 then Channels(x, c, 0.0)
    else if 2.0 <= hh < 3.0 then Channels(0.0, c, x)
    else if 3.0 <= hh < 4.0 then Channels(0.0, x, c)
    else if 4.0 <= hh < 5.0 then Channels(x, 0.0, c)
    else if 5.0 <= hh < 6.0 then Channels(c, 0.0, x)
    else Channels(0.0, 0.0, 0.0)
  }

  /** `init(hue:saturation:lightness:alpha:)`. */
  function HslColor(h: real, s: real, l: real, a: real): Color
  {
    var ch := HslChannels(h, s, l);
    Make(ch.red, ch.green, ch.blue, a)
  }

  /** `init(hue:saturation:lightness:alpha:)` with degrees and percentages. */
  function HslColorInt(h: int, s: int, l: int, a: real): Color
  {
    HslColor(h as real / 360.0, s as real / 100.0, l as real / 100.0, a)
  }

  /** `toHSL()`, step by step on the locals `h`, `s` and `l`. */
  method ToHSL(c: Color) returns (result: Option<Hsl>)
    ensures result == HslOf(c)
  {
    if c.rgba.None? {
      return None;
    }
    var p := c.rgba.value;
    var r: real, g: real, b: real, a: real := p.red, p.green, p.blue, p.alpha;
    var maxVal := Max3(r, g, b);
    var minVal := Min3(r, g, b);
    var delta := maxVal - minVal;
    var h := 0.0;
    var s := 0.0;
    var l := (maxVal + minVal) / 2.0;
    if delta != 0.0 {
      s := delta / (1.0 - Abs(2.0 * l - 1.0));
      if maxVal == r {
        h := (g - b) / delta;
        QuotientInUnit(g - b, delta);
        QuotientPlace(g - b, delta);
        if g < b {
          assert h < 0.0;
          h := h + 6.0;
        } else {
          assert h >= 0.0;
        }
      } else if maxVal == g {
        h := (b - r) / delta + 2.0;
      } else {
        h := (r - g) / delta + 4.0;
      }
      assert h == HueSector(p);
      h := h / 6.0;
    }
    result := Some(Hsl(h, s, l, a));
  }

  /** `_adjustedLightness(to:)`: the colour's own hue, saturation and alpha with a new lightness. */
  function AdjustedLightness(c: Color, newLightness: real): (r: Option<Color>)
    ensures r.None? <==> c.rgba.None?
  {
    match HslOf(c)
    case None => None
    case Some(hsl) => Some(HslColor(hsl.hue, hsl.saturation, newLightness, hsl.alpha))
  }

  // ---------------------------------------------------------------------------
  // Properties
  // ---------------------------------------------------------------------------

  /**
   * For saturation and lightness in [0,1] every channel lands in [0,1], so the
   * platform clamp changes nothing, whatever the hue.
   */
  lemma HslChannelsInUnit(h: real, s: real, l: real)
    requires 0.0 <= s <= 1.0 && 0.0 <= l <= 1.0
    ensures InUnit(HslChannels(h, s, l))
  {
    var c := Chroma(s, l);
    ShiftedInUnit(SectorPart(h * 6.0, c, Offset(h * 6.0, c)), c, l);
  }

  /** A sector part with channels in [0,c], shifted by `l - c/2`, stays in [0,1]. */
  lemma ShiftedInUnit(part: Channels, c: real, l: real)
    requires 0.0 <= part.red <= c && 0.0 <= part.green <= c && 0.0 <= part.blue <= c
    requires 0.0 <= l - c / 2.0 && l + c / 2.0 <= 1.0
    ensures InUnit(Channels(part.red + (l - c / 2.0), part.green + (l - c / 2.0), part.blue + (l - c / 2.0)))
  {
  }

  /** Scaling a non-negative value by a factor in [0,1] keeps it between 0 and itself. */
  lemma ScaledDown(a: real, f: real)
    ensures 0.0 <= a && 0.0 <= f <= 1.0 ==> 0.0 <= a * f <= a
  {
    if 0.0 <= a && 0.0 <= f <= 1.0 {
      assert a * f <= a * 1.0;
    }
  }

  // ---------------------------------------------------------------------------
  // RGB -> HSL -> RGB
  // ---------------------------------------------------------------------------

  lemma CancelDivision(u: real, d: real)
    requires d != 0.0
    ensures d * (u / d) == u
  {
  }

  /** Where `u / d` lies, for a positive `d`, read off `u`. */
  lemma QuotientPlace(u: real, d: real)
    requires d > 0.0
    ensures u < 0.0 ==> u / d < 0.0
    ensures 0.0 <= u ==> 0.0 <= u / d
    ensures u < d ==> u / d < 1.0
    ensures u == d ==> u / d == 1.0
  {
    if u < d && u / d >= 1.0 {
      CancelDivision(u, d);
      MulMonotone(d, 1.0, u / d);
      assert false;
    }
  }

  lemma MulMonotone(d: real, x: real, y: real)
    requires d > 0.0 && x <= y
    ensures d * x <= d * y
  {
  }

  /** The sector part the initialiser picks for the hue `toHSL` computed, red largest. */
  lemma RedSector(p: Rgba)
    requires Max3(p.red, p.green, p.blue) != Min3(p.red, p.green, p.blue)
    requires Max3(p.red, p.green, p.blue) == p.red
    ensures var d := Max3(p.red, p.green, p.blue) - Min3(p.red, p.green, p.blue);
      var hh := HueSector(p);
      SectorPart(hh, d, Offset(hh, d)) ==
      Channels(p.red - Min3(p.red, p.green, p.blue), p.green - Min3(p.red, p.green, p.blue),
               p.blue - Min3(p.red, p.green, p.blue))
  {
    if p.green >= p.blue {
      RedSectorRising(p);
    } else {
      RedSectorFalling(p);
    }
  }

  /** Red largest and green at least blue: the hue lies in [0,1]. */
  lemma RedSectorRising(p: Rgba)
    requires Max3(p.red, p.green, p.blue) != Min3(p.red, p.green, p.blue)
    requires Max3(p.red, p.green, p.blue) == p.red && p.green >= p.blue
    ensures var d := Max3(p.red, p.green, p.blue) - Min3(p.red, p.green, p.blue);
      var hh := HueSector(p);
      SectorPart(hh, d, Offset(hh, d)) ==
      Channels(p.red - Min3(p.red, p.green, p.blue), p.green - Min3(p.red, p.green, p.blue),
               p.blue - Min3(p.red, p.green, p.blue))
  {
    var r: real, g: real, b: real := p.red, p.green, p.blue;
    var d := r - Min3(r, g, b);
    var q := (g - b) / d;
    QuotientInUnit(g - b, d);
    QuotientPlace(g - b, d);
    CancelDivision(g - b, d);
    assert HueSector(p) == Mod6(q);
    var hh := HueSector(p);
    assert hh == q;
    if hh == 1.0 {
      assert g - b == d;
    }
  }

  /** Red largest and green below blue: the hue wraps into (5,6). */
  lemma RedSectorFalling(p: Rgba)
    requires Max3(p.red, p.green, p.blue) != Min3(p.red, p.green, p.blue)
    requires Max3(p.red, p.green, p.blue) == p.red && p.green < p.blue
    ensures var d := Max3(p.red, p.green, p.blue) - Min3(p.red, p.green, p.blue);
      var hh := HueSector(p);
      SectorPart(hh, d, Offset(hh, d)) ==
      Channels(p.red - Min3(p.red, p.green, p.blue), p.green - Min3(p.red, p.green, p.blue),
               p.blue - Min3(p.red, p.green, p.blue))
  {
    var r: real, g: real, b: real := p.red, p.green, p.blue;
    var d := r - Min3(r, g, b);
    var q := (g - b) / d;
    QuotientInUnit(g - b, d);
    QuotientPlace(g - b, d);
    CancelDivision(g - b, d);
    assert HueSector(p) == Mod6(q);
    var hh := HueSector(p);
    assert hh == q + 6.0;
    assert Offset(hh, d) == d * (6.0 - hh);
  }

  /** The same, green largest (and red not). */
  lemma GreenSector(p: Rgba)
    requires Max3(p.red, p.green, p.blue) != Min3(p.red, p.green, p.blue)
    requires Max3(p.red, p.green, p.blue) == p.green != p.red
    ensures var d := Max3(p.red, p.green, p.blue) - Min3(p.red, p.green, p.blue);
      var hh := HueSector(p);
      SectorPart(hh, d, Offset(hh, d)) ==
      Channels(p.red - Min3(p.red, p.green, p.blue), p.green - Min3(p.red, p.green, p.blue),
               p.blue - Min3(p.red, p.green, p.blue))
  {
    var r: real, g: real, b: real := p.red, p.green, p.blue;
    var d := g - Min3(r, g, b);
    var hh := HueSector(p);
    var q := (b - r) / d;
    assert hh == q + 2.0;
    QuotientInUnit(b - r, d);
    QuotientPlace(b - r, d);
    CancelDivision(b - r, d);
    if b < r {
      assert Min3(r, g, b) == b && hh < 2.0;
      assert Offset(hh, d) == d * (-q);
    } else if b < g {
      assert Min3(r, g, b) == r && 2.0 <= hh < 3.0;
      assert Offset(hh, d) == d * q;
    } else {
      assert Min3(r, g, b) == r && hh == 3.0;
    }
  }

  /** The same, blue largest (red and green not). */
  lemma BlueSector(p: Rgba)
    requires Max3(p.red, p.green, p.blue) != Min3(p.red, p.green, p.blue)
    requires Max3(p.red, p.green, p.blue) != p.red && Max3(p.red, p.green, p.blue) != p.green
    ensures var d := Max3(p.red, p.green, p.blue) - Min3(p.red, p.green, p.blue);
      var hh := HueSector(p);
      SectorPart(hh, d, Offset(hh, d)) ==
      Channels(p.red - Min3(p.red, p.green, p.blue), p.green - Min3(p.red, p.green, p.blue),
               p.blue - Min3(p.red, p.green, p.blue))
  {
    var r: real, g: real, b: real := p.red, p.green, p.blue;
    var d := b - Min3(r, g, b);
    var hh := HueSector(p);
    var q := (r - g) / d;
    assert hh == q + 4.0;
    QuotientInUnit(r - g, d);
    QuotientPlace(r - g, d);
    QuotientPlace(g - r, d);
    CancelDivision(r - g, d);
    if r < g {
      assert Min3(r, g, b) == r && 3.0 < hh < 4.0;
      assert Offset(hh, d) == d * (-q);
    } else {
      assert Min3(r, g, b) == g && 4.0 <= hh < 5.0;
      assert Offset(hh, d) == d * q;
    }
  }

  /**
   * The initialiser inverts `toHSL`: the hue, saturation and lightness of
   * an RGBA value give back its red, green and blue exactly.
   */
  lemma HslRoundTrip(p: Rgba)
    ensures var hsl := StandardHsl(p);
      HslChannels(hsl.hue, hsl.saturation, hsl.lightness) == Channels(p.red, p.green, p.blue)
  {
    var mx := Max3(p.red, p.green, p.blue);
    var mn := Min3(p.red, p.green, p.blue);
    if mx == mn {
      GreyRoundTrip(p);
    } else {
      var d := mx - mn;
      var hh := HueSector(p);
      if mx == p.red {
        RedSector(p);
      } else if mx == p.green {
        GreenSector(p);
      } else {
        BlueSector(p);
      }
      ChromaticRoundTrip(p);
    }
  }

  /** Given the sector part, the chromatic case of the round trip. */
  lemma ChromaticRoundTrip(p: Rgba)
    requires Max3(p.red, p.green, p.blue) != Min3(p.red, p.green, p.blue)
    requires var d := Max3(p.red, p.green, p.blue) - Min3(p.red, p.green, p.blue);
      var hh := HueSector(p);
      var mn := Min3(p.red, p.green, p.blue);
      SectorPart(hh, d, Offset(hh, d)) == Channels(p.red - mn, p.green - mn, p.blue - mn)
    ensures var hsl := StandardHsl(p);
      HslChannels(hsl.hue, hsl.saturation, hsl.lightness) == Channels(p.red, p.green, p.blue)
  {
    var hsl := StandardHsl(p);
    var mn := Min3(p.red, p.green, p.blue);
    var d := Max3(p.red, p.green, p.blue) - mn;
    var hh := HueSector(p);
    ChromaFromHsl(p);
    var part := Channels(p.red - mn, p.green - mn, p.blue - mn);
    assert hsl.hue * 6.0 == hh;
    assert Chroma(hsl.saturation, hsl.lightness) == d;
    assert hsl.lightness - d / 2.0 == mn;
    assert SectorPart(hh, d, Offset(hh, d)) == part;
    ChromaticCore(hsl.hue, hsl.saturation, hsl.lightness, hh, d, mn, part);
  }

  lemma ChromaticCore(h: real, s: real, l: real, hh: real, d: real, mn: real, part: Channels)
    requires h * 6.0 == hh && Chroma(s, l) == d && l - d / 2.0 == mn
    requires SectorPart(hh, d, Offset(hh, d)) == part
    ensures HslChannels(h, s, l) == Channels(part.red + mn, part.green + mn, part.blue + mn)
  {
    PartAt(h, Chroma(s, l), hh, d);
    ShiftBack(h, s, l, mn, part);
  }

  lemma PartAt(h: real, c: real, hh: real, d: real)
    requires h * 6.0 == hh && c == d
    ensures SectorPart(h * 6.0, c, Offset(h * 6.0, c)) == SectorPart(hh, d, Offset(hh, d))
  {
  }

  lemma GreyRoundTrip(p: Rgba)
    requires Max3(p.red, p.green, p.blue) == Min3(p.red, p.green, p.blue)
    ensures var hsl := StandardHsl(p);
      HslChannels(hsl.hue, hsl.saturation, hsl.lightness) == Channels(p.red, p.green, p.blue)
  {
    var l := Lightness(p);
    assert StandardHsl(p) == Hsl(0.0, 0.0, l, p.alpha);
    assert p.red == l && p.green == l && p.blue == l;
    GreyChannels(l);
  }

  /** With hue and saturation 0 every channel is the lightness. */
  lemma GreyChannels(l: real)
    ensures HslChannels(0.0, 0.0, l) == Channels(l, l, l)
  {
    GreyChroma(l);
    assert SectorPart(0.0, 0.0, 0.0) == Channels(0.0, 0.0, 0.0);
  }

  lemma GreyChroma(l: real)
    ensures Chroma(0.0, l) == 0.0
    ensures Offset(0.0 * 6.0, Chroma(0.0, l)) == 0.0
  {
    assert Chroma(0.0, l) == 0.0;
    assert Offset(0.0, 0.0) == 0.0;
  }

  /** With saturation 0 the chroma and the offset vanish: every hue gives the grey `l`. */
  lemma ZeroSaturationIsGrey(h: real, l: real)
    ensures HslChannels(h, 0.0, l) == Channels(l, l, l)
  {
    GreyChroma(l);
    var x := Offset(h * 6.0, 0.0);
    assert x == 0.0;
    var part := SectorPart(h * 6.0, 0.0, x);
    assert part == Channels(0.0, 0.0, 0.0);
  }

  /** A hue with `h * 6` outside [0,6) matches no sector: the result is the grey `l - c/2`. */
  lemma OutsideSectorsIsGrey(h: real, s: real, l: real)
    requires h * 6.0 < 0.0 || 6.0 <= h * 6.0
    ensures var m := l - Chroma(s, l) / 2.0;
      HslChannels(h, s, l) == Channels(m, m, m)
  {
    var c := Chroma(s, l);
    assert SectorPart(h * 6.0, c, Offset(h * 6.0, c)) == Channels(0.0, 0.0, 0.0);
  }

  /** What the initialiser recomputes from a chromatic `toHSL` result: chroma `max - min`, sector position. */
  lemma ChromaFromHsl(p: Rgba)
    requires Max3(p.red, p.green, p.blue) != Min3(p.red, p.green, p.blue)
    ensures var hsl := StandardHsl(p);
      var d := Max3(p.red, p.green, p.blue) - Min3(p.red, p.green, p.blue);
      hsl.hue * 6.0 == HueSector(p) &&
      Chroma(hsl.saturation, hsl.lightness) == d &&
      hsl.lightness - d / 2.0 == Min3(p.red, p.green, p.blue)
  {
    var mx := Max3(p.red, p.green, p.blue);
    var mn := Min3(p.red, p.green, p.blue);
    var d := mx - mn;
    var l := (mx + mn) / 2.0;
    var den := 1.0 - Abs(2.0 * l - 1.0);
    assert StandardHsl(p) == Hsl(HueSector(p) / 6.0, d / den, l, p.alpha);
    assert Room(l) == den;
    CancelDivision(d, den);
  }

  /** Shifting the recovered sector part by `min` gives the channels. */
  lemma ShiftBack(h: real, s: real, l: real, mn: real, part: Channels)
    requires l - Chroma(s, l) / 2.0 == mn
    requires SectorPart(h * 6.0, Chroma(s, l), Offset(h * 6.0, Chroma(s, l))) == part
    ensures HslChannels(h, s, l) == Channels(part.red + mn, part.green + mn, part.blue + mn)
  {
  }

  // ---------------------------------------------------------------------------
  // Lightness of the constructed colour
  // ---------------------------------------------------------------------------

  /** Inside [0,6) the sector part has largest channel `c` and smallest 0. */
  lemma SectorExtremes(hh: real, c: real, x: real)
    requires 0.0 <= hh < 6.0 && 0.0 <= x <= c
    ensures var part := SectorPart(hh, c, x);
      Max3(part.red, part.green, part.blue) == c && Min3(part.red, part.green, part.blue) == 0.0
  {
  }

  lemma ShiftExtremes(a: real, b: real, c: real, m: real)
    ensures Max3(a + m, b + m, c + m) == Max3(a, b, c) + m
    ensures Min3(a + m, b + m, c + m) == Min3(a, b, c) + m
  {
  }

  /**
   * A colour built from a hue in [0,1) and saturation and lightness in
   * [0,1] has exactly the requested lightness, and the requested alpha
   * when it is in [0,1].
   */
  lemma HslColorLightness(h: real, s: real, l: real, a: real)
    requires 0.0 <= h < 1.0 && 0.0 <= s <= 1.0 && 0.0 <= l <= 1.0
    ensures HslColor(h, s, l, a).rgba.Some?
    ensures Lightness(HslColor(h, s, l, a).rgba.value) == l
    ensures HslColor(h, s, l, a).rgba.value.alpha == Clamp(a)
  {
    var c := Chroma(s, l);
    var x := Offset(h * 6.0, c);
    var m := l - c / 2.0;
    var part := SectorPart(h * 6.0, c, x);
    var ch := HslChannels(h, s, l);
    ShiftBack(h, s, l, m, part);
    HslChannelsInUnit(h, s, l);
    SectorExtremes(h * 6.0, c, x);
    ShiftExtremes(part.red, part.green, part.blue, m);
    assert HslColor(h, s, l, a).rgba.value == Rgba(ch.red, ch.green, ch.blue, Clamp(a));
  }

  /**
   * `_adjustedLightness(to:)` on a readable colour gives a colour whose
   * lightness is the requested one, with the original alpha.
   */
  lemma AdjustedLightnessSets(c: Color, newLightness: real)
    requires c.rgba.Some? && 0.0 <= newLightness <= 1.0
    ensures AdjustedLightness(c, newLightness).Some?
    ensures Lightness(AdjustedLightness(c, newLightness).value.rgba.value) == newLightness
    ensures AdjustedLightness(c, newLightness).value.rgba.value.alpha == c.rgba.value.alpha
  {
    var hsl := StandardHsl(c.rgba.value);
    HslColorLightness(hsl.hue, hsl.saturation, newLightness, hsl.alpha);
  }

  /** Adjusting a colour to the lightness it already has gives the same colour back. */
  lemma AdjustedLightnessKeeps(c: Color)
    requires c.rgba.Some?
    ensures AdjustedLightness(c, Lightness(c.rgba.value)).Some?
    ensures AdjustedLightness(c, Lightness(c.rgba.value)).value.rgba == c.rgba
  {
    var p := c.rgba.value;
    HslRoundTrip(p);
  }

  // ---------------------------------------------------------------------------
  // Hue 360
  // ---------------------------------------------------------------------------

  /**
   * As written, the integer initialiser documents hues in [0,360], but 360
   * lands on `h * 6 == 6`, outside every sector: for any saturation and
   * lightness it gives the grey `m = l - c/2`, while 0 degrees gives
   * `(c + m, m, m)`, the red end of the hue circle.
   */
  lemma FullTurnHueIsGrey(s: int, l: int, a: real)
    requires 0 <= s <= 100 && 0 <= l <= 100 && 0.0 <= a <= 1.0
    ensures var c := Chroma(s as real / 100.0, l as real / 100.0);
      var m := l as real / 100.0 - c / 2.0;
      HslColorInt(0, s, l, a).rgba == Some(Rgba(c + m, m, m, a)) &&
      HslColorInt(360, s, l, a).rgba == Some(Rgba(m, m, m, a))
  {
    var sr, lr := s as real / 100.0, l as real / 100.0;
    var c := Chroma(sr, lr);
    var m := lr - c / 2.0;
    assert 0 as real / 360.0 == 0.0;
    HueZero(sr, lr);
    IntColorOfChannels(0, s, l, a, Channels(c + m, m, m));
    assert 360 as real / 360.0 == 1.0;
    OutsideSectorsIsGrey(1.0, sr, lr);
    IntColorOfChannels(360, s, l, a, Channels(m, m, m));
  }

  /** At full saturation and half lightness: 0 degrees is red, 360 degrees is black. */
  lemma FullTurnHueIsBlack()
    ensures HslColorInt(0, 100, 50, 1.0).rgba == Some(Rgba(1.0, 0.0, 0.0, 1.0))
    ensures HslColorInt(360, 100, 50, 1.0).rgba == Some(Rgba(0.0, 0.0, 0.0, 1.0))
  {
    FullTurnHueIsGrey(100, 50, 1.0);
    HalfLightChroma();
  }

  /** Channels already in [0,1] pass through the clamping of the integer initialiser unchanged. */
  lemma IntColorOfChannels(h: int, s: int, l: int, a: real, ch: Channels)
    requires HslChannels(h as real / 360.0, s as real / 100.0, l as real / 100.0) == ch
    requires 0.0 <= ch.red <= 1.0 && 0.0 <= ch.green <= 1.0 && 0.0 <= ch.blue <= 1.0 && 0.0 <= a <= 1.0
    ensures HslColorInt(h, s, l, a).rgba == Some(Rgba(ch.red, ch.green, ch.blue, a))
  {
  }

  /** Hue 0 lies in the first sector with offset 0: the channels are `(l + c/2, l - c/2, l - c/2)`. */
  lemma HueZero(s: real, l: real)
    ensures var c := Chroma(s, l);
      HslChannels(0.0, s, l) == Channels(c + (l - c / 2.0), l - c / 2.0, l - c / 2.0)
  {
    var c := Chroma(s, l);
    assert TruncRem2(0.0 * 6.0) == 0.0;
    assert Offset(0.0 * 6.0, c) == 0.0;
  }

  lemma HalfLightChroma()
    ensures Chroma(1.0, 0.5) == 1.0
  {
    assert Room(0.5) == 1.0;
  }

  /** The initialiser with the hue first reduced into [0,1), so that hue 1 (360 degrees) is hue 0. */
  function HslColorCircular(h: real, s: real, l: real, a: real): Color
  {
    HslColor(Mod6(h * 6.0) / 6.0, s, l, a)
  }

  /** `HslColorInt` with the reduction. */
  function HslColorIntCircular(h: int, s: int, l: int, a: real): Color
  {
    HslColorCircular(h as real / 360.0, s as real / 100.0, l as real / 100.0, a)
  }

  /** On the hues the written code handles, [0,1), the corrected initialiser is the written one. */
  lemma CircularAgrees(h: real, s: real, l: real, a: real)
    requires 0.0 <= h < 1.0
    ensures HslColorCircular(h, s, l, a) == HslColor(h, s, l, a)
  {
  }

  /** A full turn of hue changes nothing. */
  lemma CircularFullTurn(s: real, l: real, a: real)
    ensures HslColorCircular(1.0, s, l, a) == HslColorCircular(0.0, s, l, a)
  {
    FullTurnReduces();
    assert Mod6(0.0 * 6.0) == 0.0;
  }

  /** With the reduction, 360 degrees is 0 degrees again, whatever the saturation and lightness. */
  lemma CircularThreeSixtyIsZero(s: int, l: int, a: real)
    ensures HslColorIntCircular(360, s, l, a) == HslColorInt(0, s, l, a)
  {
    assert 360 as real / 360.0 == 1.0 && 0 as real / 360.0 == 0.0;
    CircularFullTurn(s as real / 100.0, l as real / 100.0, a);
    CircularAgrees(0.0, s as real / 100.0, l as real / 100.0, a);
  }

  /** So at full saturation and half lightness 360 degrees is red. */
  lemma CircularThreeSixtyIsRed()
    ensures HslColorIntCircular(360, 100, 50, 1.0).rgba == Some(Rgba(1.0, 0.0, 0.0, 1.0))
  {
    CircularThreeSixtyIsZero(100, 50, 1.0);
    FullTurnHueIsBlack();
  }

  lemma FullTurnReduces()
    ensures Mod6(1.0 * 6.0) == 0.0
  {
    assert (6.0 / 6.0).Floor == 1;
  }

  /** Every hue keeps the requested lightness. */
  lemma CircularLightness(h: real, s: real, l: real, a: real)
    requires 0.0 <= s <= 1.0 && 0.0 <= l <= 1.0
    ensures Lightness(HslColorCircular(h, s, l, a).rgba.value) == l
  {
    HslColorLightness(Mod6(h * 6.0) / 6.0, s, l, a);
  }
}
