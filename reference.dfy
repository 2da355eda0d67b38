/**
 * The textbook RGB to HSL conversion, stated once: both revisions of
 * `toHSL` are proved to compute it. Hue is the 60-degree sector formula
 * reduced modulo 6 and divided by 6.
 */
module Reference {
  import opened Wrappers
  import opened Carrier

  /** An HSL tuple `(hue, saturation, lightness, alpha)`. */
  datatype Hsl = Hsl(hue: real, saturation: real, lightness: real, alpha: real)

  function Abs(x: real): (y: real)
    ensures y >= 0.0 && (y == x || y == -x)
  {
    if x < 0.0 then -x else x
  }

  /** `max(r, g, b)`. */
  function Max3(a: real, b: real, c: real): (m: real)
    ensures m >= a && m >= b && m >= c && (m == a || m == b || m == c)
  {
    if a >= b && a >= c then a else if b >= c then b else c
  }

  /** `min(r, g, b)`. */
  function Min3(a: real, b: real, c: real): (m: real)
    ensures m <= a && m <= b && m <= c && (m == a || m == b || m == c)
  {
    if a <= b && a <= c then a else if b <= c then b else c
  }

  /** The floored remainder of `x` by 6, always in [0,6). */
  function Mod6(x: real): (r: real)
    ensures 0.0 <= r < 6.0
    ensures 0.0 <= x < 6.0 ==> r == x
    ensures -6.0 <= x < 0.0 ==> r == x + 6.0
  {
    x - 6.0 * (x / 6.0).Floor as real
  }

  /** A quotient whose numerator is no larger than its positive denominator in size. */
  lemma QuotientInUnit(y: real, d: real)
    requires d > 0.0 && -d <= y <= d
    ensures -1.0 <= y / d <= 1.0
  {
  }

  /** Lightness `(max + min) / 2`. */
  function Lightness(p: Rgba): (l: real)
    ensures 0.0 <= l <= 1.0
  {
    (Max3(p.red, p.green, p.blue) + Min3(p.red, p.green, p.blue)) / 2.0
  }

  /** The sector position of the hue, in [0,6): which channel is largest selects the sector. */
  function HueSector(p: Rgba): (x: real)
    requires Max3(p.red, p.green, p.blue) != Min3(p.red, p.green, p.blue)
    ensures 0.0 <= x < 6.0
  {
    var r, g, b := p.red, p.green, p.blue;
    var mx := Max3(r, g, b);
    var d := mx - Min3(r, g, b);
    QuotientInUnit(g - b, d);
    QuotientInUnit(b - r, d);
    QuotientInUnit(r - g, d);
    if mx == r then Mod6((g - b) / d)
    else if mx == g then (b - r) / d + 2.0
    else (r - g) / d + 4.0
  }

  /**
   * The HSL of an RGBA value: lightness `(max + min) / 2`; hue and
   * saturation 0 for a grey; otherwise saturation `delta / (1 - |2l - 1|)`
   * and hue the sector position divided by 6. Every component is in range.
   */
  function StandardHsl(p: Rgba): (hsl: Hsl)
    ensures 0.0 <= hsl.hue < 1.0
    ensures 0.0 <= hsl.saturation <= 1.0
    ensures hsl.lightness == Lightness(p) && hsl.alpha == p.alpha
    ensures Max3(p.red, p.green, p.blue) == Min3(p.red, p.green, p.blue) <==>
            hsl.saturation == 0.0
  {
    var mx := Max3(p.red, p.green, p.blue);
    var mn := Min3(p.red, p.green, p.blue);
    var d := mx - mn;
    var l := (mx + mn) / 2.0;
    if d == 0.0 then Hsl(0.0, 0.0, l, p.alpha)
    else
      var den := 1.0 - Abs(2.0 * l - 1.0);
      assert 0.0 < d <= den;
      QuotientInUnit(d, den);
      Hsl(HueSector(p) / 6.0, d / den, l, p.alpha)
  }

  /** `toHSL()` on a colour: absent exactly when the RGBA accessor fails. */
  function HslOf(c: Color): (r: Option<Hsl>)
    ensures r.None? <==> c.rgba.None?
    ensures r.Some? ==> r.value == StandardHsl(c.rgba.value)
  {
    match c.rgba
    case None => None
    case Some(p) => Some(StandardHsl(p))
  }
}
