/**
 * The platform colour object as the engine sees it: the RGBA accessor
 * (`getRGBA`, which may fail), the `cgColor` colour-space model and its
 * component list, the platform `init(red:green:blue:alpha:)`, the system
 * black and white, and the WCAG relative luminance built on the accessor.
 */
module Carrier {
  import opened Wrappers

  /** A normalised channel value. */
  type Unit = r: real | 0.0 <= r <= 1.0

  /**
   * What the RGBA accessor yields when it succeeds. Every channel is taken to
   * lie in [0,1]; extended-range colours, which the platform allows, are not
   * part of this model.
   */
  datatype Rgba = Rgba(red: Unit, green: Unit, blue: Unit, alpha: Unit)

  /** `cgColor.colorSpace?.model`; `Other` also stands for a missing colour space. */
  datatype Model = Monochrome | RGB | Other

  /**
   * A colour: the result of the RGBA accessor, the colour-space model and
   * `cgColor.components` (absent when the platform gives none).
   */
  datatype Color = Color(rgba: Option<Rgba>, model: Model, components: Option<seq<real>>)

  /** The distance between two reals. */
  function Dist(x: real, y: real): real
  {
    if x >= y then x - y else y - x
  }

  /** The point of [0,1] nearest to `x`. */
  function Clamp(x: real): (u: Unit)
    ensures 0.0 <= x <= 1.0 ==> u == x
    ensures forall y :: 0.0 <= y <= 1.0 ==> Dist(u, x) <= Dist(y, x)
  {
    if x < 0.0 then 0.0 else if x > 1.0 then 1.0 else x
  }

  /**
   * `init(red:green:blue:alpha:)`: an RGB colour whose component list holds
   * the channels its accessor reads. An argument in [0,1] reads back as
   * itself; the model moves any other to the nearest point of [0,1].
   */
  function Make(r: real, g: real, b: real, a: real): (c: Color)
    ensures c.model == RGB && c.rgba.Some?
    ensures c.components == Some([c.rgba.value.red, c.rgba.value.green, c.rgba.value.blue, c.rgba.value.alpha])
    ensures c.rgba.value == Rgba(Clamp(r), Clamp(g), Clamp(b), Clamp(a))
  {
    Color(Some(Rgba(Clamp(r), Clamp(g), Clamp(b), Clamp(a))), RGB,
          Some([Clamp(r), Clamp(g), Clamp(b), Clamp(a)]))
  }

  /** The system black: a grey colour space with components [gray, alpha]. */
  const Black: Color := Color(Some(Rgba(0.0, 0.0, 0.0, 1.0)), Monochrome, Some([0.0, 1.0]))

  /** The system white. */
  const White: Color := Color(Some(Rgba(1.0, 1.0, 1.0, 1.0)), Monochrome, Some([1.0, 1.0]))

  /** The linearisation threshold of the sRGB transfer function. */
  const Knee: real := 0.03928

  /**
   * What is known of `v -> pow((v + 0.055) / 1.055, 2.4)` where the
   * luminance uses it, on (Knee, 1]: its value lies in [0,1] and it maps
   * 1 to 1.
   */
  ghost predicate IsGammaCurve(f: real -> real)
  {
    f(1.0) == 1.0 && forall v :: Knee < v <= 1.0 ==> 0.0 <= f(v) <= 1.0
  }

  /** The floating-point power curve, left abstract. */
  type Curve = f: real -> real | IsGammaCurve(f) witness (v: real) => v

  /** One channel linearised: `v / 12.92` up to the knee, the power curve above it. */
  function Linear(v: Unit, curve: Curve): (y: real)
    ensures 0.0 <= y <= 1.0
    ensures v == 0.0 ==> y == 0.0
    ensures v == 1.0 ==> y == 1.0
  {
    if v <= Knee then v / 12.92 else curve(v)
  }

  /**
   * The relative luminance `0.2126 R + 0.7152 G + 0.0722 B` of the
   * linearised channels; 1 when the accessor fails.
   */
  function Luminance(c: Color, curve: Curve): (l: real)
    ensures 0.0 <= l <= 1.0
    ensures c.rgba.None? ==> l == 1.0
  {
    match c.rgba
    case None => 1.0
    case Some(p) =>
      0.2126 * Linear(p.red, curve) + 0.7152 * Linear(p.green, curve) + 0.0722 * Linear(p.blue, curve)
  }

  /** `Int(x)`: conversion to an integer, truncating toward zero. */
  function Trunc(x: real): (n: int)
    ensures 0.0 <= x ==> 0 <= n && n as real <= x < n as real + 1.0
    ensures x < 0.0 ==> n <= 0 && n as real - 1.0 < x <= n as real
  {
    if x >= 0.0 then x.Floor else -((-x).Floor)
  }

  /** `Int(v * 255.0)`: a component on the 0-255 scale. */
  function ChannelByte(v: real): (n: int)
    ensures 0.0 <= v <= 1.0 ==> 0 <= n <= 255
    ensures v == 1.0 ==> n == 255
  {
    Trunc(v * 255.0)
  }

  /** A byte stored as `byte / 255` reads back as the same byte. */
  lemma ChannelByteOfByte(b: int)
    requires 0 <= b < 256
    ensures ChannelByte(b as real / 255.0) == b
  {
    assert (b as real / 255.0) * 255.0 == b as real;
  }

  /** Black has luminance 0 and white luminance 1, whatever the curve. */
  lemma BlackAndWhiteLuminance(curve: Curve)
    ensures Luminance(Black, curve) == 0.0
    ensures Luminance(White, curve) == 1.0
  {
  }
}
