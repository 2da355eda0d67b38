/**
 * Contrast and text colour in the current revision: `contrastRatio(with:)`,
 * `isDark`, `_findBest`, `_bestContrast`, `_bestLuminance` and
 * `bestTextColor`. Luminance is `Carrier.Luminance` with the power curve
 * passed in.
 */
module VLColorText {
  import opened Wrappers
  import opened Carrier
  import opened Selection
  import opened Reference
  import VLColorHsl

  /** WCAG 2.1 success criterion 1.4.6, normal text (`WCAG.AAA_small`). */
  const AaaSmall: real := 7.0
  /** WCAG 2.1 success criterion 1.4.6, large text (`WCAG.AAA_large`). */
  const AaaLarge: real := 4.5
  /** The luminance gap the last two stages of `bestTextColor` ask for. */
  const LuminanceGap: real := 0.5

  function Max(a: real, b: real): (m: real)
    ensures m >= a && m >= b && (m == a || m == b)
  {
    if a >= b then a else b
  }

  function Min(a: real, b: real): (m: real)
    ensures m <= a && m <= b && (m == a || m == b)
  {
    if a <= b then a else b
  }

  // ---------------------------------------------------------------------------
  // Contrast ratio
  // ---------------------------------------------------------------------------

  /**
   * `contrastRatio(with:)`: `(max + 0.05) / (min + 0.05)` of the two
   * luminances; between 1 (equal luminances) and 21 (black against white).
   */
  function ContrastRatio(c: Color, other: Color, curve: Curve): (r: real)
    ensures 1.0 <= r <= 21.0
    ensures r == 1.0 <==> Luminance(c, curve) == Luminance(other, curve)
  {
    Ratio(Luminance(c, curve), Luminance(other, curve))
  }

  /** The ratio of two luminances, larger over smaller, each raised by 0.05. */
  function Ratio(l1: real, l2: real): (r: real)
    requires 0.0 <= l1 <= 1.0 && 0.0 <= l2 <= 1.0
    ensures 1.0 <= r <= 21.0
    ensures r == 1.0 <==> l1 == l2
  {
    RatioBounds(Max(l1, l2), Min(l1, l2));
    (Max(l1, l2) + 0.05) / (Min(l1, l2) + 0.05)
  }

  lemma RatioBounds(hi: real, lo: real)
    requires 0.0 <= lo <= hi <= 1.0
    ensures 1.0 <= (hi + 0.05) / (lo + 0.05) <= 21.0
    ensures (hi + 0.05) / (lo + 0.05) == 1.0 <==> hi == lo
  {
    var n, d := hi + 0.05, lo + 0.05;
    var q := n / d;
    assert q * d == n;
    ScaleOrder(q, 1.0, d);
    ScaleOrder(21.0, q, d);
  }

  /** Multiplying by a positive factor keeps the order of two reals. */
  lemma ScaleOrder(a: real, b: real, d: real)
    requires d > 0.0
    ensures a < b <==> a * d < b * d
    ensures a == b <==> a * d == b * d
  {
    if a < b {
      assert (b - a) * d > 0.0;
    } else if a > b {
      assert (a - b) * d > 0.0;
    }
  }

  /** The contrast ratio does not depend on the order of its two colours. */
  lemma ContrastSymmetric(c: Color, other: Color, curve: Curve)
    ensures ContrastRatio(c, other, curve) == ContrastRatio(other, c, curve)
  {
  }

  /** Black against white is the largest ratio, 21. */
  lemma BlackWhiteContrast(curve: Curve)
    ensures ContrastRatio(Black, White, curve) == 21.0
    ensures ContrastRatio(White, Black, curve) == 21.0
  {
    BlackAndWhiteLuminance(curve);
  }

  /** Against black the ratio depends on the luminance `L` alone: `20 (L + 0.05)`. */
  lemma ContrastWithBlack(c: Color, curve: Curve)
    ensures ContrastRatio(c, Black, curve) == 20.0 * (Luminance(c, curve) + 0.05)
  {
    ExtremeLuminances(c, curve);
    RatioWithExtremes(Luminance(c, curve));
  }

  /** Against white it is `1.05 / (L + 0.05)`. */
  lemma ContrastWithWhite(c: Color, curve: Curve)
    ensures ContrastRatio(c, White, curve) == 1.05 / (Luminance(c, curve) + 0.05)
  {
    ExtremeLuminances(c, curve);
    WhiteQuotient(Luminance(c, curve));
  }

  lemma WhiteQuotient(l: real)
    requires 0.0 <= l <= 1.0
    ensures Ratio(l, 1.0) == 1.05 / (l + 0.05)
  {
  }

  lemma ExtremeLuminances(c: Color, curve: Curve)
    ensures ContrastRatio(c, Black, curve) == Ratio(Luminance(c, curve), 0.0)
    ensures ContrastRatio(c, White, curve) == Ratio(Luminance(c, curve), 1.0)
  {
    BlackAndWhiteLuminance(curve);
  }

  lemma RatioWithExtremes(l: real)
    requires 0.0 <= l <= 1.0
    ensures Ratio(l, 0.0) == 20.0 * (l + 0.05)
    ensures Ratio(l, 1.0) * (l + 0.05) == 1.05
  {
    assert Ratio(l, 0.0) == (l + 0.05) / 0.05;
    assert Ratio(l, 1.0) == 1.05 / (l + 0.05);
  }

  // ---------------------------------------------------------------------------
  // Darkness
  // ---------------------------------------------------------------------------

  /**
   * `isDark`: not dark when black text reaches 7:1; otherwise dark when
   * white text does; otherwise dark unless black text has strictly more
   * contrast.
   */
  function IsDark(c: Color, curve: Curve): bool
  {
    DarkCascade(ContrastRatio(c, Black, curve), ContrastRatio(c, White, curve))
  }

  /** The three tests of `isDark` on the contrast with black and the contrast with white. */
  function DarkCascade(withBlack: real, withWhite: real): bool
  {
    if withBlack >= AaaSmall then false
    else if withWhite >= AaaSmall then true
    else !(withBlack > withWhite)
  }

  /**
   * The cascade decides exactly "white text has at least the contrast of
   * black text": the two 7:1 shortcuts never disagree with that comparison.
   */
  lemma IsDarkIffWhiteWins(c: Color, curve: Curve)
    ensures IsDark(c, curve) <==> ContrastRatio(c, White, curve) >= ContrastRatio(c, Black, curve)
  {
    ExtremeLuminances(c, curve);
    CascadeIffWhiteWins(Luminance(c, curve));
  }

  /**
   * For a luminance `l`, with `b = 20 (l + 0.05)` against black and
   * `w (l + 0.05) = 1.05` against white: `b >= 7` forces `w < b` and
   * `w >= 7` forces `w > b`, so the cascade is the comparison `w >= b`.
   */
  lemma CascadeIffWhiteWins(l: real)
    requires 0.0 <= l <= 1.0
    ensures DarkCascade(Ratio(l, 0.0), Ratio(l, 1.0)) <==> Ratio(l, 1.0) >= Ratio(l, 0.0)
  {
    var x, b, w := l + 0.05, Ratio(l, 0.0), Ratio(l, 1.0);
    RatioWithExtremes(l);
    if b >= 7.0 {
      ScaleOrder(3.0, w, x);
    }
    if w >= 7.0 {
      ScaleOrder(7.0, w, x);
    }
  }

  /**
   * The luminances at which white text contrasts at least as well as black:
   * `(l + 0.05)^2 <= 0.0525`, that is `l` up to about 0.179.
   */
  predicate BelowCrossing(l: real)
  {
    (l + 0.05) * (l + 0.05) <= 0.0525
  }

  /** In terms of the luminance alone: dark exactly below the crossing point. */
  lemma IsDarkByLuminance(c: Color, curve: Curve)
    ensures IsDark(c, curve) <==> BelowCrossing(Luminance(c, curve))
  {
    ExtremeLuminances(c, curve);
    CascadeByLevel(Luminance(c, curve));
  }

  /** The cascade on the two ratios of a luminance `l` is the crossing test on `l`. */
  lemma CascadeByLevel(l: real)
    requires 0.0 <= l <= 1.0
    ensures DarkCascade(Ratio(l, 0.0), Ratio(l, 1.0)) <==> BelowCrossing(l)
  {
    CascadeIffWhiteWins(l);
    CrossingPoint(l);
  }

  /** Against white the ratio is at least the one against black exactly below the crossing point. */
  lemma CrossingPoint(l: real)
    requires 0.0 <= l <= 1.0
    ensures Ratio(l, 1.0) >= Ratio(l, 0.0) <==> BelowCrossing(l)
  {
    RatioWithExtremes(l);
    CrossingAlgebra(l + 0.05, Ratio(l, 0.0), Ratio(l, 1.0));
  }

  /** With `b = 20 x` and `w x = 1.05` for a positive `x`: `w >= b` exactly when `x^2 <= 0.0525`. */
  lemma CrossingAlgebra(x: real, b: real, w: real)
    requires x > 0.0 && b == 20.0 * x && w * x == 1.05
    ensures w >= b <==> x * x <= 0.0525
  {
    ScaleOrder(w, b, x);
    assert b * x == 20.0 * (x * x);
  }

  /** Equal contrast with black and white counts as dark. */
  lemma EqualContrastIsDark(c: Color, curve: Curve)
    requires ContrastRatio(c, Black, curve) == ContrastRatio(c, White, curve)
    ensures IsDark(c, curve)
  {
    IsDarkIffWhiteWins(c, curve);
  }

  /** Black is dark and white is not; a colour without RGBA reads as luminance 1, so it is not dark. */
  lemma DarknessOfExtremes(c: Color, curve: Curve)
    requires c.rgba.None?
    ensures IsDark(Black, curve)
    ensures !IsDark(White, curve)
    ensures !IsDark(c, curve)
  {
    BlackAndWhiteLuminance(curve);
    IsDarkByLuminance(Black, curve);
    IsDarkByLuminance(White, curve);
    IsDarkByLuminance(c, curve);
  }

  // ---------------------------------------------------------------------------
  // Running-maximum selection
  // ---------------------------------------------------------------------------

  /**
   * `_findBest(threshold:predicate:colors:)`: one pass over the candidates,
   * raising `currentThreshold` to each metric that reaches it.
   */
  method FindBest<T>(threshold: real, metric: T -> real, colors: seq<T>) returns (result: Option<T>)
    ensures result == Best(threshold, metric, colors)
  {
    result := None;
    var currentThreshold := threshold;
    for i := 0 to |colors|
      invariant result == Best(threshold, metric, colors[..i])
      invariant currentThreshold == Bar(threshold, metric, result)
    {
      assert colors[..i + 1][..i] == colors[..i];
      var value := metric(colors[i]);
      if value >= currentThreshold {
        currentThreshold := value;
        result := Some(colors[i]);
      }
    }
    assert colors[..|colors|] == colors;
  }

  /**
   * `_bestContrast(threshold:colors:)`: the candidate with the largest
   * contrast against `c`, among those reaching the threshold.
   */
  function BestContrast(c: Color, threshold: real, colors: seq<Color>, curve: Curve): (r: Option<Color>)
    ensures r.None? <==> forall i :: 0 <= i < |colors| ==> ContrastRatio(c, colors[i], curve) < threshold
    ensures r.Some? ==>
              r.value in colors && ContrastRatio(c, r.value, curve) >= threshold &&
              forall i :: 0 <= i < |colors| ==> ContrastRatio(c, colors[i], curve) <= ContrastRatio(c, r.value, curve)
  {
    BestIsMaximal(threshold, ContrastTo(c, curve), colors);
    Best(threshold, ContrastTo(c, curve), colors)
  }

  /** The metric `_bestContrast` hands to `_findBest`. */
  function ContrastTo(c: Color, curve: Curve): Color -> real
  {
    (x: Color) => ContrastRatio(c, x, curve)
  }

  /** The luminance gap between a candidate and the background. */
  function Gap(c: Color, x: Color, curve: Curve): (g: real)
    ensures 0.0 <= g <= 1.0
  {
    Abs(Luminance(x, curve) - Luminance(c, curve))
  }

  /**
   * `_bestLuminance(threshold:colors:)`: the candidate whose luminance is
   * farthest from `c`'s, among those at least the threshold away.
   */
  function BestLuminance(c: Color, threshold: real, colors: seq<Color>, curve: Curve): (r: Option<Color>)
    ensures r.None? <==> forall i :: 0 <= i < |colors| ==> Gap(c, colors[i], curve) < threshold
    ensures r.Some? ==>
              r.value in colors && Gap(c, r.value, curve) >= threshold &&
              forall i :: 0 <= i < |colors| ==> Gap(c, colors[i], curve) <= Gap(c, r.value, curve)
  {
    BestIsMaximal(threshold, GapTo(c, curve), colors);
    Best(threshold, GapTo(c, curve), colors)
  }

  /** The metric `_bestLuminance` hands to `_findBest`. */
  function GapTo(c: Color, curve: Curve): Color -> real
  {
    (x: Color) => Gap(c, x, curve)
  }

  // ---------------------------------------------------------------------------
  // Text colour
  // ---------------------------------------------------------------------------

  /** `[a, b].compactMap { $0 }`: the present values, in order. */
  function Present(a: Option<Color>, b: Option<Color>): (xs: seq<Color>)
    ensures forall x :: x in xs <==> Some(x) == a || Some(x) == b
    ensures |xs| <= 2
  {
    (if a.Some? then [a.value] else []) + (if b.Some? then [b.value] else [])
  }

  /** The two lightness variants of `c` that are tried as text colours. */
  function Variants(c: Color, light: real, dark: real): (xs: seq<Color>)
    ensures c.rgba.None? ==> xs == []
    ensures c.rgba.Some? ==> |xs| == 2
  {
    Present(VLColorHsl.AdjustedLightness(c, light), VLColorHsl.AdjustedLightness(c, dark))
  }

  /**
   * The `??` chain of `bestTextColor` over given variants: contrast 7:1,
   * then 4.5:1, then a luminance gap of 0.5 among the variants, then the
   * same gap between white and black, then black.
   */
  function TextColor(c: Color, variants: seq<Color>, curve: Curve): Color
  {
    var first := BestContrast(c, AaaSmall, variants, curve);
    var second := BestContrast(c, AaaLarge, variants, curve);
    var third := BestLuminance(c, LuminanceGap, variants, curve);
    var fourth := BestLuminance(c, LuminanceGap, [White, Black], curve);
    if first.Some? then first.value
    else if second.Some? then second.value
    else if third.Some? then third.value
    else if fourth.Some? then fourth.value
    else Black
  }

  /** `bestTextColor`: the cascade over the lightness-0.98 and lightness-0.25 variants. */
  function BestTextColor(c: Color, curve: Curve): Color
  {
    TextColor(c, Variants(c, 0.98, 0.25), curve)
  }

  /**
   * Between white and black, one is always at least 0.5 away in luminance,
   * so the fourth stage always selects and the final black is never reached.
   */
  lemma FourthStageSelects(c: Color, curve: Curve)
    ensures BestLuminance(c, LuminanceGap, [White, Black], curve).Some?
  {
    BlackAndWhiteLuminance(curve);
    var l := Luminance(c, curve);
    var candidates := [White, Black];
    if l >= 0.5 {
      assert Gap(c, candidates[1], curve) >= 0.5;
    } else {
      assert Gap(c, candidates[0], curve) >= 0.5;
    }
  }

  /**
   * The text colour is one of the variants, white or black; it has a
   * contrast of at least 4.5 with the background, or a luminance at least
   * 0.5 away from it.
   */
  lemma TextColorGuarantee(c: Color, variants: seq<Color>, curve: Curve)
    ensures var t := TextColor(c, variants, curve);
      (t in variants || t == White || t == Black) &&
      (ContrastRatio(c, t, curve) >= AaaLarge || Gap(c, t, curve) >= LuminanceGap)
  {
    var first := BestContrast(c, AaaSmall, variants, curve);
    var second := BestContrast(c, AaaLarge, variants, curve);
    var third := BestLuminance(c, LuminanceGap, variants, curve);
    var fourth := BestLuminance(c, LuminanceGap, [White, Black], curve);
    if first.Some? {
      assert TextColor(c, variants, curve) == first.value;
    } else if second.Some? {
      assert TextColor(c, variants, curve) == second.value;
    } else if third.Some? {
      assert TextColor(c, variants, curve) == third.value;
    } else {
      FourthStageSelects(c, curve);
      assert TextColor(c, variants, curve) == fourth.value;
      assert fourth.value in [White, Black];
    }
  }

  /**
   * When some variant reaches 7:1, the text colour is the variant with the
   * most contrast (the later one on a tie); the white-or-black stages are
   * not consulted.
   */
  lemma EnhancedContrastFirst(c: Color, variants: seq<Color>, curve: Curve)
    requires exists i :: 0 <= i < |variants| && ContrastRatio(c, variants[i], curve) >= AaaSmall
    ensures var t := TextColor(c, variants, curve);
      t in variants && ContrastRatio(c, t, curve) >= AaaSmall &&
      forall i :: 0 <= i < |variants| ==> ContrastRatio(c, variants[i], curve) <= ContrastRatio(c, t, curve)
  {
  }

  /**
   * When no variant reaches 4.5:1 nor a luminance gap of 0.5 (in
   * particular when there are no variants), the text colour is white or
   * black, whichever is farther in luminance; black on a tie.
   */
  lemma WhiteOrBlackLast(c: Color, variants: seq<Color>, curve: Curve)
    requires forall i :: 0 <= i < |variants| ==> ContrastRatio(c, variants[i], curve) < AaaLarge
    requires forall i :: 0 <= i < |variants| ==> Gap(c, variants[i], curve) < LuminanceGap
    ensures TextColor(c, variants, curve) ==
            if Luminance(c, curve) < 0.5 then White else Black
  {
    BlackAndWhiteLuminance(curve);
    BestOfTwo(LuminanceGap, GapTo(c, curve), White, Black);
    FourthStageSelects(c, curve);
  }

  /** A colour without RGBA has no variants and luminance 1: its text colour is black. */
  lemma UnreadableGetsBlack(c: Color, curve: Curve)
    requires c.rgba.None?
    ensures BestTextColor(c, curve) == Black
  {
    WhiteOrBlackLast(c, Variants(c, 0.98, 0.25), curve);
  }

  /**
   * On a white background the text colour is the grey variant at
   * lightness 0.25, not black, whenever the power curve puts 0.25 at a
   * luminance of at most 0.1 (it is about 0.051) and below 0.98's.
   */
  lemma WhiteBackgroundGetsGrey(curve: Curve)
    requires curve(0.25) <= 0.1 && curve(0.25) <= curve(0.98)
    ensures BestTextColor(White, curve) == Make(0.25, 0.25, 0.25, 1.0)
  {
    WhiteBackgroundText(0.98, 0.25, curve);
  }

  /**
   * On white, with variants at lightness `light` and `dark` above the knee:
   * when the dark grey's luminance is at most 0.1 and at most the light
   * grey's, the dark grey is the text colour.
   */
  lemma WhiteBackgroundText(light: real, dark: real, curve: Curve)
    requires Knee < light <= 1.0 && Knee < dark <= 1.0
    requires curve(dark) <= 0.1 && curve(dark) <= curve(light)
    ensures TextColor(White, Variants(White, light, dark), curve) == Make(dark, dark, dark, 1.0)
  {
    var lightGrey := Make(light, light, light, 1.0);
    var darkGrey := Make(dark, dark, dark, 1.0);
    WhiteVariants(light, dark);
    GreyContrastWithWhite(light, curve);
    GreyContrastWithWhite(dark, curve);
    WhiteRatioOrder(curve(dark), curve(light));
    SecondOfTwoReaches(White, lightGrey, darkGrey, curve);
    FirstStageDecides(White, [lightGrey, darkGrey], darkGrey, curve);
  }

  /** White is a grey of lightness 1, so its variants are the two opaque greys. */
  lemma WhiteVariants(light: real, dark: real)
    requires 0.0 <= light <= 1.0 && 0.0 <= dark <= 1.0
    ensures Variants(White, light, dark) == [Make(light, light, light, 1.0), Make(dark, dark, dark, 1.0)]
  {
    WhiteHsl();
    GreyVariant(White, light);
    GreyVariant(White, dark);
  }

  /** Of two candidates, the second is kept at 7:1 when it reaches 7:1 and at least the first's ratio. */
  lemma SecondOfTwoReaches(c: Color, x: Color, y: Color, curve: Curve)
    requires ContrastRatio(c, y, curve) >= AaaSmall
    requires ContrastRatio(c, y, curve) >= ContrastRatio(c, x, curve)
    ensures BestContrast(c, AaaSmall, [x, y], curve) == Some(y)
  {
    BestOfTwo(AaaSmall, ContrastTo(c, curve), x, y);
  }

  /** When the 7:1 stage selects, its choice is the text colour. */
  lemma FirstStageDecides(c: Color, variants: seq<Color>, t: Color, curve: Curve)
    requires BestContrast(c, AaaSmall, variants, curve) == Some(t)
    ensures TextColor(c, variants, curve) == t
  {
  }

  /** Against white, an opaque grey `v` above the knee has the ratio of the luminance `curve(v)`. */
  lemma GreyContrastWithWhite(v: real, curve: Curve)
    requires Knee < v <= 1.0
    ensures 0.0 <= curve(v) <= 1.0
    ensures ContrastRatio(White, Make(v, v, v, 1.0), curve) == Ratio(curve(v), 1.0)
  {
    BlackAndWhiteLuminance(curve);
    assert Luminance(Make(v, v, v, 1.0), curve) == curve(v);
  }

  /**
   * Against white, a lower luminance gives a higher ratio, and a luminance
   * of at most 0.1 reaches 7:1.
   */
  lemma WhiteRatioOrder(lo: real, hi: real)
    requires 0.0 <= lo <= hi <= 1.0
    ensures Ratio(hi, 1.0) <= Ratio(lo, 1.0)
    ensures lo <= 0.1 ==> Ratio(lo, 1.0) >= 7.0
  {
    RatioWithExtremes(lo);
    RatioWithExtremes(hi);
    InverseOrder(Ratio(hi, 1.0), Ratio(lo, 1.0), lo + 0.05, hi + 0.05);
    if lo <= 0.1 {
      InverseReaches(Ratio(lo, 1.0), lo + 0.05);
    }
  }

  /** Of two values with `p xh = q xl = 1.05`, the one paired with the larger factor is the smaller. */
  lemma InverseOrder(p: real, q: real, xl: real, xh: real)
    requires 0.0 < xl <= xh && p * xh == 1.05 && q * xl == 1.05
    ensures p <= q
  {
    if p > q {
      ScaleOrder(q, p, xh);
      ScaleOrder(0.0, q, xl);
      ScaleOrder(xl, xh, q);
      assert false;
    }
  }

  /** `q xl = 1.05` with `xl` at most 0.15 puts `q` at 7 or more. */
  lemma InverseReaches(q: real, xl: real)
    requires 0.0 < xl <= 0.15 && q * xl == 1.05
    ensures q >= 7.0
  {
    ScaleOrder(q, 7.0, xl);
  }

  /** White is the grey of lightness 1 with hue and saturation 0. */
  lemma WhiteHsl()
    ensures HslOf(White) == Some(Hsl(0.0, 0.0, 1.0, 1.0))
  {
    var p := White.rgba.value;
    assert Max3(p.red, p.green, p.blue) == Min3(p.red, p.green, p.blue) == 1.0;
  }

  /** Adjusting a colour of hue and saturation 0 gives the plain grey of the new lightness. */
  lemma GreyVariant(c: Color, l: real)
    requires HslOf(c) == Some(Hsl(0.0, 0.0, 1.0, 1.0))
    ensures VLColorHsl.AdjustedLightness(c, l) == Some(Make(l, l, l, 1.0))
  {
    VLColorHsl.GreyChannels(l);
  }
}
