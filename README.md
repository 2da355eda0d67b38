# VLColorKit colour engine, modelled in Dafny

VLColorKit is a Swift extension of the platform colour type (`UIColor`,
`NSColor`). This project models the colour engine of three revisions of
that extension:

- **Current revision** (`Sources/VLColorKit/VLColor.swift`):
  - the hex initialiser `init?(hex:alphaFirst:)`, with 3-, 6- and 8-digit forms;
  - the HSL initialisers, on reals and on degrees/percent;
  - `toHSL()`, `toHex(prefixed:includeAlpha:fallback:)`;
  - the WCAG relative `luminance`, `contrastRatio(with:)` and `isDark`;
  - the `bestTextColor` cascade and its helpers `_adjustedLightness`,
    `_bestContrast`, `_bestLuminance` and `_findBest`.
- **Legacy revision** (`Sources/VLColorKit/UIColor.swift`). Its hex parser
  has no shorthand, no `alphaFirst` and an unmasked red byte. Its `toHSL()`
  splits saturation on `l < 0.5`. Its text colour uses variants at
  lightness 0.9 and 0.1. Its other members are the current revision's line
  for line, and are modelled once.
- **Oldest revision** (`Sources/UIColor.swift`):
  - the same hex parser as the legacy revision;
  - `isDarkColor`, a weighted sum of the raw channels;
  - `contrastingColor`;
  - an optional-returning `toHex` that indexes `components[0..2]` unchecked.

The platform colour object is a value (`Carrier.Color`). It holds:

- the result of the RGBA accessor (`getRGBA` / `getRed`), which may fail;
- the `cgColor` colour-space model;
- the component list.

`init(red:green:blue:alpha:)` is `Carrier.Make`. The model clamps its
arguments to [0,1]; the source does not, and the platform keeps values
outside that range (see "Left out"). The system black and white are grey
(monochrome) colours with two components.

The modules follow the program:

| module | what it models |
|---|---|
| `HexText` | Character classes, trimming, upper-casing, `Scanner.scanHexInt64` and `%02X`. |
| `Carrier` | The platform colour and luminance. |
| `Reference` | The textbook RGB→HSL conversion. Both `toHSL` revisions are proved to compute it. |
| `Selection` | The running-maximum specification of `_findBest`. |
| `VLColorHex`, `VLColorHsl`, `VLColorText` | The current revision. |
| `KitUIColor` | The legacy revision. |
| `OldUIColor` | The oldest revision. |

Some source code is imperative: it changes local variables step by step, or
loops. That code is written as methods, each proved equal to the
specification function beside it:

- `InitHex`, `ToHSL` and `ToHex`;
- `FindBest`, with its loop;
- `LegacyInitHex` and `LegacyToHSL`;
- `IsDarkColor` and `OldToHex`.

Where the code and its documentation disagree, the model follows the code:

- **Equal contrast counts as dark.** `isDark` returns `true` when the
  contrast with black equals the contrast with white, because its last test
  is `contrastWithBlack > contrastWithWhite ? false : true`. See
  `EqualContrastIsDark`.
- **White gets the grey variant, not black.** On a white background,
  `bestTextColor` returns the lightness-0.25 grey variant (lightness 0.1 in
  the legacy revision). It does not return black: that variant already
  reaches 7:1 in the first stage. This rests on the value of the power
  curve at 0.25: `pow((0.25 + 0.055) / 1.055, 2.4)` is about 0.051, within
  the bound of 0.1 that `WhiteBackgroundGetsGrey` takes as its hypothesis
  (about 0.010 at 0.1 for `LegacyWhiteBackgroundGetsGrey`).

## Model

| member | source | states |
|---|---|---|
| HexText.UpperChar | Sources/VLColorKit/VLColor.swift:117 | Upper-casing keeps hex digits hex, with the same value. It keeps non-digits non-digits, whitespace whitespace and `#` as `#`. |
| HexText.Uppercased | Sources/VLColorKit/VLColor.swift:117 | `uppercased()` keeps the length and upper-cases each character by `UpperChar`. A string of hex digits becomes a string of upper-case hex digits that reads to the same value. |
| HexText.UpperDigits | Sources/VLColorKit/VLColor.swift:117-131 | Upper-casing a digit string, character by character, gives upper-case digits with the same value (by induction). |
| HexText.TrimStart | Sources/VLColorKit/VLColor.swift:117 | The result is a suffix of `s`. Every dropped character is whitespace, and the result does not start with whitespace. |
| HexText.TrimEnd | Sources/VLColorKit/VLColor.swift:117 | The result is a prefix of `s`. Every dropped character is whitespace, and the result does not end with whitespace. |
| HexText.Trim | Sources/VLColorKit/VLColor.swift:117 | The result is the slice `s[k..k+|t|]`: everything before `k` and after `k+|t|` is whitespace, and the result neither starts nor ends with whitespace. That is, `s` with the whitespace at both ends removed. |
| HexText.TrimUnchanged | Sources/VLColorKit/VLColor.swift:117 | A string without whitespace at either end is left unchanged by trimming. |
| HexText.HexRun | Sources/VLColorKit/VLColor.swift:128-131 | The run the scanner reads is a prefix made of hex digits. It is maximal: the next character is not a digit. |
| HexText.HexValue | Sources/VLColorKit/VLColor.swift:128-131 | The base-16 value of a digit string, most significant digit first. Its laws are `HexValueAppend` and `HexValueBound`. |
| HexText.HexValueAppend | Sources/VLColorKit/VLColor.swift:128-131 | Reading `a + b` equals reading `a`, shifting it by one power of 16 per digit of `b`, then adding the value of `b`. |
| HexText.HexValueBound | Sources/VLColorKit/VLColor.swift:128-131 | `n` digits read to less than 16^n. |
| HexText.ScanHexInt64 | Sources/VLColorKit/VLColor.swift:128-131 | The scanned value saturates at the `UInt64` maximum. |
| HexText.ScanAllDigits | Sources/VLColorKit/VLColor.swift:128-131 | A non-empty string of at most 8 hex digits scans completely, to its own value. |
| HexText.ScanBound | Sources/VLColorKit/VLColor.swift:128-131 | A successful scan is below 16 to the length of the string: it reads no more digits than the string holds. |
| HexText.Format02X | Sources/VLColorKit/VLColor.swift:347-355 | `%02X` gives at least two upper-case digits. For a byte it gives exactly its high and low nibble digits. |
| HexText.FormatByteRoundTrip | Sources/VLColorKit/VLColor.swift:350-354 | A byte formats to two hex digits that read back as the byte. |
| HexText.FormatPair | Sources/VLColorKit/VLColor.swift:350-354 | Formatting the value of a digit pair gives the pair back, upper-cased. |
| Carrier.Make | Sources/VLColorKit/VLColor.swift:162-165 | The result is an RGB colour whose component list holds exactly the channels its accessor reads. Each channel is `Clamp` of its argument: an argument in [0,1] reads back as itself, and any other as the nearest point of [0,1]. The clamp is assumed (see "Left out"). |
| Carrier.Clamp | Sources/VLColorKit/VLColor.swift:162-165 | The result is the point of [0,1] nearest to the argument, and the argument itself when it lies in [0,1]. |
| Carrier.Linear | Sources/VLColorKit/VLColor.swift:249-252 | A linearised channel lies in [0,1]. It maps 0 to 0 and 1 to 1. |
| Carrier.Luminance | Sources/VLColorKit/VLColor.swift:240-259 | Luminance lies in [0,1], and is 1 when the accessor fails. |
| Carrier.ChannelByte | Sources/VLColorKit/VLColor.swift:334-340 | `Int(v * 255)` of a component in [0,1] is in 0..255, and is 255 for 1. |
| Carrier.ChannelByteOfByte | Sources/VLColorKit/VLColor.swift:334-340 | A byte stored as `byte / 255` converts back to the same byte. |
| Carrier.BlackAndWhiteLuminance | Sources/VLColorKit/VLColor.swift:237-240 | Black has luminance 0 and white has luminance 1, whatever the power curve. |
| Reference.Lightness | Sources/VLColorKit/VLColor.swift:379 | `(max + min) / 2` lies in [0,1]. |
| Reference.HueSector | Sources/VLColorKit/VLColor.swift:385-397 | The sector position of a chromatic colour lies in [0,6). |
| Reference.StandardHsl | Sources/VLColorKit/VLColor.swift:373-402 | Hue is in [0,1) and saturation in [0,1]. Lightness is `(max + min)/2` and alpha is kept. Saturation is 0 exactly for a grey. |
| Reference.HslOf | Sources/VLColorKit/VLColor.swift:363-403 | `toHSL()` is absent exactly when the accessor fails. Otherwise it is the standard HSL of the channels. |
| Selection.BestIsMaximal | Sources/VLColorKit/VLColor.swift:65-83 | Nothing is selected exactly when no candidate reaches the threshold. Otherwise the selected candidate reaches the threshold and the metric of every candidate. |
| Selection.BestLaterWinsTies | Sources/VLColorKit/VLColor.swift:72-80 | Because of `>=`, the selection stands at a position after which every candidate scores strictly less: ties go to the later one. |
| Selection.BestOfTwo | Sources/VLColorKit/VLColor.swift:65-83 | On two candidates, the selection is written out case by case. |
| Selection.Best | Sources/VLColorKit/VLColor.swift:65-83 | The running-maximum selection of `_findBest`. `BestIsMaximal` and `BestLaterWinsTies` state what it selects. |
| VLColorHex.Expanded | Sources/VLColorKit/VLColor.swift:120-126 | A 3-character string has each character doubled, and other strings are unchanged. Doubling keeps hex digits hex, and each doubled pair reads as 17 times its digit, so `F` stands for 255. |
| VLColorHex.HexBytes | Sources/VLColorKit/VLColor.swift:133-160 | Every decoded byte is in 0..255. |
| VLColorHex.DecodePrepared | Sources/VLColorKit/VLColor.swift:128-160 | Every decoded byte of the scanned value is in 0..255. |
| VLColorHex.ColorOfBytes | Sources/VLColorKit/VLColor.swift:162-165 | Each channel times 255 is the byte it came from. |
| VLColorHex.InitHex | Sources/VLColorKit/VLColor.swift:114-166 | The step-by-step initialiser returns `HexColor(hex, alphaFirst)`. |
| VLColorHex.HexColor | Sources/VLColorKit/VLColor.swift:114-166 | `nil` exactly when no bytes are decoded. Otherwise the colour writes back, through `toHex`'s channel bytes, exactly the bytes decoded. |
| VLColorHex.Stripped | Sources/VLColorKit/VLColor.swift:117-118 | Trimming, upper-casing and dropping one `#`. `StrippedDigits` states that a digit string is only upper-cased. |
| VLColorHex.Prepared | Sources/VLColorKit/VLColor.swift:117-126 | The string that is scanned. `PreparedDigits`, `PreparedShorthand` and `PreparedWritten` state what it is for digit strings, shorthands and written text. |
| VLColorHex.HexRejects | Sources/VLColorKit/VLColor.swift:128-160 | `nil` exactly when the scan fails or the prepared length is neither 6 nor 8. |
| VLColorHex.PairAt | Sources/VLColorKit/VLColor.swift:137-155 | A digit pair is a byte. |
| VLColorHex.PairAtDigits | Sources/VLColorKit/VLColor.swift:137-155 | A pair's byte is 16 times its first digit plus its second. |
| VLColorHex.ThreePairs | Sources/VLColorKit/VLColor.swift:136-139 | Six digits read as their three pairs in base 256. |
| VLColorHex.FourPairs | Sources/VLColorKit/VLColor.swift:142-156 | Eight digits read as their four pairs in base 256. |
| VLColorHex.StrippedDigits | Sources/VLColorKit/VLColor.swift:117-118 | A non-empty digit string is only upper-cased by trimming and `#` removal. |
| VLColorHex.PreparedDigits | Sources/VLColorKit/VLColor.swift:117-126 | A digit string of any length but 3 is prepared to its upper-cased self. |
| VLColorHex.ScanDigits | Sources/VLColorKit/VLColor.swift:117-131 | Six or eight digits are prepared to their upper-cased form, which scans to their value. |
| VLColorHex.ThreeBytes | Sources/VLColorKit/VLColor.swift:137-139 | Shifting and masking a three-byte value gives back each byte. |
| VLColorHex.FourBytes | Sources/VLColorKit/VLColor.swift:145-155 | Shifting and masking a four-byte value gives back each byte. |
| VLColorHex.SixDigitLayout | Sources/VLColorKit/VLColor.swift:136-140 | Six digits decode as `RRGGBB` with alpha 255, whatever `alphaFirst` says. |
| VLColorHex.EightDigitLayout | Sources/VLColorKit/VLColor.swift:142-156 | Eight digits decode as `RRGGBBAA`, or as `AARRGGBB` when `alphaFirst`. |
| VLColorHex.ShorthandDoubles | Sources/VLColorKit/VLColor.swift:120-126 | A 3-digit shorthand decodes as its doubled form. Each channel is 17 times its digit, and alpha is 255. |
| VLColorHex.PreparedShorthand | Sources/VLColorKit/VLColor.swift:117-126 | Preparing a shorthand gives its characters, upper-cased and doubled. |
| VLColorHex.DoubledPairs | Sources/VLColorKit/VLColor.swift:120-126 | Each pair of the doubled shorthand is 17 times its digit. |
| VLColorHex.PartialScanAccepted | Sources/VLColorKit/VLColor.swift:128-140 | The scan stops at the first non-digit, so "FFG000" is accepted and decodes as blue 255. |
| VLColorHex.PartialScan | Sources/VLColorKit/VLColor.swift:128-131 | "FFG000" scans to 255. |
| VLColorHex.PreparedSix | Sources/VLColorKit/VLColor.swift:128-140 | A string prepared to six characters decodes to the three low bytes of its scanned value, with alpha 255. |
| VLColorHex.HexChannels | Sources/VLColorKit/VLColor.swift:315-345 | Bytes exist exactly for RGB or grey colours that have components, and are bytes when the components lie in [0,1]. A grey writes the byte of `components[0]` as red, green and blue, and the byte of `components[1]` (or 255) as alpha. An RGB colour writes the bytes of components 0, 1 and 2 (zeros with fewer than 3), and of component 3 (or 255) as alpha. |
| VLColorHex.WithPrefix | Sources/VLColorKit/VLColor.swift:357 | The text ends with `s`, and is one longer and starts with `#` exactly when `prefixed`. `PrefixedRoundTrip` shows the parser strips that prefix again. |
| VLColorHex.HexString | Sources/VLColorKit/VLColor.swift:302-358 | `toHex` as a value. `HexStringRoundTrip`, `GreyWritten`, `RgbWritten` and `FallbackWritten` state what it writes. |
| VLColorHex.Digits | Sources/VLColorKit/VLColor.swift:347-355 | The `%02X` digits of the bytes. `DigitsShape` states their shape and pairs. |
| VLColorHex.HexStringRoundTrip | Sources/VLColorKit/VLColor.swift:302-358 | When the colour has channel bytes, `toHex` writes `#` (if asked) and one pair per byte, and the hex initialiser reads the text back to those bytes, alpha 255 when it was not written. |
| VLColorHex.WrittenDigits | Sources/VLColorKit/VLColor.swift:347-357 | The written text is the optional `#`, then one upper-case pair per byte. |
| VLColorHex.PrefixedRoundTrip | Sources/VLColorKit/VLColor.swift:347-357 | Written text, with or without `#`, parses back to the bytes. |
| VLColorHex.PreparedWritten | Sources/VLColorKit/VLColor.swift:117-126 | Written text is prepared to its digits: trimming and upper-casing keep it, and the `#` is dropped. |
| VLColorHex.GreyWritten | Sources/VLColorKit/VLColor.swift:324-329 | For any grey with components in [0,1], the three colour pairs are the byte of `components[0]` and the alpha pair is the byte of `components[1]` (FF with one component). |
| VLColorHex.RgbWritten | Sources/VLColorKit/VLColor.swift:331-341 | For any RGB colour with three or more components in [0,1], the pairs are the bytes of components 0, 1 and 2, and alpha is the byte of component 3 (FF with three). |
| VLColorHex.ToHex | Sources/VLColorKit/VLColor.swift:302-358 | The step-by-step `toHex` returns `HexString`. |
| VLColorHex.DigitsShape | Sources/VLColorKit/VLColor.swift:347-355 | The written digits are 6 (or 8) upper-case hex digits. Each pair is the corresponding byte. |
| VLColorHex.FormatThenParse | Sources/VLColorKit/VLColor.swift:347-355 | Parsing written digits gives the bytes back. Alpha is 255 when it was not written. |
| VLColorHex.ChannelsOfBytes | Sources/VLColorKit/VLColor.swift:331-341 | A colour decoded from bytes writes back the same bytes. |
| VLColorHex.WrittenBytes | Sources/VLColorKit/VLColor.swift:331-355 | A colour decoded from bytes writes exactly their digits. |
| VLColorHex.ParseThenFormatSix | Sources/VLColorKit/VLColor.swift:302-358 | Six digits parse, and format back to themselves, upper-cased. |
| VLColorHex.ParseThenFormatEight | Sources/VLColorKit/VLColor.swift:302-358 | Eight digits in `RRGGBBAA` parse, and format back with alpha to themselves, upper-cased. |
| VLColorHex.PairsFormatBack | Sources/VLColorKit/VLColor.swift:350-354 | Formatting a pair's byte gives the pair back, upper-cased. |
| VLColorHex.WhiteAndBlackHex | Sources/VLColorKit/VLColor.swift:324-329 | The grey system white and black write as `FFFFFF` and `000000`, and `FF` for alpha. |
| VLColorHex.FallbackWritten | Sources/VLColorKit/VLColor.swift:311-344 | With no components, or in another colour space, the (prefixed) fallback is written. |
| VLColorHex.ShortRgbWritesZeros | Sources/VLColorKit/VLColor.swift:331-341 | An RGB colour with fewer than 3 components writes `000000FF`. |
| VLColorHsl.TruncRem2 | Sources/VLColorKit/VLColor.swift:184 | `truncatingRemainder(dividingBy: 2)` takes the sign of its argument. It is written out on [0,6]. |
| VLColorHsl.Room | Sources/VLColorKit/VLColor.swift:183 | `1 - abs(2l - 1)` lies in [0,1]. It is `2l` up to one half and `2 - 2l` from there. |
| VLColorHsl.Chroma | Sources/VLColorKit/VLColor.swift:183-185 | For `s` and `l` in [0,1], chroma fits the room: `l ± c/2` stay in [0,1]. |
| VLColorHsl.Offset | Sources/VLColorKit/VLColor.swift:184 | The offset `x` lies in [0,c]. |
| VLColorHsl.SectorPart | Sources/VLColorKit/VLColor.swift:189-198 | Each channel lies in [0,c]. Outside [0,6) the part is `(0,0,0)`. |
| VLColorHsl.HslChannels | Sources/VLColorKit/VLColor.swift:174-201 | The channels of the HSL initialiser before the platform call. `HslChannelsInUnit`, `HslRoundTrip`, `ZeroSaturationIsGrey`, `OutsideSectorsIsGrey` and `HueZero` state its properties. |
| VLColorHsl.HslColor | Sources/VLColorKit/VLColor.swift:174-201 | `init(hue:saturation:lightness:alpha:)` on reals. `HslColorLightness` and `HslRoundTrip` state its properties. |
| VLColorHsl.HslColorInt | Sources/VLColorKit/VLColor.swift:209-218 | The degree/percent initialiser. `IntColorOfChannels`, `FullTurnHueIsGrey` and `FullTurnHueIsBlack` state its properties. |
| VLColorHsl.ToHSL | Sources/VLColorKit/VLColor.swift:363-403 | The step-by-step `toHSL()` returns the standard HSL, `HslOf(c)`. |
| VLColorHsl.AdjustedLightness | Sources/VLColorKit/VLColor.swift:21-29 | `_adjustedLightness` is `nil` exactly when the accessor fails. |
| VLColorHsl.HslChannelsInUnit | Sources/VLColorKit/VLColor.swift:174-201 | For `s` and `l` in [0,1], every channel is in [0,1] for any hue, so the clamp changes nothing. |
| VLColorHsl.RedSector | Sources/VLColorKit/VLColor.swift:385-389 | When red is largest, the sector the initialiser picks for the computed hue gives back the channels minus min. |
| VLColorHsl.GreenSector | Sources/VLColorKit/VLColor.swift:390-393 | The same, when green is largest. |
| VLColorHsl.BlueSector | Sources/VLColorKit/VLColor.swift:394-397 | The same, when blue is largest. |
| VLColorHsl.HslRoundTrip | Sources/VLColorKit/VLColor.swift:174-201 | The HSL initialiser inverts `toHSL()`: hue, saturation and lightness give back red, green and blue exactly. |
| VLColorHsl.GreyRoundTrip | Sources/VLColorKit/VLColor.swift:381 | The round trip for a grey. |
| VLColorHsl.GreyChannels | Sources/VLColorKit/VLColor.swift:183-200 | Hue and saturation 0 give the grey of the lightness. |
| VLColorHsl.ZeroSaturationIsGrey | Sources/VLColorKit/VLColor.swift:183-200 | Saturation 0 gives the grey `l` for every hue. |
| VLColorHsl.OutsideSectorsIsGrey | Sources/VLColorKit/VLColor.swift:197 | A hue with `h*6` outside [0,6) gives the grey `l - c/2`. |
| VLColorHsl.ChromaFromHsl | Sources/VLColorKit/VLColor.swift:373-399 | From a chromatic `toHSL` result, the initialiser recomputes chroma `max - min`, the sector position and `m = min`. |
| VLColorHsl.SectorExtremes | Sources/VLColorKit/VLColor.swift:189-198 | Inside [0,6) the sector part has largest channel `c` and smallest 0. |
| VLColorHsl.HslColorLightness | Sources/VLColorKit/VLColor.swift:174-201 | A colour built from a hue in [0,1) has exactly the requested lightness, and the clamped alpha. |
| VLColorHsl.AdjustedLightnessSets | Sources/VLColorKit/VLColor.swift:21-29 | On a readable colour, `_adjustedLightness(to:)` has the requested lightness and the original alpha. |
| VLColorHsl.AdjustedLightnessKeeps | Sources/VLColorKit/VLColor.swift:21-29 | Adjusting to the lightness a colour already has gives its channels back. |
| VLColorHsl.HueZero | Sources/VLColorKit/VLColor.swift:191 | Hue 0 gives `(l + c/2, l - c/2, l - c/2)`. |
| VLColorHsl.IntColorOfChannels | Sources/VLColorKit/VLColor.swift:209-218 | The degree/percent initialiser yields the HSL channels of `h/360, s/100, l/100`. |
| VLColorHsl.FullTurnHueIsGrey | Sources/VLColorKit/VLColor.swift:209-218 | As written, hue 360 gives the grey `m`, while hue 0 gives `(c + m, m, m)`, for every saturation and lightness. |
| VLColorHsl.FullTurnHueIsBlack | Sources/VLColorKit/VLColor.swift:203-218 | At 100% saturation and 50% lightness, 0 degrees is red and 360 degrees is black. |
| VLColorHsl.CircularAgrees | Sources/VLColorKit/VLColor.swift:170 | The corrected initialiser equals the written one on the hues it handles, [0,1). |
| VLColorHsl.HslColorCircular | Sources/VLColorKit/VLColor.swift:170-201 | The corrected initialiser, which first reduces the hue modulo one turn. `CircularAgrees`, `CircularFullTurn` and `CircularLightness` state its properties. |
| VLColorHsl.HslColorIntCircular | Sources/VLColorKit/VLColor.swift:203-218 | The corrected degree initialiser. `CircularThreeSixtyIsZero` and `CircularThreeSixtyIsRed` state its properties. |
| VLColorHsl.CircularFullTurn | Sources/VLColorKit/VLColor.swift:205 | With the reduction, hue 1 is hue 0. |
| VLColorHsl.CircularThreeSixtyIsZero | Sources/VLColorKit/VLColor.swift:205-218 | With the reduction, 360 degrees is 0 degrees for every saturation, lightness and alpha. |
| VLColorHsl.CircularThreeSixtyIsRed | Sources/VLColorKit/VLColor.swift:205-218 | With the reduction, 360 degrees at 100%/50% is red. |
| VLColorHsl.CircularLightness | Sources/VLColorKit/VLColor.swift:174-201 | With the reduction, every hue keeps the requested lightness. |
| VLColorText.ContrastRatio | Sources/VLColorKit/VLColor.swift:261-270 | The ratio lies in [1,21]. It is 1 exactly for equal luminances. |
| VLColorText.Ratio | Sources/VLColorKit/VLColor.swift:269 | Larger over smaller, each raised by 0.05: in [1,21], and 1 exactly when equal. |
| VLColorText.ContrastSymmetric | Sources/VLColorKit/VLColor.swift:264-270 | The ratio does not depend on the order of the two colours. |
| VLColorText.BlackWhiteContrast | Sources/VLColorKit/VLColor.swift:263 | Black against white is 21 either way round. |
| VLColorText.ContrastWithBlack | Sources/VLColorKit/VLColor.swift:264-270 | Against black the ratio is `20 (L + 0.05)`. |
| VLColorText.ContrastWithWhite | Sources/VLColorKit/VLColor.swift:264-270 | Against white the ratio is `1.05 / (L + 0.05)`. |
| VLColorText.RatioWithExtremes | Sources/VLColorKit/VLColor.swift:269 | The two ratios with luminances 0 and 1, in closed form. |
| VLColorText.IsDark | Sources/VLColorKit/VLColor.swift:272-293 | `isDark` as a value. `IsDarkIffWhiteWins`, `IsDarkByLuminance`, `EqualContrastIsDark` and `DarknessOfExtremes` state its meaning. |
| VLColorText.DarkCascade | Sources/VLColorKit/VLColor.swift:282-292 | The three tests of `isDark`. `CascadeIffWhiteWins` and `CascadeByLevel` state its meaning. |
| VLColorText.IsDarkIffWhiteWins | Sources/VLColorKit/VLColor.swift:272-293 | `isDark` holds exactly when white has at least the contrast of black. The two 7:1 shortcuts never disagree with that comparison. |
| VLColorText.CascadeIffWhiteWins | Sources/VLColorKit/VLColor.swift:282-292 | The three tests of the cascade agree with the comparison, for every luminance. |
| VLColorText.IsDarkByLuminance | Sources/VLColorKit/VLColor.swift:274-293 | `isDark` holds exactly when `(L + 0.05)^2 <= 0.0525`, that is `L` up to about 0.179. |
| VLColorText.CascadeByLevel | Sources/VLColorKit/VLColor.swift:282-292 | The cascade on a luminance is the crossing test on it. |
| VLColorText.CrossingPoint | Sources/VLColorKit/VLColor.swift:279-292 | White's ratio is at least black's exactly below the crossing point. |
| VLColorText.EqualContrastIsDark | Sources/VLColorKit/VLColor.swift:292 | Equal contrast with black and white counts as dark. |
| VLColorText.DarknessOfExtremes | Sources/VLColorKit/VLColor.swift:274-293 | Black is dark. White is not, and neither is a colour the accessor cannot read. |
| VLColorText.FindBest | Sources/VLColorKit/VLColor.swift:65-83 | The loop returns the running-maximum selection `Best`. |
| VLColorText.BestContrast | Sources/VLColorKit/VLColor.swift:36-42 | `nil` exactly when no candidate reaches the threshold. Otherwise the result is a candidate with the most contrast, at least the threshold. |
| VLColorText.Gap | Sources/VLColorKit/VLColor.swift:55 | The luminance gap lies in [0,1]. |
| VLColorText.BestLuminance | Sources/VLColorKit/VLColor.swift:49-57 | `nil` exactly when no candidate is the threshold away. Otherwise the result is a candidate with the largest gap. |
| VLColorText.Present | Sources/VLColorKit/VLColor.swift:225-228 | `compactMap` keeps exactly the present values, at most two. |
| VLColorText.Variants | Sources/VLColorKit/VLColor.swift:225-228 | No variants for an unreadable colour, otherwise two. |
| VLColorText.TextColor | Sources/VLColorKit/VLColor.swift:229-234 | The four-stage cascade of `bestTextColor`. `TextColorGuarantee`, `EnhancedContrastFirst`, `WhiteOrBlackLast` and `FourthStageSelects` state what it returns. |
| VLColorText.BestTextColor | Sources/VLColorKit/VLColor.swift:220-235 | `bestTextColor` with the 0.98 and 0.25 variants. `TextColorGuarantee`, `UnreadableGetsBlack` and `WhiteBackgroundGetsGrey` state what it returns. |
| VLColorText.FourthStageSelects | Sources/VLColorKit/VLColor.swift:233-234 | One of white and black is always 0.5 away in luminance, so the final `.black` is never reached. |
| VLColorText.TextColorGuarantee | Sources/VLColorKit/VLColor.swift:220-235 | The text colour is a variant, white or black. It has a contrast of at least 4.5 or a luminance gap of at least 0.5. |
| VLColorText.EnhancedContrastFirst | Sources/VLColorKit/VLColor.swift:230 | When a variant reaches 7:1, the text colour is the variant with the most contrast. |
| VLColorText.WhiteOrBlackLast | Sources/VLColorKit/VLColor.swift:230-234 | When no variant reaches 4.5:1 or a 0.5 gap, the result is white on a luminance below 0.5 and black otherwise. |
| VLColorText.UnreadableGetsBlack | Sources/VLColorKit/VLColor.swift:223-234 | An unreadable background gets black text. |
| VLColorText.WhiteBackgroundGetsGrey | Sources/VLColorKit/VLColor.swift:223-235 | On white, the text colour is the 0.25 grey variant when the power curve puts 0.25 at most at 0.1 and below 0.98. |
| VLColorText.WhiteBackgroundText | Sources/VLColorKit/VLColor.swift:225-230 | On white, the darker grey variant wins the first stage. |
| VLColorText.WhiteVariants | Sources/VLColorKit/VLColor.swift:225-228 | The variants of white are the two opaque greys. |
| VLColorText.SecondOfTwoReaches | Sources/VLColorKit/VLColor.swift:75-79 | Of two candidates, the second is kept at 7:1 when it reaches 7:1 and the first's ratio. |
| VLColorText.FirstStageDecides | Sources/VLColorKit/VLColor.swift:230 | When the 7:1 stage selects, its choice is the text colour. |
| VLColorText.GreyContrastWithWhite | Sources/VLColorKit/VLColor.swift:240-270 | Against white, an opaque grey above the knee has the ratio of its curve value. |
| VLColorText.WhiteRatioOrder | Sources/VLColorKit/VLColor.swift:264-270 | Against white, a lower luminance gives a higher ratio. A luminance of at most 0.1 reaches 7:1. |
| VLColorText.WhiteHsl | Sources/VLColorKit/VLColor.swift:363-403 | White is HSL `(0, 0, 1, 1)`. |
| VLColorText.GreyVariant | Sources/VLColorKit/VLColor.swift:21-29 | Adjusting a grey of hue and saturation 0 gives the plain grey of the new lightness. |
| KitUIColor.LegacyHexBytes | Sources/VLColorKit/UIColor.swift:13-40 | Green, blue and alpha are bytes. Red is unmasked: it is below 0x10000, the top two bytes of a value of at most eight digits. Only stripped lengths 6 and 8 decode. |
| KitUIColor.LegacyDecode | Sources/VLColorKit/UIColor.swift:18-40 | The same bounds for the scanned string, since a scan reads no more digits than the string holds (`ScanBound`). |
| KitUIColor.LegacyColorOfBytes | Sources/VLColorKit/UIColor.swift:42-45 | Under the modelled clamp, values of 255 and more give 1. On bytes, it equals the current revision's colour. |
| KitUIColor.LegacyInitHex | Sources/VLColorKit/UIColor.swift:13-46 | The step-by-step legacy initialiser returns `LegacyHexColor(hex)`. |
| KitUIColor.LegacyHexColor | Sources/VLColorKit/UIColor.swift:13-46 | The legacy `init?(hex:)` as a value. `LegacyHexRejects`, `LegacySixAgrees`, `LegacyEightLayout` and `LegacyAlphaOverflowsRed` state what it decodes. |
| KitUIColor.LegacyHexRejects | Sources/VLColorKit/UIColor.swift:18-40 | `nil` exactly when the scan fails or the stripped length is neither 6 nor 8. |
| KitUIColor.LegacyRefusesShorthand | Sources/VLColorKit/UIColor.swift:24-40 | Three hex digits are refused, where the current parser accepts them. |
| KitUIColor.LegacyShortRefused | Sources/UIColor.swift:16-31 | The oldest (and legacy) parser decodes nothing from three digits. |
| KitUIColor.LegacySixAgrees | Sources/VLColorKit/UIColor.swift:26-30 | On six digits, the legacy parser reads the bytes the current one reads. |
| KitUIColor.LegacyScansWhole | Sources/VLColorKit/UIColor.swift:18-36 | Six or eight digits are cut from their whole value, with the red shift unmasked. |
| KitUIColor.LegacyEightLayout | Sources/VLColorKit/UIColor.swift:32-36 | On eight digits, green, blue and alpha are the current `AARRGGBB` bytes. Red is `alpha * 256 + red`. |
| KitUIColor.LegacyCut | Sources/UIColor.swift:24-28 | The 8-character cut: `v >> 16`, `(v >> 8) & 0xFF`, `v & 0xFF`, `v >> 24`. |
| KitUIColor.CurrentCut | Sources/VLColorKit/VLColor.swift:143-149 | The current `alphaFirst` cut, every byte masked. |
| KitUIColor.CutsOfValue | Sources/VLColorKit/UIColor.swift:32-36 | For a 32-bit value, the unmasked red is the masked alpha times 256 plus the masked red. |
| KitUIColor.TopBytes | Sources/VLColorKit/UIColor.swift:33-36 | For a 32-bit value, `v >> 16` is its top two bytes. |
| KitUIColor.UnmaskedThree | Sources/VLColorKit/UIColor.swift:27-29 | For a three-byte value, `v >> 16` needs no mask. |
| KitUIColor.LegacyAlphaOverflowsRed | Sources/VLColorKit/UIColor.swift:32-36 | As written, a non-zero alpha pair makes red at least 256, which the modelled clamp caps at full red. The current parser reads the `RR` pair. |
| KitUIColor.OpaqueBlackPairs | Sources/VLColorKit/UIColor.swift:32-36 | "FF000000" has a non-zero alpha pair and a zero red pair. |
| KitUIColor.TruncRem6 | Sources/VLColorKit/UIColor.swift:262 | `truncatingRemainder(dividingBy: 6)` leaves values in (-6,6) unchanged. |
| KitUIColor.LegacyToHSL | Sources/VLColorKit/UIColor.swift:234-271 | The legacy `toHSL()` also computes the standard HSL, `HslOf(c)`. This covers the split saturation and the remainder-then-`+1` hue. |
| KitUIColor.LegacyTextGuarantee | Sources/VLColorKit/UIColor.swift:77-86 | The legacy text colour is a 0.9/0.1 variant, white or black. It has a contrast of at least 4.5 or a gap of at least 0.5. |
| KitUIColor.LegacyBestTextColor | Sources/VLColorKit/UIColor.swift:77-86 | The legacy `bestTextColor`, with the 0.9 and 0.1 variants. `LegacyTextGuarantee`, `LegacyUnreadableGetsBlack` and `LegacyWhiteBackgroundGetsGrey` state what it returns. |
| KitUIColor.LegacyUnreadableGetsBlack | Sources/VLColorKit/UIColor.swift:77-86 | An unreadable background gets black text. |
| KitUIColor.LegacyWhiteBackgroundGetsGrey | Sources/VLColorKit/UIColor.swift:77-86 | On white, the legacy text colour is the 0.1 grey when the curve puts 0.1 at most at 0.1 and below 0.9. |
| OldUIColor.Luma | Sources/UIColor.swift:50-53 | The weighted sum lies in [0,1]. It is 0 when the accessor fails, and the channel value for a grey. |
| OldUIColor.DarkColor | Sources/UIColor.swift:48-56 | `isDarkColor` as a value. `IsDarkColor`, `GreyDarkness`, `UnreadableDisagrees` and `GreyDisagrees` state its meaning. |
| OldUIColor.IsDarkColor | Sources/UIColor.swift:48-56 | `isDarkColor` is `Luma < 0.5`. An unreadable colour is dark. |
| OldUIColor.ContrastingColor | Sources/UIColor.swift:40-43 | White exactly for a dark colour, black exactly for a light one. |
| OldUIColor.ExtremesContrast | Sources/UIColor.swift:40-56 | Black is dark and gets white. White is light and gets black. |
| OldUIColor.GreyDarkness | Sources/UIColor.swift:48-56 | A grey is dark exactly below one half. |
| OldUIColor.UnreadableDisagrees | Sources/UIColor.swift:48-56 | An unreadable colour is dark here and gets white. The WCAG `isDark` calls it light. |
| OldUIColor.GreyDisagrees | Sources/UIColor.swift:48-56 | A grey below one half with luminance at least 0.18 is dark here but light under `isDark`. |
| OldUIColor.OldBytes | Sources/UIColor.swift:63-73 | With components in [0,1], the written values are bytes. |
| OldUIColor.OldHexString | Sources/UIColor.swift:58-80 | `nil` exactly when there are no components. It traps exactly on fewer than 3 components. Otherwise, with components in [0,1], the text is the optional `#` and one upper-case pair per byte: the bytes of components 0, 1 and 2, then of the last component as alpha. |
| OldUIColor.OldToHex | Sources/UIColor.swift:58-80 | The step-by-step oldest `toHex` returns `OldHexString`. |
| OldUIColor.OldAgreesOnRgba | Sources/UIColor.swift:58-80 | On an RGB colour with four components, it writes what the current `toHex` writes. |
| OldUIColor.ThreeComponentAlpha | Sources/UIColor.swift:68-73 | With three components, `components.last` (blue) is written as alpha. The current revision writes 255. |
| OldUIColor.MonochromeTraps | Sources/UIColor.swift:63-65 | A grey colour with two components traps on `components[2]`. |
| OldUIColor.WhiteAndBlackTrap | Sources/UIColor.swift:63-65 | As written, the system white and black trap. |
| OldUIColor.OldWrittenParsesBack | Sources/UIColor.swift:5-80 | A colour from bytes is written as their six digits. The oldest parser reads those digits back as the same bytes, opaque. |

## Left out

- Hue harmonies are not modelled: `complement`, `splitComplement*`,
  `triadic*`, `tetradic*`, `analagous*` and `_withHue`/`withHue`. They
  rotate the platform's HSB hue (`getHue` and `fmod`), which is not part of
  this model.
- `Sources/VLColorKit/Color.swift` (the SwiftUI bridge) is not part of this
  model.
- `getRGBA`, `getRed` and `cgColor.components` are taken as inputs, the
  fields of `Carrier.Color`. On iOS these platform accessors behave the
  same, so both revisions read the same `rgba`.
- The macOS paths (`usingColorSpace(.deviceRGB)`) are not modelled.
- `pow((v + 0.055) / 1.055, 2.4)` is an abstract `Curve`. It is known to
  map (0.03928, 1] into [0,1] and 1 to 1. Lemmas that need more of it take
  their facts about `curve` as requirements.
- IEEE rounding is not modelled. `CGFloat` arithmetic is exact real
  arithmetic, so the round trips hold exactly.
- HexText.Uppercased: `uppercased()` is modelled as ASCII upper-casing, and
  lengths count characters where Swift's `count` counts grapheme clusters.
  Both change which strings parse. `"ﬀﬀﬀ"` (three U+FB00 ligatures)
  upper-cases in Swift to `"FFFFFF"` and parses as white; the model keeps
  the ligatures and returns `nil`. `"FFF\r\nFF"` has a Swift `count` of 6
  (CR LF is one character) and decodes to (0, 15, 255); the model counts 7
  and returns `nil`.
- Carrier.Make: clamps each argument to [0,1]. The source never clamps,
  and the platform initialiser keeps values outside [0,1] (extended range).
  Two paths hand it such values. One is the legacy unmasked red byte: the
  platform would keep `0xFF00 / 255`, about 257, where the model gives 1.
  The other is the HSL initialisers `VLColorHsl.HslColor` and `HslColorInt`
  with a saturation or lightness outside [0,1], which the source accepts:
  `HslColorInt(0, 200, 50, 1)` computes the channels (1.5, -0.5, -0.5),
  which the platform keeps and the model reads as (1, 0, 0).
- Carrier.Rgba: its `Unit` fields assume that the accessor reads every
  channel in [0,1]. Extended-range colours are outside the model, and the
  bounds `Luminance` ≤ 1, `ContrastRatio` ≤ 21 and `Luma` ≤ 1 rest on that
  assumption.
- KitUIColor.LegacyColorOfBytes: its value for red 255 and above rests on
  the clamp of `Carrier.Make`, not on the platform.
- `Scanner` is modelled only for hex strings. It skips leading whitespace
  and an optional `0x` prefix, and saturates at `UInt64.max`.
- The WCAG constants `AA_small` and `AA_large` are declared but unused in
  the source, and are not modelled.
- `relativeLuminance`, the deprecated alias of `luminance`, is not modelled.
- The `init?(hex:)` of `Sources/UIColor.swift` is the legacy parser
  character for character. It is modelled once, as
  `KitUIColor.LegacyHexColor`.
- The legacy revision's HSL initialiser and its `findBest`,
  `bestContrast`, `bestLuminance`, `luminance`, `contrastRatio`, `isDark`,
  `adjustedLightness` and `toHex` are modelled once, by the current
  revision's members. Its `toHSL` is proved equal to the current one
  (`LegacyToHSL`).
- The model does not prove the HSL → RGB → HSL direction. Hue is not
  unique for greys, so only RGB → HSL → RGB (`HslRoundTrip`) is proved.
- VLColorHex.HexString: requires `HexReadable` (a grey colour has a first
  component). The source reads `components[0]` unchecked and would trap
  otherwise.
- VLColorText.WhiteBackgroundGetsGrey: holds under an assumption about the
  power curve (its value at 0.25). The exact value of `pow` is not
  modelled.

## Findings

| source | as written | input that shows it | evidently intended | confidence | as-written member | corrected member |
|---|---|---|---|---|---|---|
| Sources/VLColorKit/VLColor.swift:209-218 | The degree initialiser passes `360 / 360 = 1`. Then `h * 6 == 6` matches no sector, and the colour is the grey `l - c/2`. | `init(hue: 360, saturation: 100, lightness: 50, alpha: 1)` gives black. Hue 0 gives red. | The documented range [0,360] wraps around: 360 degrees is 0 degrees. | medium; not executed | VLColorHsl.FullTurnHueIsGrey | VLColorHsl.CircularThreeSixtyIsZero |
| Sources/VLColorKit/UIColor.swift:32-36 | For 8 digits, `red = rgbValue >> 16` has no `& 0xFF` mask, so it carries the alpha byte. `Sources/UIColor.swift:24-28` is the same. | `"FF000000"` (opaque black, `AARRGGBB`) gives red `0xFF00`, so the platform gets `0xFF00 / 255`, about 257, instead of 0 (the model clamps it to 1, full red). | `(rgbValue >> 16) & 0xFF`, as the current revision masks it. | high; not executed | KitUIColor.LegacyAlphaOverflowsRed | VLColorHex.EightDigitLayout |
| Sources/UIColor.swift:63-65 | `toHex` reads `components[0]`, `[1]` and `[2]` without checking the count. | `UIColor.white` and `UIColor.black` are grey colours with two components, so `components[2]` traps. | Write grey colours by copying their one value, as the current revision does. | high; not executed | OldUIColor.WhiteAndBlackTrap | VLColorHex.WhiteAndBlackHex |
