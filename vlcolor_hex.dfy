/**
 * The hex codec of the current revision (`VLColor.init?(hex:alphaFirst:)`
 * and `VLColor.toHex(prefixed:includeAlpha:fallback:)`).
 */
module VLColorHex {
  import opened Wrappers
  import opened HexText
  import opened Carrier

  /** Four channel values on the 0-255 scale (not necessarily in range). */
  datatype Bytes = Bytes(red: int, green: int, blue: int, alpha: int)

  predicate InByteRange(b: Bytes)
  {
    0 <= b.red < 256 && 0 <= b.green < 256 && 0 <= b.blue < 256 && 0 <= b.alpha < 256
  }

  // ---------------------------------------------------------------------------
  // Parsing
  // ---------------------------------------------------------------------------

  /** Trimmed, upper-cased, and without one leading `#`. */
  function Stripped(hex: string): string
  {
    var s := Uppercased(Trim(hex));
    if |s| > 0 && s[0] == '#' then s[1..] else s
  }

  /**
   * The 3-character shorthand with each character doubled; other strings
   * unchanged. A doubled digit pair is 17 times the digit, so `F` stands
   * for 0xFF and `8` for 0x88.
   */
  function Expanded(s: string): (t: string)
    ensures |s| == 3 ==> t == [s[0], s[0], s[1], s[1], s[2], s[2]]
    ensures |s| != 3 ==> t == s
    ensures AllHexDigits(s) ==> AllHexDigits(t)
    ensures |s| == 3 && AllHexDigits(s) ==>
              PairAt(t, 0) == 17 * DigitValue(s[0]) && PairAt(t, 2) == 17 * DigitValue(s[1]) &&
              PairAt(t, 4) == 17 * DigitValue(s[2])
  {
    if |s| != 3 then s
    else if AllHexDigits(s) then DoubledPairs(s); [s[0], s[0], s[1], s[1], s[2], s[2]]
    else [s[0], s[0], s[1], s[1], s[2], s[2]]
  }

  /** The string that is scanned, and whose length picks the layout. */
  function Prepared(hex: string): string
  {
    Expanded(Stripped(hex))
  }

  /**
   * The channel bytes of a hex string: bytes 2, 1, 0 of the scanned value
   * for 6 characters (alpha 255); for 8 characters `RRGGBBAA`, or
   * `AARRGGBB` when `alphaFirst`. Every byte is masked to 0..255.
   */
  function HexBytes(hex: string, alphaFirst: bool): (r: Option<Bytes>)
    ensures r.Some? ==> InByteRange(r.value)
  {
    DecodePrepared(Prepared(hex), alphaFirst)
  }

  /** Scanning the prepared string and cutting the value into bytes. */
  function DecodePrepared(s: string, alphaFirst: bool): (r: Option<Bytes>)
    ensures r.Some? ==> InByteRange(r.value)
  {
    match ScanHexInt64(s)
    case None => None
    case Some(v) =>
      // `(v >> 8k) & 0xFF` is `(v / 256^k) % 256` on a non-negative value.
      if |s| == 6 then Some(Bytes(v / 0x1_0000 % 0x100, v / 0x100 % 0x100, v % 0x100, 255))
      else if |s| == 8 then
        if alphaFirst then
          Some(Bytes(v / 0x1_0000 % 0x100, v / 0x100 % 0x100, v % 0x100, v / 0x100_0000 % 0x100))
        else
          Some(Bytes(v / 0x100_0000 % 0x100, v / 0x1_0000 % 0x100, v / 0x100 % 0x100, v % 0x100))
      else None
  }

  /** The colour built from bytes: each byte divided by 255, which lands in [0,1] unclamped. */
  function ColorOfBytes(b: Bytes): (c: Color)
    requires InByteRange(b)
    ensures c.rgba.Some? && c.model == RGB
    ensures c.rgba.value.red as real * 255.0 == b.red as real
    ensures c.rgba.value.green as real * 255.0 == b.green as real
    ensures c.rgba.value.blue as real * 255.0 == b.blue as real
    ensures c.rgba.value.alpha as real * 255.0 == b.alpha as real
  {
    Make(b.red as real / 255.0, b.green as real / 255.0, b.blue as real / 255.0, b.alpha as real / 255.0)
  }

  /**
   * `init?(hex:alphaFirst:)` as a value: `nil` exactly when no bytes are
   * decoded; otherwise an RGB colour whose components are the decoded bytes.
   */
  function HexColor(hex: string, alphaFirst: bool): (r: Option<Color>)
    ensures r.Some? <==> HexBytes(hex, alphaFirst).Some?
    ensures r.Some? ==> HexReadable(r.value) && HexChannels(r.value) == HexBytes(hex, alphaFirst)
  {
    match HexBytes(hex, alphaFirst)
    case None => None
    case Some(b) => ChannelsOfBytes(b); Some(ColorOfBytes(b))
  }

  /** `init?(hex:alphaFirst:)`, step by step on the local `hexString`. */
  method InitHex(hex: string, alphaFirst: bool) returns (color: Option<Color>)
    ensures color == HexColor(hex, alphaFirst)
  {
    var hexString := Uppercased(Trim(hex));
    if |hexString| > 0 && hexString[0] == '#' {
      hexString := hexString[1..];
    }
    if |hexString| == 3 {
      var r := [hexString[0], hexString[0]];
      var g := [hexString[1], hexString[1]];
      var b := [hexString[2], hexString[2]];
      hexString := r + g + b;
    }
    assert hexString == Prepared(hex);
    var scanned := ScanHexInt64(hexString);
    if scanned.None? {
      return None;
    }
    var rgbValue := scanned.value;
    var red, green, blue, alpha;
    if |hexString| == 6 {
      red := rgbValue / 0x1_0000 % 0x100;
      green := rgbValue / 0x100 % 0x100;
      blue := rgbValue % 0x100;
      alpha := 255;
    } else if |hexString| == 8 {
      if alphaFirst {
        alpha := rgbValue / 0x100_0000 % 0x100;
        red := rgbValue / 0x1_0000 % 0x100;
        green := rgbValue / 0x100 % 0x100;
        blue := rgbValue % 0x100;
      } else {
        red := rgbValue / 0x100_0000 % 0x100;
        green := rgbValue / 0x1_0000 % 0x100;
        blue := rgbValue / 0x100 % 0x100;
        alpha := rgbValue % 0x100;
      }
    } else {
      return None;
    }
    assert HexBytes(hex, alphaFirst) == Some(Bytes(red, green, blue, alpha));
    // `self.init(red: CGFloat(red) / 255, ...)`
    color := Some(ColorOfBytes(Bytes(red, green, blue, alpha)));
  }

  /** Nothing is decoded exactly when the scan fails or the prepared length is neither 6 nor 8. */
  lemma HexRejects(hex: string, alphaFirst: bool)
    ensures HexColor(hex, alphaFirst).None? <==>
            ScanHexInt64(Prepared(hex)).None? || (|Prepared(hex)| != 6 && |Prepared(hex)| != 8)
  {
  }

  /** The byte written by the digit pair at `i` and `i + 1`. */
  function PairAt(s: string, i: nat): (v: nat)
    requires i + 2 <= |s| && AllHexDigits(s)
    ensures v < 256
  {
    PairValue(s[i], s[i + 1]);
    assert s[i..i + 2] == [s[i], s[i + 1]];
    HexValue(s[i..i + 2])
  }

  lemma PairAtDigits(s: string, i: nat)
    requires i + 2 <= |s| && AllHexDigits(s)
    ensures PairAt(s, i) == 16 * DigitValue(s[i]) + DigitValue(s[i + 1])
  {
    PairValue(s[i], s[i + 1]);
    assert s[i..i + 2] == [s[i], s[i + 1]];
  }

  lemma ThreePairs(s: string)
    requires |s| == 6 && AllHexDigits(s)
    ensures HexValue(s) == (PairAt(s, 0) * 0x100 + PairAt(s, 2)) * 0x100 + PairAt(s, 4)
  {
    assert s[..4] == s[0..2] + s[2..4];
    assert s == s[..4] + s[4..6];
    HexValueAppend(s[0..2], s[2..4]);
    HexValueAppend(s[..4], s[4..6]);
    assert Pow16(2) == 0x100;
  }

  lemma FourPairs(s: string)
    requires |s| == 8 && AllHexDigits(s)
    ensures HexValue(s) == ((PairAt(s, 0) * 0x100 + PairAt(s, 2)) * 0x100 + PairAt(s, 4)) * 0x100 + PairAt(s, 6)
  {
    var front, back := s[..6], s[6..8];
    assert s == front + back;
    FrontPairs(s);
    ThreePairs(front);
    AppendPair(front, back);
    assert HexValue(back) == PairAt(s, 6);
  }

  /** Two more digits shift the value by one byte. */
  lemma AppendPair(front: string, back: string)
    requires AllHexDigits(front) && AllHexDigits(back) && |back| == 2
    ensures HexValue(front + back) == HexValue(front) * 0x100 + HexValue(back)
  {
    HexValueAppend(front, back);
    assert Pow16(2) == 0x100;
  }

  /** The first six digits of eight carry the same first three pairs. */
  lemma FrontPairs(s: string)
    requires |s| == 8 && AllHexDigits(s)
    ensures AllHexDigits(s[..6])
    ensures PairAt(s[..6], 0) == PairAt(s, 0) && PairAt(s[..6], 2) == PairAt(s, 2) &&
            PairAt(s[..6], 4) == PairAt(s, 4)
  {
    var front := s[..6];
    assert AllHexDigits(front) by {
      forall i | 0 <= i < 6 ensures IsHexDigit(front[i]) {
        assert front[i] == s[i];
      }
    }
    assert front[0..2] == s[0..2] && front[2..4] == s[2..4] && front[4..6] == s[4..6];
  }

  /** A non-empty digit string is only upper-cased by the preparation. */
  lemma StrippedDigits(s: string)
    requires s != [] && AllHexDigits(s)
    ensures Stripped(s) == Uppercased(s)
  {
    assert IsHexDigit(s[0]) && IsHexDigit(s[|s| - 1]);
    TrimUnchanged(s);
    assert Uppercased(s)[0] == UpperChar(s[0]);
  }

  /** A string of hex digits is its own prepared form, upper-cased, when it is not a shorthand. */
  lemma PreparedDigits(s: string)
    requires AllHexDigits(s) && |s| != 3
    ensures Prepared(s) == Uppercased(s)
  {
    if s != [] {
      StrippedDigits(s);
    } else {
      assert Trim(s) == [];
    }
  }

  lemma ScanDigits(s: string)
    requires AllHexDigits(s) && (|s| == 6 || |s| == 8)
    ensures Prepared(s) == Uppercased(s)
    ensures ScanHexInt64(Prepared(s)) == Some(HexValue(s))
  {
    PreparedDigits(s);
    ScanAllDigits(Uppercased(s));
  }

  /** Shifting and masking a value built from three bytes gives each byte back. */
  lemma ThreeBytes(v: nat, p0: nat, p1: nat, p2: nat)
    requires p0 < 256 && p1 < 256 && p2 < 256
    requires v == (p0 * 0x100 + p1) * 0x100 + p2
    ensures v / 0x1_0000 % 0x100 == p0 && v / 0x100 % 0x100 == p1 && v % 0x100 == p2
  {
    var low := p1 * 0x100 + p2;
    assert v == p0 * 0x1_0000 + low && low < 0x1_0000;
    assert v / 0x1_0000 == p0;
    assert v / 0x100 == p0 * 0x100 + p1;
  }

  /** Shifting and masking a value built from four bytes gives each byte back. */
  lemma FourBytes(v: nat, p0: nat, p1: nat, p2: nat, p3: nat)
    requires p0 < 256 && p1 < 256 && p2 < 256 && p3 < 256
    requires v == ((p0 * 0x100 + p1) * 0x100 + p2) * 0x100 + p3
    ensures v / 0x100_0000 % 0x100 == p0 && v / 0x1_0000 % 0x100 == p1
    ensures v / 0x100 % 0x100 == p2 && v % 0x100 == p3
  {
    var w := (p0 * 0x100 + p1) * 0x100 + p2;
    assert v == w * 0x100 + p3;
    assert v / 0x100 == w;
    assert v % 0x100 == p3;
    ThreeBytes(w, p0, p1, p2);
    assert v / 0x1_0000 == w / 0x100;
    assert v / 0x100_0000 == w / 0x1_0000;
  }

  /** Six digits read as `RRGGBB`, with alpha 255, whatever `alphaFirst` says. */
  lemma SixDigitLayout(s: string, alphaFirst: bool)
    requires |s| == 6 && AllHexDigits(s)
    ensures HexBytes(s, alphaFirst) == Some(Bytes(PairAt(s, 0), PairAt(s, 2), PairAt(s, 4), 255))
  {
    ScanDigits(s);
    ThreePairs(s);
    ThreeBytes(HexValue(s), PairAt(s, 0), PairAt(s, 2), PairAt(s, 4));
  }

  /** Eight digits read as `RRGGBBAA`, or as `AARRGGBB` when `alphaFirst`. */
  lemma EightDigitLayout(s: string, alphaFirst: bool)
    requires |s| == 8 && AllHexDigits(s)
    ensures HexBytes(s, alphaFirst) ==
            if alphaFirst then Some(Bytes(PairAt(s, 2), PairAt(s, 4), PairAt(s, 6), PairAt(s, 0)))
            else Some(Bytes(PairAt(s, 0), PairAt(s, 2), PairAt(s, 4), PairAt(s, 6)))
  {
    ScanDigits(s);
    FourPairs(s);
    FourBytes(HexValue(s), PairAt(s, 0), PairAt(s, 2), PairAt(s, 4), PairAt(s, 6));
  }

  /**
   * A 3-digit shorthand decodes exactly like its doubled 6-digit form: each
   * channel is 17 times its digit.
   */
  lemma ShorthandDoubles(s: string, alphaFirst: bool)
    requires |s| == 3 && AllHexDigits(s)
    ensures HexBytes(s, alphaFirst) == HexBytes([s[0], s[0], s[1], s[1], s[2], s[2]], alphaFirst)
    ensures HexBytes(s, alphaFirst) ==
            Some(Bytes(17 * DigitValue(s[0]), 17 * DigitValue(s[1]), 17 * DigitValue(s[2]), 255))
  {
    var t := [s[0], s[0], s[1], s[1], s[2], s[2]];
    PreparedShorthand(s);
    PreparedDoubled(s);
    SixDigitLayout(t, alphaFirst);
    DoubledPairs(s);
  }

  lemma PreparedShorthand(s: string)
    requires |s| == 3 && AllHexDigits(s)
    ensures Prepared(s) == [UpperChar(s[0]), UpperChar(s[0]), UpperChar(s[1]), UpperChar(s[1]), UpperChar(s[2]), UpperChar(s[2])]
  {
    StrippedDigits(s);
    var u := Uppercased(s);
    assert u[0] == UpperChar(s[0]) && u[1] == UpperChar(s[1]) && u[2] == UpperChar(s[2]);
  }

  lemma PreparedDoubled(s: string)
    requires |s| == 3 && AllHexDigits(s)
    ensures AllHexDigits([s[0], s[0], s[1], s[1], s[2], s[2]])
    ensures Prepared([s[0], s[0], s[1], s[1], s[2], s[2]]) ==
            [UpperChar(s[0]), UpperChar(s[0]), UpperChar(s[1]), UpperChar(s[1]), UpperChar(s[2]), UpperChar(s[2])]
  {
    var t := [s[0], s[0], s[1], s[1], s[2], s[2]];
    DoubledDigits(s);
    PreparedDigits(t);
    UppercasedSix(t);
  }

  lemma DoubledDigits(s: string)
    requires |s| == 3 && AllHexDigits(s)
    ensures AllHexDigits([s[0], s[0], s[1], s[1], s[2], s[2]])
  {
    var t := [s[0], s[0], s[1], s[1], s[2], s[2]];
    assert IsHexDigit(s[0]) && IsHexDigit(s[1]) && IsHexDigit(s[2]);
    forall i | 0 <= i < 6 ensures IsHexDigit(t[i]) {
      if i < 2 { assert t[i] == s[0]; } else if i < 4 { assert t[i] == s[1]; } else { assert t[i] == s[2]; }
    }
  }

  lemma UppercasedSix(t: string)
    requires |t| == 6
    ensures Uppercased(t) == [UpperChar(t[0]), UpperChar(t[1]), UpperChar(t[2]), UpperChar(t[3]), UpperChar(t[4]), UpperChar(t[5])]
  {
    var u := Uppercased(t);
    assert u[0] == UpperChar(t[0]) && u[1] == UpperChar(t[1]) && u[2] == UpperChar(t[2]);
    assert u[3] == UpperChar(t[3]) && u[4] == UpperChar(t[4]) && u[5] == UpperChar(t[5]);
  }

  lemma DoubledPairs(s: string)
    requires |s| == 3 && AllHexDigits(s)
    ensures AllHexDigits([s[0], s[0], s[1], s[1], s[2], s[2]])
    ensures PairAt([s[0], s[0], s[1], s[1], s[2], s[2]], 0) == 17 * DigitValue(s[0])
    ensures PairAt([s[0], s[0], s[1], s[1], s[2], s[2]], 2) == 17 * DigitValue(s[1])
    ensures PairAt([s[0], s[0], s[1], s[1], s[2], s[2]], 4) == 17 * DigitValue(s[2])
  {
    var t := [s[0], s[0], s[1], s[1], s[2], s[2]];
    DoubledDigits(s);
    PairAtDigits(t, 0);
    PairAtDigits(t, 2);
    PairAtDigits(t, 4);
  }

  /** The scan stops at the first non-digit, so a string such as "FFG000" still decodes. */
  lemma PartialScanAccepted(hex: string)
    requires hex == "FFG000"
    ensures HexBytes(hex, false) == Some(Bytes(0, 0, 255, 255))
  {
    PartialPrepared(hex);
    PartialScan(hex);
    PreparedSix(hex, false, 255);
    LowByte(255);
  }

  /** A string prepared to six characters decodes to the bytes of its scanned value. */
  lemma PreparedSix(hex: string, alphaFirst: bool, v: nat)
    requires |Prepared(hex)| == 6 && ScanHexInt64(Prepared(hex)) == Some(v)
    ensures HexBytes(hex, alphaFirst) == Some(Bytes(v / 0x1_0000 % 0x100, v / 0x100 % 0x100, v % 0x100, 255))
  {
  }

  /** A value below 256 has zero upper bytes. */
  lemma LowByte(v: nat)
    requires v < 0x100
    ensures v / 0x1_0000 % 0x100 == 0 && v / 0x100 % 0x100 == 0 && v % 0x100 == v
  {
  }

  lemma PartialPrepared(s: string)
    requires s == "FFG000"
    ensures Prepared(s) == s
  {
    assert UpperChar('F') == 'F' && UpperChar('G') == 'G' && UpperChar('0') == '0';
    PreparedUpper(s);
  }

  /** A six-character string already trimmed and upper-cased, without `#`, is its own prepared form. */
  lemma PreparedUpper(s: string)
    requires |s| == 6 && !IsWhitespace(s[0]) && !IsWhitespace(s[5]) && s[0] != '#'
    requires forall i :: 0 <= i < 6 ==> UpperChar(s[i]) == s[i]
    ensures Prepared(s) == s
  {
    TrimUnchanged(s);
    UppercasedSix(s);
  }

  lemma PartialScan(s: string)
    requires s == "FFG000"
    ensures ScanHexInt64(s) == Some(255)
  {
    assert TrimStart(s) == s by { assert !IsWhitespace(s[0]); }
    assert HexRun(s) == "FF" by {
      assert HexRun(s[2..]) == [];
      assert HexRun(s[1..]) == [s[1]] + HexRun(s[2..]);
    }
    PairValue('F', 'F');
  }

  // ---------------------------------------------------------------------------
  // Formatting
  // ---------------------------------------------------------------------------

  /** `toHex` reads `components[0]` of a grey colour unchecked: it must be there. */
  predicate HexReadable(c: Color)
  {
    c.model == Monochrome && c.components.Some? ==> |c.components.value| >= 1
  }

  /** Every component lies in [0,1], so that each converts to a byte. */
  predicate UnitComponents(comps: seq<real>)
  {
    forall i :: 0 <= i < |comps| ==> 0.0 <= comps[i] <= 1.0
  }

  /**
   * The bytes `toHex` writes: a grey component copied into red, green and
   * blue, or the first three RGB components (0 when fewer than three);
   * alpha from the next component, 255 when there is none. `None` when the
   * colour has no components or another colour-space model.
   */
  function HexChannels(c: Color): (r: Option<Bytes>)
    requires HexReadable(c)
    ensures r.Some? <==> c.components.Some? && c.model != Other
    ensures r.Some? && UnitComponents(c.components.value) ==> InByteRange(r.value)
    ensures r.Some? && c.model == Monochrome ==>
              var comps := c.components.value;
              r.value.red == r.value.green == r.value.blue == ChannelByte(comps[0]) &&
              r.value.alpha == (if |comps| > 1 then ChannelByte(comps[1]) else 255)
    ensures r.Some? && c.model == RGB ==>
              var comps := c.components.value;
              (|comps| >= 3 ==> r.value.red == ChannelByte(comps[0]) && r.value.green == ChannelByte(comps[1]) &&
                                r.value.blue == ChannelByte(comps[2])) &&
              (|comps| < 3 ==> r.value.red == 0 && r.value.green == 0 && r.value.blue == 0) &&
              r.value.alpha == (if |comps| >= 4 then ChannelByte(comps[3]) else 255)
  {
    match c.components
    case None => None
    case Some(comps) =>
      match c.model
      case Monochrome =>
        var gray := ChannelByte(comps[0]);
        Some(Bytes(gray, gray, gray, if |comps| > 1 then ChannelByte(comps[1]) else 255))
      case RGB =>
        Some(Bytes(if |comps| >= 3 then ChannelByte(comps[0]) else 0,
                   if |comps| >= 3 then ChannelByte(comps[1]) else 0,
                   if |comps| >= 3 then ChannelByte(comps[2]) else 0,
                   if |comps| >= 4 then ChannelByte(comps[3]) else 255))
      case Other => None
  }

  /** `%02X%02X%02X`, or `%02X%02X%02X%02X` with the alpha byte last. */
  function Digits(b: Bytes, includeAlpha: bool): string
  {
    Format02X(b.red) + Format02X(b.green) + Format02X(b.blue) + (if includeAlpha then Format02X(b.alpha) else [])
  }

  /** The text with a leading `#` when `prefixed`: the prefix the hex initialiser strips. */
  function WithPrefix(prefixed: bool, s: string): (t: string)
    ensures |t| == |s| + (if prefixed then 1 else 0) && t[|t| - |s|..] == s
    ensures prefixed ==> t[0] == '#'
  {
    if prefixed then "#" + s else s
  }

  /**
   * `t` is a `#` when `prefixed`, then one upper-case digit pair per byte of
   * `b`: red, green, blue and, when `includeAlpha`, alpha.
   */
  predicate WritesBytes(t: string, prefixed: bool, includeAlpha: bool, b: Bytes)
  {
    var k := if prefixed then 1 else 0;
    |t| == k + (if includeAlpha then 8 else 6) && (prefixed ==> t[0] == '#') &&
    AllUpperHexDigits(t[k..]) && AllHexDigits(t[k..]) &&
    PairAt(t[k..], 0) == b.red && PairAt(t[k..], 2) == b.green && PairAt(t[k..], 4) == b.blue &&
    (includeAlpha ==> PairAt(t[k..], 6) == b.alpha)
  }

  /** `toHex(prefixed:includeAlpha:fallback:)` as a value. */
  function HexString(c: Color, prefixed: bool, includeAlpha: bool, fallback: string): string
    requires HexReadable(c)
  {
    match HexChannels(c)
    case None => WithPrefix(prefixed, fallback)
    case Some(b) => WithPrefix(prefixed, Digits(b, includeAlpha))
  }

  /**
   * When the colour has channel bytes, `toHex` writes them, and the hex
   * initialiser reads the text back to them (alpha 255 when it was not
   * written), whether or not the text is prefixed.
   */
  lemma HexStringRoundTrip(c: Color, prefixed: bool, includeAlpha: bool, fallback: string)
    requires HexReadable(c) && HexChannels(c).Some? && InByteRange(HexChannels(c).value)
    ensures var b := HexChannels(c).value;
      var r := HexString(c, prefixed, includeAlpha, fallback);
      WritesBytes(r, prefixed, includeAlpha, b) &&
      HexBytes(r, false) == Some(if includeAlpha then b else b.(alpha := 255))
  {
    var b := HexChannels(c).value;
    WrittenDigits(b, prefixed, includeAlpha);
    PrefixedRoundTrip(b, prefixed, includeAlpha);
  }

  /** `toHex(prefixed:includeAlpha:fallback:)`, filling `red`, `green`, `blue`, `alpha` step by step. */
  method ToHex(c: Color, prefixed: bool, includeAlpha: bool, fallback: string) returns (s: string)
    requires HexReadable(c)
    ensures s == HexString(c, prefixed, includeAlpha, fallback)
  {
    if c.components.None? {
      return if prefixed then "#" + fallback else fallback;
    }
    var components := c.components.value;
    var red, green, blue, alpha := 0, 0, 0, 255;
    match c.model {
      case Monochrome =>
        var gray := ChannelByte(components[0]);
        red, green, blue := gray, gray, gray;
        if |components| > 1 {
          alpha := ChannelByte(components[1]);
        }
      case RGB =>
        if |components| >= 3 {
          red := ChannelByte(components[0]);
          green := ChannelByte(components[1]);
          blue := ChannelByte(components[2]);
        }
        if |components| >= 4 {
          alpha := ChannelByte(components[3]);
        }
      case Other =>
        return if prefixed then "#" + fallback else fallback;
    }
    assert HexChannels(c) == Some(Bytes(red, green, blue, alpha));
    var hexString;
    if includeAlpha {
      hexString := Format02X(red) + Format02X(green) + Format02X(blue) + Format02X(alpha);
    } else {
      hexString := Format02X(red) + Format02X(green) + Format02X(blue);
    }
    s := if prefixed then "#" + hexString else hexString;
  }

  /** The written digits: 6 or 8 upper-case hex digits, each pair one byte. */
  lemma DigitsShape(b: Bytes, includeAlpha: bool)
    requires InByteRange(b)
    ensures var d := Digits(b, includeAlpha);
      |d| == (if includeAlpha then 8 else 6) && AllUpperHexDigits(d) && AllHexDigits(d) &&
      PairAt(d, 0) == b.red && PairAt(d, 2) == b.green && PairAt(d, 4) == b.blue &&
      (includeAlpha ==> PairAt(d, 6) == b.alpha)
  {
    var d := Digits(b, includeAlpha);
    FormatByteRoundTrip(b.red);
    FormatByteRoundTrip(b.green);
    FormatByteRoundTrip(b.blue);
    FormatByteRoundTrip(b.alpha);
    assert d[0..2] == Format02X(b.red);
    assert d[2..4] == Format02X(b.green);
    assert d[4..6] == Format02X(b.blue);
    assert includeAlpha ==> d[6..8] == Format02X(b.alpha);
    assert AllUpperHexDigits(d) by {
      forall i | 0 <= i < |d| ensures IsUpperHexDigit(d[i]) {
        if i < 2 { assert d[i] == d[0..2][i]; }
        else if i < 4 { assert d[i] == d[2..4][i - 2]; }
        else if i < 6 { assert d[i] == d[4..6][i - 4]; }
        else { assert d[i] == d[6..8][i - 6]; }
      }
    }
  }

  /** Formatting then parsing gives the bytes back (alpha 255 when it was not written). */
  lemma FormatThenParse(b: Bytes, includeAlpha: bool)
    requires InByteRange(b)
    ensures HexBytes(Digits(b, includeAlpha), false) ==
            Some(if includeAlpha then b else b.(alpha := 255))
  {
    DigitsShape(b, includeAlpha);
    if includeAlpha {
      EightDigitLayout(Digits(b, includeAlpha), false);
    } else {
      SixDigitLayout(Digits(b, includeAlpha), false);
    }
  }

  /** A colour decoded from hex writes back the bytes it was decoded from. */
  lemma ChannelsOfBytes(b: Bytes)
    requires InByteRange(b)
    ensures HexReadable(ColorOfBytes(b))
    ensures HexChannels(ColorOfBytes(b)) == Some(b)
  {
    ChannelByteOfByte(b.red);
    ChannelByteOfByte(b.green);
    ChannelByteOfByte(b.blue);
    ChannelByteOfByte(b.alpha);
  }

  /** Parsing six digits then formatting gives the digits back, upper-cased. */
  lemma ParseThenFormatSix(s: string, alphaFirst: bool, fallback: string)
    requires |s| == 6 && AllHexDigits(s)
    ensures HexColor(s, alphaFirst).Some?
    ensures HexString(HexColor(s, alphaFirst).value, false, false, fallback) == Uppercased(s)
  {
    SixDigitLayout(s, alphaFirst);
    var b := Bytes(PairAt(s, 0), PairAt(s, 2), PairAt(s, 4), 255);
    WrittenBytes(b, false, fallback);
    SixDigitsBack(s);
  }

  /** Parsing `RRGGBBAA` then formatting with alpha gives the digits back, upper-cased. */
  lemma ParseThenFormatEight(s: string, fallback: string)
    requires |s| == 8 && AllHexDigits(s)
    ensures HexColor(s, false).Some?
    ensures HexString(HexColor(s, false).value, false, true, fallback) == Uppercased(s)
  {
    EightDigitLayout(s, false);
    var b := Bytes(PairAt(s, 0), PairAt(s, 2), PairAt(s, 4), PairAt(s, 6));
    WrittenBytes(b, true, fallback);
    EightDigitsBack(s);
  }

  lemma WrittenBytes(b: Bytes, includeAlpha: bool, fallback: string)
    requires InByteRange(b)
    ensures HexReadable(ColorOfBytes(b))
    ensures HexString(ColorOfBytes(b), false, includeAlpha, fallback) == Digits(b, includeAlpha)
  {
    ChannelsOfBytes(b);
  }

  lemma SixDigitsBack(s: string)
    requires |s| == 6 && AllHexDigits(s)
    ensures Digits(Bytes(PairAt(s, 0), PairAt(s, 2), PairAt(s, 4), 255), false) == Uppercased(s)
  {
    PairsFormatBack(s, 0);
    PairsFormatBack(s, 2);
    PairsFormatBack(s, 4);
    UppercasedSix(s);
  }

  lemma EightDigitsBack(s: string)
    requires |s| == 8 && AllHexDigits(s)
    ensures Digits(Bytes(PairAt(s, 0), PairAt(s, 2), PairAt(s, 4), PairAt(s, 6)), true) == Uppercased(s)
  {
    PairsFormatBack(s, 0);
    PairsFormatBack(s, 2);
    PairsFormatBack(s, 4);
    PairsFormatBack(s, 6);
    DigitsOfPairs(Bytes(PairAt(s, 0), PairAt(s, 2), PairAt(s, 4), PairAt(s, 6)), s);
  }

  lemma DigitsOfPairs(b: Bytes, s: string)
    requires |s| == 8
    requires Format02X(b.red) == [UpperChar(s[0]), UpperChar(s[1])]
    requires Format02X(b.green) == [UpperChar(s[2]), UpperChar(s[3])]
    requires Format02X(b.blue) == [UpperChar(s[4]), UpperChar(s[5])]
    requires Format02X(b.alpha) == [UpperChar(s[6]), UpperChar(s[7])]
    ensures Digits(b, true) == Uppercased(s)
  {
    UppercasedEight(s);
  }

  lemma PairsFormatBack(s: string, i: nat)
    requires i + 2 <= |s| && AllHexDigits(s)
    ensures Format02X(PairAt(s, i)) == [UpperChar(s[i]), UpperChar(s[i + 1])]
  {
    FormatPair(s[i], s[i + 1]);
    assert s[i..i + 2] == [s[i], s[i + 1]];
  }

  lemma UppercasedEight(t: string)
    requires |t| == 8
    ensures Uppercased(t) == [UpperChar(t[0]), UpperChar(t[1]), UpperChar(t[2]), UpperChar(t[3]),
                              UpperChar(t[4]), UpperChar(t[5]), UpperChar(t[6]), UpperChar(t[7])]
  {
    var u := Uppercased(t);
    assert u[0] == UpperChar(t[0]) && u[1] == UpperChar(t[1]) && u[2] == UpperChar(t[2]) && u[3] == UpperChar(t[3]);
    assert u[4] == UpperChar(t[4]) && u[5] == UpperChar(t[5]) && u[6] == UpperChar(t[6]) && u[7] == UpperChar(t[7]);
  }

  /** The system white and black write as `FFFFFF` and `000000` (alpha `FF`). */
  lemma WhiteAndBlackHex(fallback: string)
    ensures HexString(White, false, false, fallback) == "FFFFFF"
    ensures HexString(White, true, true, fallback) == "#FFFFFFFF"
    ensures HexString(Black, false, false, fallback) == "000000"
    ensures HexString(Black, false, true, fallback) == "000000FF"
  {
    assert ChannelByte(0.0) == 0;
    assert Format02X(255) == "FF";
    assert Format02X(0) == "00";
  }

  /** Without usable components or in another colour space, the (prefixed) fallback is written. */
  lemma FallbackWritten(c: Color, prefixed: bool, includeAlpha: bool, fallback: string)
    requires c.components.None? || c.model == Other
    ensures HexString(c, prefixed, includeAlpha, fallback) == WithPrefix(prefixed, fallback)
  {
  }

  /** An RGB colour with fewer than three components writes zero channels. */
  lemma ShortRgbWritesZeros(c: Color, fallback: string)
    requires c.model == RGB && c.components.Some? && |c.components.value| < 3
    ensures HexString(c, false, true, fallback) == "000000FF"
  {
    assert Format02X(255) == "FF";
    assert Format02X(0) == "00";
  }
  /** Written bytes: a `#` when asked for, then one pair per byte. */
  lemma WrittenDigits(b: Bytes, prefixed: bool, includeAlpha: bool)
    requires InByteRange(b)
    ensures WritesBytes(WithPrefix(prefixed, Digits(b, includeAlpha)), prefixed, includeAlpha, b)
  {
    DigitsShape(b, includeAlpha);
    var t := WithPrefix(prefixed, Digits(b, includeAlpha));
    assert t[(if prefixed then 1 else 0)..] == Digits(b, includeAlpha);
  }

  /** The written text, `#` included, parses back to the bytes (alpha 255 when it was not written). */
  lemma PrefixedRoundTrip(b: Bytes, prefixed: bool, includeAlpha: bool)
    requires InByteRange(b)
    ensures HexBytes(WithPrefix(prefixed, Digits(b, includeAlpha)), false) ==
            Some(if includeAlpha then b else b.(alpha := 255))
  {
    var d := Digits(b, includeAlpha);
    DigitsShape(b, includeAlpha);
    PreparedWritten(d, prefixed);
    PreparedWritten(d, false);
    FormatThenParse(b, includeAlpha);
  }

  /** The prefixed digits are prepared to the digits: trimming, upper-casing and expanding keep them. */
  lemma PreparedWritten(d: string, prefixed: bool)
    requires AllUpperHexDigits(d) && (|d| == 6 || |d| == 8)
    ensures Prepared(WithPrefix(prefixed, d)) == d
  {
    var t := WithPrefix(prefixed, d);
    PrefixedChars(d, prefixed);
    TrimUnchanged(t);
    UpperFixed(t);
    assert Stripped(t) == t[(if prefixed then 1 else 0)..];
  }

  /** Every character of the prefixed digits is its own upper case, and neither end is whitespace. */
  lemma PrefixedChars(d: string, prefixed: bool)
    requires AllUpperHexDigits(d) && |d| >= 1
    ensures var t := WithPrefix(prefixed, d);
      !IsWhitespace(t[0]) && !IsWhitespace(t[|t| - 1]) &&
      forall i :: 0 <= i < |t| ==> UpperChar(t[i]) == t[i]
  {
    UpperDigitsFixed(d);
    if prefixed {
      var t := "#" + d;
      assert forall i :: 1 <= i < |t| ==> t[i] == d[i - 1];
      assert UpperChar(t[0]) == t[0];
    }
  }

  /** Upper-case hex digits are their own upper case and are not whitespace. */
  lemma UpperDigitsFixed(d: string)
    requires AllUpperHexDigits(d)
    ensures forall i :: 0 <= i < |d| ==> UpperChar(d[i]) == d[i] && !IsWhitespace(d[i])
  {
    forall i | 0 <= i < |d| ensures UpperChar(d[i]) == d[i] && !IsWhitespace(d[i]) {
      UpperDigitFixed(d[i]);
    }
  }

  lemma UpperDigitFixed(ch: char)
    requires IsUpperHexDigit(ch)
    ensures UpperChar(ch) == ch && !IsWhitespace(ch)
  {
  }

  /**
   * A grey colour writes the byte of its gray component three times, and
   * the byte of its second component (or FF) as alpha.
   */
  lemma GreyWritten(c: Color, prefixed: bool, includeAlpha: bool, fallback: string)
    requires c.model == Monochrome && c.components.Some? && |c.components.value| >= 1
    ensures HexReadable(c)
    ensures var comps := c.components.value;
      var gray := ChannelByte(comps[0]);
      UnitComponents(comps) ==>
        WritesBytes(HexString(c, prefixed, includeAlpha, fallback), prefixed, includeAlpha,
                    Bytes(gray, gray, gray, if |comps| > 1 then ChannelByte(comps[1]) else 255))
  {
    if UnitComponents(c.components.value) {
      HexStringRoundTrip(c, prefixed, includeAlpha, fallback);
    }
  }

  /**
   * An RGB colour with three or more components writes the bytes of
   * components 0, 1 and 2, and of component 3 (or FF) as alpha.
   */
  lemma RgbWritten(c: Color, prefixed: bool, includeAlpha: bool, fallback: string)
    requires c.model == RGB && c.components.Some? && |c.components.value| >= 3
    ensures HexReadable(c)
    ensures var comps := c.components.value;
      UnitComponents(comps) ==>
        WritesBytes(HexString(c, prefixed, includeAlpha, fallback), prefixed, includeAlpha,
                    Bytes(ChannelByte(comps[0]), ChannelByte(comps[1]), ChannelByte(comps[2]),
                          if |comps| >= 4 then ChannelByte(comps[3]) else 255))
  {
    if UnitComponents(c.components.value) {
      HexStringRoundTrip(c, prefixed, includeAlpha, fallback);
    }
  }
}
