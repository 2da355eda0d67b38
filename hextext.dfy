/**
 * The string-level pieces the hex codec relies on: the whitespace set that
 * `trimmingCharacters(in: .whitespacesAndNewlines)` removes, ASCII
 * upper-casing, Foundation's `Scanner.scanHexInt64` and the `%02X` format.
 */
module HexText {
  import opened Wrappers

  /** The value of the largest `UInt64`. */
  const UInt64Max: nat := 0xFFFF_FFFF_FFFF_FFFF

  /** `%X` formats a 32-bit unsigned integer. */
  const Modulus32: nat := 0x1_0000_0000

  // ---------------------------------------------------------------------------
  // Characters
  // ---------------------------------------------------------------------------

  /** Unicode category Zs, U+0009 and the newlines U+000A-U+000D, U+0085, U+2028, U+2029. */
  predicate IsWhitespace(ch: char)
  {
    var c := ch as int;
    (0x09 <= c <= 0x0D) || c == 0x20 || c == 0x85 || c == 0xA0 || c == 0x1680 ||
    (0x2000 <= c <= 0x200A) || c == 0x2028 || c == 0x2029 || c == 0x202F ||
    c == 0x205F || c == 0x3000
  }

  predicate IsHexDigit(ch: char)
  {
    ('0' <= ch <= '9') || ('A' <= ch <= 'F') || ('a' <= ch <= 'f')
  }

  predicate IsUpperHexDigit(ch: char)
  {
    ('0' <= ch <= '9') || ('A' <= ch <= 'F')
  }

  predicate AllHexDigits(s: string)
  {
    forall i :: 0 <= i < |s| ==> IsHexDigit(s[i])
  }

  predicate AllUpperHexDigits(s: string)
  {
    forall i :: 0 <= i < |s| ==> IsUpperHexDigit(s[i])
  }

  function DigitValue(ch: char): (v: nat)
    requires IsHexDigit(ch)
    ensures v < 16
    ensures ('0' <= ch <= '9') <==> v < 10
  {
    if '0' <= ch <= '9' then ch as int - '0' as int
    else if 'A' <= ch <= 'F' then ch as int - 'A' as int + 10
    else ch as int - 'a' as int + 10
  }

  /** The upper-case digit for a value below 16. */
  function UpperDigit(v: nat): (ch: char)
    requires v < 16
    ensures IsUpperHexDigit(ch) && DigitValue(ch) == v
  {
    if v < 10 then ('0' as int + v) as char else ('A' as int + v - 10) as char
  }

  /** ASCII upper-casing; every other character is left as it is. */
  function UpperChar(ch: char): (u: char)
    ensures IsHexDigit(ch) ==> IsUpperHexDigit(u) && DigitValue(u) == DigitValue(ch)
    ensures !IsHexDigit(ch) ==> !IsHexDigit(u)
    ensures IsWhitespace(ch) <==> IsWhitespace(u)
    ensures ch == '#' <==> u == '#'
  {
    if 'a' <= ch <= 'z' then (ch as int - 32) as char else ch
  }

  /**
   * `uppercased()`, character by character. A string of hex digits becomes
   * a string of upper-case hex digits that reads to the same value.
   */
  function Uppercased(s: string): (t: string)
    ensures |t| == |s|
    ensures forall i :: 0 <= i < |s| ==> t[i] == UpperChar(s[i])
    ensures AllHexDigits(s) ==> AllUpperHexDigits(t) && AllHexDigits(t) && HexValue(t) == HexValue(s)
  {
    var t := seq(|s|, i requires 0 <= i < |s| => UpperChar(s[i]));
    if AllHexDigits(s) then UpperDigits(s, t); t else t
  }

  /** Mapping `UpperChar` over a digit string keeps its value, by induction on the string. */
  lemma {:induction false} UpperDigits(s: string, t: string)
    requires AllHexDigits(s) && |t| == |s|
    requires forall i :: 0 <= i < |s| ==> t[i] == UpperChar(s[i])
    ensures AllUpperHexDigits(t) && AllHexDigits(t) && HexValue(t) == HexValue(s)
  {
    if s != [] {
      var s', t' := s[..|s| - 1], t[..|t| - 1];
      UpperDigits(s', t');
    }
  }

  /** A string whose characters are their own upper case is left unchanged by upper-casing. */
  lemma UpperFixed(s: string)
    requires forall i :: 0 <= i < |s| ==> UpperChar(s[i]) == s[i]
    ensures Uppercased(s) == s
  {
  }

  lemma UpperDigitOfValue(ch: char)
    requires IsHexDigit(ch)
    ensures UpperDigit(DigitValue(ch)) == UpperChar(ch)
  {
  }

  // ---------------------------------------------------------------------------
  // Trimming
  // ---------------------------------------------------------------------------

  function TrimStart(s: string): (t: string)
    ensures |t| <= |s| && t == s[|s| - |t|..]
    ensures t == [] || !IsWhitespace(t[0])
    ensures forall i :: 0 <= i < |s| - |t| ==> IsWhitespace(s[i])
  {
    if s != [] && IsWhitespace(s[0]) then
      var t := TrimStart(s[1..]);
      LeadingStep(s, t);
      t
    else s
  }

  /** A suffix of `s[1..]` after a run of whitespace is one of `s` when `s[0]` is whitespace too. */
  lemma {:induction false} LeadingStep(s: string, t: string)
    requires s != [] && IsWhitespace(s[0])
    requires |t| <= |s| - 1 && t == s[1..][|s| - 1 - |t|..]
    requires forall i :: 0 <= i < |s| - 1 - |t| ==> IsWhitespace(s[1..][i])
    ensures t == s[|s| - |t|..]
    ensures forall i :: 0 <= i < |s| - |t| ==> IsWhitespace(s[i])
  {
    forall i | 1 <= i < |s| - |t| ensures IsWhitespace(s[i]) {
      assert s[i] == s[1..][i - 1];
    }
  }

  function TrimEnd(s: string): (t: string)
    ensures |t| <= |s| && t == s[..|t|]
    ensures t == [] || !IsWhitespace(t[|t| - 1])
    ensures forall i :: |t| <= i < |s| ==> IsWhitespace(s[i])
  {
    if s != [] && IsWhitespace(s[|s| - 1]) then TrimEnd(s[..|s| - 1]) else s
  }

  /**
   * `trimmingCharacters(in: .whitespacesAndNewlines)`: the part of `s` left
   * after the whitespace at both ends, `s[k..k + |t|]` where `k` is the
   * length of the leading whitespace.
   */
  function Trim(s: string): (t: string)
    ensures t == [] || (!IsWhitespace(t[0]) && !IsWhitespace(t[|t| - 1]))
    ensures |s| - |TrimStart(s)| + |t| <= |s|
    ensures t == s[|s| - |TrimStart(s)|..|s| - |TrimStart(s)| + |t|]
    ensures forall i :: 0 <= i < |s| - |TrimStart(s)| ==> IsWhitespace(s[i])
    ensures forall i :: |s| - |TrimStart(s)| + |t| <= i < |s| ==> IsWhitespace(s[i])
  {
    var u := TrimStart(s);
    var t := TrimEnd(u);
    TrimShape(s, u, t);
    t
  }

  /**
   * A suffix `u` of `s` after leading whitespace, and a prefix `t` of `u`
   * before trailing whitespace: `t` is the slice between the two runs.
   */
  lemma {:induction false} TrimShape(s: string, u: string, t: string)
    requires |u| <= |s| && u == s[|s| - |u|..]
    requires u == [] || !IsWhitespace(u[0])
    requires forall i :: 0 <= i < |s| - |u| ==> IsWhitespace(s[i])
    requires |t| <= |u| && t == u[..|t|]
    requires t == [] || !IsWhitespace(t[|t| - 1])
    requires forall i :: |t| <= i < |u| ==> IsWhitespace(u[i])
    ensures t == [] || (!IsWhitespace(t[0]) && !IsWhitespace(t[|t| - 1]))
    ensures |s| - |u| + |t| <= |s|
    ensures t == s[|s| - |u|..|s| - |u| + |t|]
    ensures forall i :: 0 <= i < |s| - |u| ==> IsWhitespace(s[i])
    ensures forall i :: |s| - |u| + |t| <= i < |s| ==> IsWhitespace(s[i])
  {
    var k := |s| - |u|;
    if t != [] {
      assert t[0] == u[0];
    }
    SliceOfSuffix(s, k, |t|);
    forall i | k + |t| <= i < |s| ensures IsWhitespace(s[i]) {
      assert s[i] == u[i - k];
    }
  }

  lemma SliceOfSuffix(s: string, k: nat, n: nat)
    requires k + n <= |s|
    ensures s[k..][..n] == s[k..k + n]
  {
  }

  lemma TrimUnchanged(s: string)
    requires s == [] || (!IsWhitespace(s[0]) && !IsWhitespace(s[|s| - 1]))
    ensures Trim(s) == s
  {
  }

  // ---------------------------------------------------------------------------
  // Scanner.scanHexInt64
  // ---------------------------------------------------------------------------

  /** The longest prefix of `s` made of hex digits. */
  function HexRun(s: string): (run: string)
    ensures run <= s && AllHexDigits(run)
    ensures |run| < |s| ==> !IsHexDigit(s[|run|])
  {
    if s != [] && IsHexDigit(s[0]) then [s[0]] + HexRun(s[1..]) else []
  }

  /** The value of a string of hex digits, most significant digit first. */
  function HexValue(digits: string): nat
    requires AllHexDigits(digits)
  {
    if digits == [] then 0
    else HexValue(digits[..|digits| - 1]) * 16 + DigitValue(digits[|digits| - 1])
  }

  function Pow16(n: nat): (p: nat)
    ensures p >= 1
  {
    if n == 0 then 1 else 16 * Pow16(n - 1)
  }

  lemma {:induction false} HexValueBound(digits: string)
    requires AllHexDigits(digits)
    ensures HexValue(digits) < Pow16(|digits|)
  {
    if digits != [] {
      HexValueBound(digits[..|digits| - 1]);
    }
  }

  /** Reading `a + b` is reading `a`, shifting it by the digits of `b`, and adding `b`. */
  lemma {:induction false} HexValueAppend(a: string, b: string)
    requires AllHexDigits(a) && AllHexDigits(b)
    ensures AllHexDigits(a + b)
    ensures HexValue(a + b) == HexValue(a) * Pow16(|b|) + HexValue(b)
  {
    var ab := a + b;
    assert AllHexDigits(ab) by {
      forall i | 0 <= i < |ab| ensures IsHexDigit(ab[i]) {
        if i < |a| { assert ab[i] == a[i]; } else { assert ab[i] == b[i - |a|]; }
      }
    }
    if b == [] {
      assert ab == a;
    } else {
      var b' := b[..|b| - 1];
      var d := DigitValue(b[|b| - 1]);
      assert ab[..|ab| - 1] == a + b';
      assert ab[|ab| - 1] == b[|b| - 1];
      HexValueAppend(a, b');
      ShiftDigit(HexValue(a), Pow16(|b'|), HexValue(b'), d);
    }
  }

  /** One more digit multiplies the shifted prefix by 16 again. */
  lemma ShiftDigit(x: nat, p: nat, y: nat, d: nat)
    ensures (x * p + y) * 16 + d == x * (p * 16) + (y * 16 + d)
  {
    assert (x * p) * 16 == x * (p * 16);
  }

  /** A digit pair read as one byte. */
  lemma PairValue(c0: char, c1: char)
    requires IsHexDigit(c0) && IsHexDigit(c1)
    ensures AllHexDigits([c0, c1])
    ensures HexValue([c0, c1]) == 16 * DigitValue(c0) + DigitValue(c1)
  {
    assert [c0, c1][..1] == [c0];
    assert [c0][..0] == [];
    assert HexValue([c0]) == DigitValue(c0);
  }

  /**
   * `scanHexInt64`: skip leading whitespace (the scanner's default
   * `charactersToBeSkipped`), skip an optional `0X`/`0x`, then read the
   * maximal run of hex digits; fail if the run is empty. A value past the
   * range of `UInt64` reads as `UInt64.max`.
   */
  function ScanHexInt64(s: string): (r: Option<nat>)
    ensures r.Some? ==> r.value <= UInt64Max
  {
    var t := TrimStart(s);
    var u := if |t| >= 2 && t[0] == '0' && (t[1] == 'X' || t[1] == 'x') then t[2..] else t;
    var run := HexRun(u);
    if run == [] then None
    else if HexValue(run) > UInt64Max then Some(UInt64Max)
    else Some(HexValue(run))
  }

  /** A scan reads no more digits than the string holds, so its value is below 16 to the length. */
  lemma {:induction false} ScanBound(s: string)
    requires ScanHexInt64(s).Some?
    ensures ScanHexInt64(s).value < Pow16(|s|)
  {
    var t := TrimStart(s);
    var u := if |t| >= 2 && t[0] == '0' && (t[1] == 'X' || t[1] == 'x') then t[2..] else t;
    var run := HexRun(u);
    assert |run| <= |s|;
    RunBound(run, |s|);
  }

  /** A run of at most `n` digits is below 16 to the `n`. */
  lemma RunBound(run: string, n: nat)
    requires AllHexDigits(run) && |run| <= n
    ensures HexValue(run) < Pow16(n)
  {
    HexValueBound(run);
    Pow16Monotone(|run|, n);
  }

  /** A string made only of hex digits scans completely, to its own value. */
  lemma ScanAllDigits(s: string)
    requires s != [] && AllHexDigits(s) && |s| <= 8
    ensures ScanHexInt64(s) == Some(HexValue(s))
  {
    assert !IsWhitespace(s[0]);
    assert TrimStart(s) == s;
    assert !(|s| >= 2 && s[0] == '0' && (s[1] == 'X' || s[1] == 'x')) by {
      if |s| >= 2 { assert IsHexDigit(s[1]); }
    }
    HexRunAll(s);
    HexValueBound(s);
    Pow16Bound(|s|);
    assert HexValue(s) <= UInt64Max;
  }

  lemma {:induction false} HexRunAll(s: string)
    requires AllHexDigits(s)
    ensures HexRun(s) == s
  {
    if s != [] {
      HexRunAll(s[1..]);
    }
  }

  lemma Pow16Bound(n: nat)
    requires n <= 8
    ensures Pow16(n) <= 0x1_0000_0000
  {
    assert Pow16(2) == 0x100;
    assert Pow16(4) == 0x1_0000;
    assert Pow16(6) == 0x100_0000;
    assert Pow16(8) == 0x1_0000_0000;
    Pow16Monotone(n, 8);
  }

  lemma {:induction false} Pow16Monotone(m: nat, n: nat)
    requires m <= n
    ensures Pow16(m) <= Pow16(n)
  {
    if m < n {
      Pow16Monotone(m, n - 1);
    }
  }

  // ---------------------------------------------------------------------------
  // String(format: "%02X", v)
  // ---------------------------------------------------------------------------

  /** The shortest upper-case hex numeral of `v` ("0" for zero). */
  function HexNumeral(v: nat): (s: string)
    ensures |s| >= 1 && AllUpperHexDigits(s)
    decreases v
  {
    if v < 16 then [UpperDigit(v)] else HexNumeral(v / 16) + [UpperDigit(v % 16)]
  }

  /**
   * `%02X`: the argument taken as a 32-bit unsigned integer, in upper-case
   * hex, left-padded with `0` to two digits.
   */
  function Format02X(v: int): (s: string)
    ensures |s| >= 2 && AllUpperHexDigits(s)
    ensures 0 <= v < 256 ==> s == [UpperDigit(v / 16), UpperDigit(v % 16)]
  {
    var u := v % Modulus32;
    assert 0 <= v < 256 ==> u == v && (v < 16 ==> v / 16 == 0 && v % 16 == v);
    var d := HexNumeral(u);
    assert 16 <= u < 256 ==> d == HexNumeral(u / 16) + [UpperDigit(u % 16)] && HexNumeral(u / 16) == [UpperDigit(u / 16)];
    if |d| < 2 then ['0'] + d else d
  }

  /** A byte formats to two digits that read back as the byte. */
  lemma FormatByteRoundTrip(v: int)
    requires 0 <= v < 256
    ensures |Format02X(v)| == 2 && AllHexDigits(Format02X(v))
    ensures HexValue(Format02X(v)) == v
  {
    PairValue(UpperDigit(v / 16), UpperDigit(v % 16));
  }

  /** Formatting the value of a digit pair gives the pair back, upper-cased. */
  lemma FormatPair(c0: char, c1: char)
    requires IsHexDigit(c0) && IsHexDigit(c1)
    ensures AllHexDigits([c0, c1])
    ensures Format02X(HexValue([c0, c1])) == [UpperChar(c0), UpperChar(c1)]
  {
    PairValue(c0, c1);
    var v := 16 * DigitValue(c0) + DigitValue(c1);
    assert v / 16 == DigitValue(c0) && v % 16 == DigitValue(c1);
    UpperDigitOfValue(c0);
    UpperDigitOfValue(c1);
  }
}
