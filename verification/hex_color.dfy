/** The colour string both platforms return: `String(format: "#%02X%02X%02X", r, g, b)`. */
module HexColor {
  import opened Wrappers

  /** Red, green and blue channel values as they are handed to the formatter. */
  datatype Rgb = Rgb(red: nat, green: nat, blue: nat)

  /** Every channel fits in 8 bits. */
  predicate IsRgb(c: Rgb) {
    c.red < 256 && c.green < 256 && c.blue < 256
  }

  /** The digits `%X` prints: decimal digits and upper-case A to F. */
  predicate IsHexDigit(c: char) {
    '0' <= c <= '9' || 'A' <= c <= 'F'
  }

  predicate AllHexDigits(s: string) {
    forall i :: 0 <= i < |s| ==> IsHexDigit(s[i])
  }

  function DigitValue(c: char): (v: nat)
    requires IsHexDigit(c)
    ensures v < 16
  {
    if c <= '9' then c as int - '0' as int else c as int - 'A' as int + 10
  }

  function HexDigit(d: nat): (c: char)
    requires d < 16
    ensures IsHexDigit(c) && DigitValue(c) == d
  {
    if d < 10 then ('0' as int + d) as char else ('A' as int + (d - 10)) as char
  }

  /** The number a string of hex digits denotes, most significant digit first. */
  function HexValue(s: string): nat
    requires AllHexDigits(s)
  {
    if s == [] then 0 else 16 * HexValue(s[..|s| - 1]) + DigitValue(s[|s| - 1])
  }

  /** The digits `%X` prints for `v`: at least one, and no leading zero. */
  function HexDigits(v: nat): (s: string)
    ensures 1 <= |s| && AllHexDigits(s) && HexValue(s) == v
    ensures |s| == 1 <==> v < 16
    ensures v < 256 ==> |s| <= 2
    ensures v > 0 ==> s[0] != '0'
  {
    if v < 16 then [HexDigit(v)]
    else
      var high := HexDigits(v / 16);
      var s := high + [HexDigit(v % 16)];
      assert s[..|s| - 1] == high;
      s
  }

  /** `%02X`: the hex digits of `v`, padded on the left with '0' to at least two. */
  function Format02X(v: nat): (s: string)
    ensures 2 <= |s| && AllHexDigits(s) && HexValue(s) == v
    ensures v < 256 <==> |s| == 2
  {
    var digits := HexDigits(v);
    if |digits| < 2 then
      var s := "0" + digits;
      assert s[..1] == "0";
      s
    else digits
  }

  /** The colour string: '#' then two digits each for red, green and blue. */
  function FormatRgb(c: Rgb): (s: string)
    ensures IsRgb(c) ==> IsHexColor(s)
    ensures !IsRgb(c) ==> |s| > 7
  {
    "#" + Format02X(c.red) + Format02X(c.green) + Format02X(c.blue)
  }

  /** A well-formed colour string: exactly seven characters, '#' and six upper-case hex digits. */
  predicate IsHexColor(s: string) {
    |s| == 7 && s[0] == '#' && AllHexDigits(s[1..])
  }

  /** Reads a colour string back; the inverse of `FormatRgb` on 8-bit channels. */
  function ParseRgb(s: string): (r: Option<Rgb>)
    ensures r.Some? <==> IsHexColor(s)
    ensures r.Some? ==> IsRgb(r.value)
  {
    if IsHexColor(s) then
      Some(Rgb(PairValue(s[1..3]), PairValue(s[3..5]), PairValue(s[5..7])))
    else None
  }

  function PairValue(t: string): (v: nat)
    requires |t| == 2 && AllHexDigits(t)
    ensures v < 256 && v == HexValue(t)
  {
    assert t[..1] == [t[0]] && t[..1][..0] == [];
    assert HexValue(t[..1]) == DigitValue(t[0]);
    16 * DigitValue(t[0]) + DigitValue(t[1])
  }

  /** The colour returned whenever no pixel can be read. */
  const Fallback: string := "#808080"

  /** Two-digit rendering of a byte: high nibble, then low nibble. */
  lemma Format02XOfByte(v: nat)
    requires v < 256
    ensures Format02X(v) == [HexDigit(v / 16), HexDigit(v % 16)]
  {
    if v >= 16 {
      assert HexDigits(v / 16) == [HexDigit(v / 16)];
    }
  }

  /** Formatting then parsing gives the channels back. */
  lemma ParseFormatRoundTrip(c: Rgb)
    requires IsRgb(c)
    ensures ParseRgb(FormatRgb(c)) == Some(c)
  {
    var s := FormatRgb(c);
    assert s[1..3] == Format02X(c.red);
    assert s[3..5] == Format02X(c.green);
    assert s[5..7] == Format02X(c.blue);
  }

  /** Two hex digits are exactly what `%02X` prints for the value they denote. */
  lemma PairRoundTrip(t: string)
    requires |t| == 2 && AllHexDigits(t)
    ensures Format02X(PairValue(t)) == t
  {
    var v := PairValue(t);
    Format02XOfByte(v);
    assert v / 16 == DigitValue(t[0]) && v % 16 == DigitValue(t[1]);
    assert HexDigit(DigitValue(t[0])) == t[0];
    assert HexDigit(DigitValue(t[1])) == t[1];
  }

  /** Every well-formed colour string is the rendering of the colour it parses to. */
  lemma FormatParseRoundTrip(s: string)
    requires ParseRgb(s).Some?
    ensures FormatRgb(ParseRgb(s).value) == s
  {
    PairRoundTrip(s[1..3]);
    PairRoundTrip(s[3..5]);
    PairRoundTrip(s[5..7]);
    assert s == s[..1] + s[1..3] + s[3..5] + s[5..7];
  }

  /** Distinct 8-bit colours render to distinct strings. */
  lemma FormatRgbInjective(c: Rgb, d: Rgb)
    requires IsRgb(c) && IsRgb(d) && FormatRgb(c) == FormatRgb(d)
    ensures c == d
  {
    ParseFormatRoundTrip(c);
    ParseFormatRoundTrip(d);
  }

  /** The fallback is itself a well-formed colour: mid grey, indistinguishable from a real grey pixel. */
  lemma FallbackIsGrey()
    ensures FormatRgb(Rgb(128, 128, 128)) == Fallback
    ensures ParseRgb(Fallback) == Some(Rgb(128, 128, 128))
  {
    Format02XOfByte(128);
    ParseFormatRoundTrip(Rgb(128, 128, 128));
  }
}
