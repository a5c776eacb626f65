/**
 A colour written in each syntax (Source/Editor/ColorLiteral.cpp:499-583, 698-780), and what scanning the
 text gives back.
 */
module ColorFormat {
  import opened Common
  import opened Decimal
  import opened ColorSpace
  import opened HueNotation
  import opened DecimalText
  import opened NamedColors
  import opened ColorTokens
  import opened ColorScan

  // ---- bytes ----

  type Byte = x: nat | x < 256

  lemma ByteInRange(x: real)
    requires Unit(x)
    ensures 0 <= ByteOf(x) < 256
  {
  }

  function ChannelByte(x: real): Byte
    requires Unit(x)
  {
    ByteInRange(x);
    ByteOf(x)
  }

  predicate IsOpaque(c: ColorValue)
    requires Unit(c.alpha)
  {
    ChannelByte(c.alpha) == 255
  }

  function HexChar(n: nat): char
    requires n < 16
  {
    "0123456789abcdef"[n]
  }

  function Hex2(b: Byte): string {
    [HexChar(b / 16), HexChar(b % 16)]
  }

  predicate NibblesRepeat(b: Byte) {
    b / 16 == b % 16
  }

  // ---- formatting ----

  predicate Drawable(c: ColorValue) {
    InGamut(c) && Unit(c.alpha)
  }

  predicate ReadsAsByte(text: string, byte: int, number: NumberReader) {
    var parsed := number(text);
    parsed.Some? && ByteOf(parsed.value.value) == byte
  }

  /** The first of so many decimals at which the printed alpha reads back as the same byte, or the last. */
  function PlacesFrom(alpha: real, decimals: nat, last: nat, number: NumberReader): (d: nat)
    requires Unit(alpha) && decimals <= last
    ensures decimals <= d <= last
    ensures d < last ==> ReadsAsByte(FormatDouble(alpha, d), ByteOf(alpha), number)
    decreases last - decimals
  {
    if decimals == last || ReadsAsByte(FormatDouble(alpha, decimals), ByteOf(alpha), number) then decimals
    else PlacesFrom(alpha, decimals + 1, last, number)
  }

  function AlphaPlaces(alpha: real, number: NumberReader): (d: nat)
    requires Unit(alpha)
    ensures 1 <= d <= 4
  {
    PlacesFrom(alpha, 1, 4, number)
  }

  function FormatAlpha(alpha: real, number: NumberReader): string
    requires Unit(alpha)
  {
    FormatDouble(alpha, AlphaPlaces(alpha, number))
  }

  method ChooseAlpha(alpha: real, number: NumberReader) returns (text: string)
    requires Unit(alpha)
    ensures text == FormatAlpha(alpha, number)
  {
    text := ChoosePlaces(alpha, 1, 4, number);
  }

  method ChoosePlaces(alpha: real, first: nat, last: nat, number: NumberReader) returns (text: string)
    requires Unit(alpha) && first <= last
    ensures text == FormatDouble(alpha, PlacesFrom(alpha, first, last, number))
  {
    var target, decimals := ByteOf(alpha), first;
    while decimals < last && !ReadsAsByte(FormatDouble(alpha, decimals), target, number)
      invariant first <= decimals <= last
        && PlacesFrom(alpha, decimals, last, number) == PlacesFrom(alpha, first, last, number)
    {
      decimals := decimals + 1;
    }
    text := FormatDouble(alpha, decimals);
  }

  function HexDigits(c: ColorValue, withAlpha: bool): string
    requires Drawable(c)
  {
    Hex2(ChannelByte(c.red)) + Hex2(ChannelByte(c.green)) + Hex2(ChannelByte(c.blue))
      + if withAlpha then Hex2(ChannelByte(c.alpha)) else ""
  }

  predicate AllRepeat(c: ColorValue, withAlpha: bool)
    requires Drawable(c)
  {
    && NibblesRepeat(ChannelByte(c.red)) && NibblesRepeat(ChannelByte(c.green)) && NibblesRepeat(ChannelByte(c.blue))
    && (withAlpha ==> NibblesRepeat(ChannelByte(c.alpha)))
  }

  function ShortDigits(c: ColorValue, withAlpha: bool): string
    requires Drawable(c)
  {
    [HexChar(ChannelByte(c.red) % 16), HexChar(ChannelByte(c.green) % 16), HexChar(ChannelByte(c.blue) % 16)]
    + if withAlpha then [HexChar(ChannelByte(c.alpha) % 16)] else ""
  }

  function FourCommas(a: string, b: string, c: string, d: string): string {
    a + (", " + (b + (", " + (c + (", " + (d + ""))))))
  }

  function Three(a: string, b: string, c: string, gap: string): string {
    a + (gap + (b + (gap + (c + ""))))
  }

  function Slashed(a: string, b: string, c: string, d: string): string {
    a + (" " + (b + (" " + (c + (" / " + (d + ""))))))
  }

  function Call(name: string, inner: string): string {
    name + ("(" + (inner + ")"))
  }

  function RgbText(c: ColorValue, withAlpha: bool, number: NumberReader): string
    requires Drawable(c)
  {
    var r, g, b := Print(ChannelByte(c.red)), Print(ChannelByte(c.green)), Print(ChannelByte(c.blue));
    if withAlpha then Call("rgba", FourCommas(r, g, b, FormatAlpha(c.alpha, number)))
    else Call("rgb", Three(r, g, b, ", "))
  }

  /** The three printed components of a hue notation. */
  datatype HueTexts = HueTexts(hue: string, first: string, second: string)

  lemma PartsPositive(c: ColorValue, isHwb: bool)
    requires Drawable(c)
    ensures InRange(ComponentsOf(c, isHwb))
  {
    if isHwb {
      HwbParts(c);
    } else {
      HslParts(c);
    }
  }

  /** The three printed texts, all with so many decimals. */
  function TextsOf(hue: real, first: real, second: real, decimals: nat): HueTexts
    requires hue >= 0.0 && first >= 0.0 && second >= 0.0
  {
    HueTexts(FormatDouble(hue, decimals), FormatDouble(first, decimals) + "%", FormatDouble(second, decimals) + "%")
  }

  predicate InRange(parts: HueComponents) {
    0.0 <= parts.hue <= 360.0 && Round(parts.hue) >= 0 && Unit(parts.first) && Unit(parts.second)
  }

  function PrintParts(parts: HueComponents, whole: bool): HueTexts
    requires InRange(parts)
  {
    if whole then TextsOf(Round(parts.hue) as real, parts.first * 100.0, parts.second * 100.0, 0)
    else TextsOf(parts.hue, parts.first * 100.0, parts.second * 100.0, 2)
  }

  function HueTextsOf(c: ColorValue, isHwb: bool): HueTexts
    requires Drawable(c)
  {
    PartsPositive(c, isHwb);
    PrintParts(ComponentsOf(c, isHwb), RoundTripsAtWholeNumbers(c, ComponentsOf(c, isHwb), isHwb))
  }

  function FormatHueNotation(c: ColorValue, isHwb: bool, withAlpha: bool, number: NumberReader): string
    requires Drawable(c)
  {
    var t := HueTextsOf(c, isHwb);
    if isHwb then
      Call("hwb", if withAlpha then Slashed(t.hue, t.first, t.second, FormatAlpha(c.alpha, number))
        else Three(t.hue, t.first, t.second, " "))
    else if withAlpha then Call("hsla", FourCommas(t.hue, t.first, t.second, FormatAlpha(c.alpha, number)))
    else Call("hsl", Three(t.hue, t.first, t.second, ", "))
  }

  function NamedText(c: ColorValue, table: seq<NamedColor>): Option<string>
    requires Drawable(c)
  {
    if !IsOpaque(c) then
      if ChannelByte(c.alpha) == 0 && ChannelByte(c.red) == 0 && ChannelByte(c.green) == 0
        && ChannelByte(c.blue) == 0 then Some(TRANSPARENT) else None
    else NameOf(table, Packed(ChannelByte(c.red), ChannelByte(c.green), ChannelByte(c.blue)))
  }

  function FormatColor(c: ColorValue, syntax: Syntax, options: Options): Option<string>
    requires Drawable(c)
  {
    match syntax
    case Hex => if IsOpaque(c) then Some("#" + HexDigits(c, false)) else None
    case HexAlpha => Some("#" + HexDigits(c, true))
    case HexShort => if IsOpaque(c) && AllRepeat(c, false) then Some("#" + ShortDigits(c, false)) else None
    case HexShortAlpha => if AllRepeat(c, true) then Some("#" + ShortDigits(c, true)) else None
    case Rgb => if IsOpaque(c) then Some(RgbText(c, false, options.number)) else None
    case Rgba => Some(RgbText(c, true, options.number))
    case Hsl => if IsOpaque(c) then Some(FormatHueNotation(c, false, false, options.number)) else None
    case Hsla => Some(FormatHueNotation(c, false, true, options.number))
    case Hwb => Some(FormatHueNotation(c, true, !IsOpaque(c), options.number))
    case Named => NamedText(c, options.table)
  }

  // ---- what a reader of the text sees ----

  function OfBytes(c: ColorValue, alpha: real): ColorValue
    requires Drawable(c)
  {
    ColorValue(ChannelByte(c.red) as real / 255.0, ChannelByte(c.green) as real / 255.0,
      ChannelByte(c.blue) as real / 255.0, alpha)
  }

  /** The printed alpha. */
  function ReadAlpha(alpha: real, number: NumberReader): real
    requires Unit(alpha)
  {
    Units(alpha, AlphaPlaces(alpha, number)) as real / Tens(AlphaPlaces(alpha, number))
  }

  function Reread(c: ColorValue, syntax: Syntax, number: NumberReader): ColorValue
    requires Drawable(c)
  {
    match syntax
    case Hex => OfBytes(c, 1.0)
    case HexShort => OfBytes(c, 1.0)
    case HexAlpha => OfBytes(c, ChannelByte(c.alpha) as real / 255.0)
    case HexShortAlpha => OfBytes(c, ChannelByte(c.alpha) as real / 255.0)
    case Rgb => OfBytes(c, 1.0)
    case Rgba => OfBytes(c, ReadAlpha(c.alpha, number))
    case Hsl => ReadBack(Printed(c, ComponentsOf(c, false), false), false, 1.0)
    case Hsla => ReadBack(Printed(c, ComponentsOf(c, false), false), false, ReadAlpha(c.alpha, number))
    case Hwb =>
      ReadBack(Printed(c, ComponentsOf(c, true), true), true,
               if IsOpaque(c) then 1.0 else ReadAlpha(c.alpha, number))
    case Named => OfBytes(c, if IsOpaque(c) then 1.0 else 0.0)
  }

  predicate Admits(options: Options, syntax: Syntax) {
    match syntax
    case HexShort => options.shortHex
    case HexShortAlpha => options.shortHex
    case Named => options.namedColors
    case _ => true
  }

  // ---- hexadecimal ----

  predicate AllHex(digits: string) {
    forall i :: 0 <= i < |digits| ==> IsHexDigit(digits[i])
  }

  lemma {:induction false} HexRunsOut(text: string, i: nat)
    requires i <= |text| && forall k :: i <= k < |text| ==> IsHexDigit(text[k])
    ensures HexEnd(text, i) == |text|
    decreases |text| - i
  {
    if i < |text| {
      HexRunsOut(text, i + 1);
    }
  }

  lemma HexScans(digits: string, lang: Language)
    requires AllHex(digits) && HexSyntax(|digits|, lang).Some?
    ensures Sole(ScanFrom("#" + digits, 0, lang), 1 + |digits|, HexToColor(digits), HexSyntax(|digits|, lang).value)
  {
    var text := "#" + digits;
    HexRunsOut(text, 1);
    assert text[1..] == digits;
    assert TurnAt(text, 0, lang) == HexTurn(text, 0, lang);
    OneTurn(text, lang);
  }

  lemma HexCharReads(n: nat)
    requires n < 16
    ensures IsHexDigit(HexChar(n)) && HexValue(HexChar(n)) == n
  {
  }

  lemma ByteReads(b: Byte)
    ensures AllHex(Hex2(b)) && HexValue(Hex2(b)[0]) * 16 + HexValue(Hex2(b)[1]) == b
  {
    HexCharReads(b / 16);
    HexCharReads(b % 16);
  }

  lemma DigitsRead(a: Byte, b: Byte, c: Byte, d: Byte, withAlpha: bool)
    ensures var digits := Hex2(a) + Hex2(b) + Hex2(c) + if withAlpha then Hex2(d) else "";
      && AllHex(digits) && |digits| == (if withAlpha then 8 else 6)
      && HexToColor(digits) ==
         ColorValue(a as real / 255.0, b as real / 255.0, c as real / 255.0,
                    if withAlpha then d as real / 255.0 else 1.0)
  {
    ByteReads(a);
    ByteReads(b);
    ByteReads(c);
    ByteReads(d);
    var digits := Hex2(a) + Hex2(b) + Hex2(c) + if withAlpha then Hex2(d) else "";
    assert digits[0..2] == Hex2(a) && digits[2..4] == Hex2(b) && digits[4..6] == Hex2(c);
    assert withAlpha ==> digits[6..8] == Hex2(d);
  }

  lemma ShortReads(a: Byte, b: Byte, c: Byte, d: Byte, withAlpha: bool)
    requires NibblesRepeat(a) && NibblesRepeat(b) && NibblesRepeat(c) && (withAlpha ==> NibblesRepeat(d))
    ensures var digits := [HexChar(a % 16), HexChar(b % 16), HexChar(c % 16)]
      + if withAlpha then [HexChar(d % 16)] else "";
      && AllHex(digits) && |digits| == (if withAlpha then 4 else 3)
      && HexToColor(digits) ==
         ColorValue(a as real / 255.0, b as real / 255.0, c as real / 255.0,
                    if withAlpha then d as real / 255.0 else 1.0)
  {
    HexCharReads(a % 16);
    HexCharReads(b % 16);
    HexCharReads(c % 16);
    HexCharReads(d % 16);
  }

  lemma LongHexScans(c: ColorValue, withAlpha: bool, lang: Language)
    requires Drawable(c)
    ensures
      var seen := OfBytes(c, if withAlpha then ChannelByte(c.alpha) as real / 255.0 else 1.0);
      Sole(ScanFrom("#" + HexDigits(c, withAlpha), 0, lang), if withAlpha then 9 else 7, seen,
           if withAlpha then HexAlpha else Hex)
  {
    DigitsRead(ChannelByte(c.red), ChannelByte(c.green), ChannelByte(c.blue), ChannelByte(c.alpha), withAlpha);
    HexScans(HexDigits(c, withAlpha), lang);
  }

  lemma ShortHexScans(c: ColorValue, withAlpha: bool, lang: Language)
    requires Drawable(c) && AllRepeat(c, withAlpha) && lang.shortHex
    ensures
      var seen := OfBytes(c, if withAlpha then ChannelByte(c.alpha) as real / 255.0 else 1.0);
      Sole(ScanFrom("#" + ShortDigits(c, withAlpha), 0, lang), if withAlpha then 5 else 4, seen,
           if withAlpha then HexShortAlpha else HexShort)
  {
    ShortReads(ChannelByte(c.red), ChannelByte(c.green), ChannelByte(c.blue), ChannelByte(c.alpha), withAlpha);
    HexScans(ShortDigits(c, withAlpha), lang);
  }
}
