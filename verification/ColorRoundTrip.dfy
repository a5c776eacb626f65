/**
 Scanning undoes formatting, in every syntax (Source/Editor/ColorLiteral.cpp:585-693 against 499-583 and
 698-780), and which bytes survive.
 */
module ColorRoundTrip {
  import opened Common
  import opened Decimal
  import opened ColorSpace
  import opened HueNotation
  import HueShifts
  import opened DecimalText
  import opened NamedColors
  import opened ColorTokens
  import opened ColorScan
  import opened ColorFormat
  import opened PrintedNumbers

  // ---- a call by itself ----

  predicate Letters(name: string) {
    name != "" && forall i :: 0 <= i < |name| ==> IsLowerLetter(name[i])
  }

  lemma {:induction false} WordRunsTo(text: string, i: nat, end: nat)
    requires i <= end <= |text| && (forall k :: i <= k < end ==> IsIdentChar(text[k]))
    requires end < |text| ==> !IsIdentChar(text[end])
    ensures WordEnd(text, i) == end
    decreases end - i
  {
    if i < end {
      WordRunsTo(text, i + 1, end);
    }
  }

  lemma {:induction false} ParenRunsTo(text: string, i: nat, close: nat, limit: nat)
    requires i <= close < limit <= |text| && (forall k :: i <= k < close ==> !IsParen(text[k])) && IsParen(text[close])
    ensures ParenEnd(text, i, limit) == close
    decreases close - i
  {
    if i < close {
      ParenRunsTo(text, i + 1, close, limit);
    }
  }

  lemma LowerKeeps(name: string)
    requires forall i :: 0 <= i < |name| ==> IsLowerLetter(name[i])
    ensures ToLower(name) == name
  {
  }

  lemma CallLayout(name: string, inner: string)
    ensures var text := Call(name, inner);
      && |text| == |name| + |inner| + 2 && text[..|name|] == name && text[|name|] == '('
      && text[|name| + 1..|name| + 1 + |inner|] == inner && text[|name| + 1 + |inner|] == ')'
  {
  }

  /** A call of at most 126 characters inside its parentheses is one literal, if it means a colour. */
  lemma CallScans(name: string, inner: string, lang: Language)
    requires Letters(name) && NoParens(inner) && |inner| < 127
    requires FunctionalSyntaxFor(name).Some? && lang.call(name, inner).Some?
    ensures Sole(ScanFrom(Call(name, inner), 0, lang), |Call(name, inner)|, lang.call(name, inner).value,
      FunctionalSyntaxFor(name).value)
  {
    var text := Call(name, inner);
    CallLayout(name, inner);
    forall k | 0 <= k < |name| ensures text[k] == name[k] {
      assert text[..|name|][k] == text[k];
    }
    forall k | 0 <= k < |inner| ensures text[|name| + 1 + k] == inner[k] {
      assert text[|name| + 1..|name| + 1 + |inner|][k] == text[|name| + 1 + k];
    }
    WordRunsTo(text, 0, |name|);
    LowerKeeps(name);
    CallTurn(name, inner, lang);
    assert TurnAt(text, 0, lang) == WordTurn(text, 0, lang);
    OneTurn(text, lang);
  }

  lemma CallTurn(name: string, inner: string, lang: Language)
    requires name != "" && NoParens(inner) && |inner| < 127
    requires FunctionalSyntaxFor(name).Some? && lang.call(name, inner).Some?
    ensures var text := Call(name, inner);
      |name| < |text| && FunctionalTurn(text, 0, |name|, name, lang) ==
        Turn(Some(ColorLiteral(0, |text|, lang.call(name, inner).value, FunctionalSyntaxFor(name).value)), |text|)
  {
    var text := Call(name, inner);
    CallLayout(name, inner);
    var limit := if |text| < |name| + MAX_FUNCTIONAL_LENGTH then |text| else |name| + MAX_FUNCTIONAL_LENGTH;
    forall k | |name| + 1 <= k < |name| + 1 + |inner| ensures !IsParen(text[k]) {
      assert text[|name| + 1..|name| + 1 + |inner|][k - |name| - 1] == text[k];
    }
    ParenRunsTo(text, |name| + 1, |name| + 1 + |inner|, limit);
  }

  // ---- a name by itself ----

  lemma {:induction false} LowerWordLetters(s: string)
    requires AllLower(s)
    ensures forall i :: 0 <= i < |s| ==> IsLowerLetter(s[i])
  {
    if s != "" {
      LowerWordLetters(s[1..]);
    }
  }

  lemma WordScans(name: string, lang: Language)
    requires IsLowerWord(name) && lang.word(name).Some?
    ensures Sole(ScanFrom(name, 0, lang), |name|, lang.word(name).value, Named)
  {
    LowerWordLetters(name);
    WordRunsTo(name, 0, |name|);
    LowerKeeps(name);
    assert name[0..|name|] == name;
    assert TurnAt(name, 0, lang) == WordTurn(name, 0, lang);
    OneTurn(name, lang);
  }

  /** Every name of the table is looked up as its own entry. */
  ghost predicate LooksUp(word: string -> Option<ColorValue>, table: seq<NamedColor>) {
    forall i :: 0 <= i < |table| ==>
      word(table[i].name) == Some(ColorOf(table[i].rgb, if table[i].name == TRANSPARENT then 0.0 else 1.0))
  }

  lemma OptionsLookUp(options: Options)
    requires Proper(options.table) && options.namedColors
    ensures LooksUp(LanguageOf(options).word, options.table)
  {
    forall i | 0 <= i < |options.table|
      ensures LookupNamedColor(options.table, options.table[i].name) ==
              Some(ColorOf(options.table[i].rgb, if options.table[i].name == TRANSPARENT then 0.0 else 1.0))
    {
      LookupFinds(options.table, i);
    }
  }

  /** A word that means a colour is one literal. */
  lemma WordIsLiteral(text: string, color: ColorValue, options: Options)
    requires IsLowerWord(text) && LanguageOf(options).word(text) == Some(color)
    ensures Sole(Scan(text, options), |text|, color, Named)
  {
    WordScans(text, LanguageOf(options));
  }

  lemma TransparentMeans(text: string, table: seq<NamedColor>, word: string -> Option<ColorValue>)
    requires Proper(table) && LooksUp(word, table) && text == TRANSPARENT
    ensures IsLowerWord(text) && word(text) == Some(ColorValue(0.0, 0.0, 0.0, 0.0))
  {
    var i :| 0 <= i < |table| && table[i] == NamedColor(TRANSPARENT, 0);
    assert table[i].name == text;
    BlackParts(table[i].rgb);
  }

  lemma BlackParts(rgb: Rgb24)
    requires rgb == 0
    ensures ColorOf(rgb, 0.0) == ColorValue(0.0, 0.0, 0.0, 0.0)
  {
  }

  lemma OpaqueMeans(
      red: ColorFormat.Byte, green: ColorFormat.Byte, blue: ColorFormat.Byte, text: string, table: seq<NamedColor>,
      word: string -> Option<ColorValue>)
    requires Proper(table) && LooksUp(word, table) && NameOf(table, Packed(red, green, blue)) == Some(text)
    ensures IsLowerWord(text)
    ensures word(text) == Some(ColorValue(red as real / 255.0, green as real / 255.0, blue as real / 255.0, 1.0))
  {
    var i := NameOfMeans(table, Packed(red, green, blue));
    Unpacked(red, green, blue);
    ColorOfParts(table[i].rgb, red, green, blue);
  }

  // ---- calls ----

  lemma CallMeans(name: string, inner: string, arguments: Arguments, color: ColorValue, options: Options)
    requires SplitFunctionalArguments(inner) == Some(arguments) && |arguments.values| == 3
    requires ColorOfArguments(name, arguments, options.number) == Some(color)
    ensures LanguageOf(options).call(name, inner) == Some(color)
  {
  }

  /** A call is one literal of the colour its cut-up arguments mean. */
  lemma ArgumentsScan(name: string, inner: string, arguments: Arguments, color: ColorValue, syntax: Syntax,
                      options: Options)
    requires Letters(name) && FunctionalSyntaxFor(name) == Some(syntax) && NoParens(inner) && |inner| < 127
    requires SplitFunctionalArguments(inner) == Some(arguments) && |arguments.values| == 3
    requires ColorOfArguments(name, arguments, options.number) == Some(color)
    ensures Sole(Scan(Call(name, inner), options), |Call(name, inner)|, color, syntax)
  {
    CallMeans(name, inner, arguments, color, options);
    CallScans(name, inner, LanguageOf(options));
  }

  lemma InnerFits(a: string, b: string, c: string, d: string, gap: string)
    requires Component(a) && Component(b) && Component(c) && Component(d) && (gap == ", " || gap == " ")
    ensures NoParens(Three(a, b, c, gap)) && |Three(a, b, c, gap)| < 127
    ensures NoParens(FourCommas(a, b, c, d)) && |FourCommas(a, b, c, d)| < 127
    ensures NoParens(Slashed(a, b, c, d)) && |Slashed(a, b, c, d)| < 127
  {
    JoinFits(c, "", "");
    JoinFits(b, gap, c + "");
    JoinFits(a, gap, b + (gap + (c + "")));
    JoinFits(d, "", "");
    JoinFits(c, ", ", d + "");
    JoinFits(b, ", ", c + (", " + (d + "")));
    JoinFits(a, ", ", b + (", " + (c + (", " + (d + "")))));
    JoinFits(c, " / ", d + "");
    JoinFits(b, " ", c + (" / " + (d + "")));
    JoinFits(a, " ", b + (" " + (c + (" / " + (d + "")))));
  }

  lemma JoinFits(a: string, gap: string, rest: string)
    requires NoParens(a) && NoParens(gap) && NoParens(rest)
    ensures NoParens(a + (gap + rest)) && |a + (gap + rest)| == |a| + |gap| + |rest|
    ensures gap == "" ==> a + (gap + rest) == a + rest
  {
    assert gap == "" ==> gap + rest == rest;
  }

  /** Three components, and perhaps an alpha in fourth place or behind a slash. */
  function Inner(a: string, b: string, c: string, alpha: Option<string>, isHwb: bool): string {
    match alpha
    case None => Three(a, b, c, if isHwb then " " else ", ")
    case Some(d) => if isHwb then Slashed(a, b, c, d) else FourCommas(a, b, c, d)
  }

  lemma InnerScans(
      name: string, a: string, b: string, c: string, alpha: Option<string>, isHwb: bool, color: ColorValue,
        syntax: Syntax, options: Options)
    requires Letters(name) && FunctionalSyntaxFor(name) == Some(syntax) && Component(a) && Component(b) && Component(c)
    requires alpha.Some? ==> Component(alpha.value)
    requires ColorOfArguments(name, Arguments([a, b, c], alpha), options.number) == Some(color)
    ensures Sole(Scan(Call(name, Inner(a, b, c, alpha, isHwb)), options), |Call(name, Inner(a, b, c, alpha, isHwb))|,
      color, syntax)
  {
    var gap := if isHwb then " " else ", ";
    match alpha
    case None =>
      ThreeSplit(a, b, c, gap);
      InnerFits(a, b, c, c, gap);
      ArgumentsScan(name, Inner(a, b, c, alpha, isHwb), Arguments([a, b, c], None), color, syntax, options);
    case Some(d) =>
      InnerFits(a, b, c, d, gap);
      if isHwb {
        SlashSplit(a, b, c, d);
      } else {
        FourSplit(a, b, c, d);
      }
      ArgumentsScan(name, Inner(a, b, c, alpha, isHwb), Arguments([a, b, c], alpha), color, syntax, options);
  }

  /** An alpha text, if there is one, that reads back as this alpha. */
  predicate AlphaReads(text: Option<string>, alpha: real, number: NumberReader) {
    match text
    case None => alpha == 1.0
    case Some(t) => Component(t) && ParseScaledComponent(t, 1.0, number) == Some(alpha)
  }

  predicate ChannelReads(text: string, v: real, number: NumberReader) {
    Component(text) && ParseScaledComponent(text, 255.0, number) == Some(v)
  }

  lemma RgbMeans(r: string, g: string, b: string, a: Option<string>, color: ColorValue, name: string,
                 number: NumberReader)
    requires name == "rgb" || name == "rgba"
    requires ChannelReads(r, color.red, number) && ChannelReads(g, color.green, number)
      && ChannelReads(b, color.blue, number)
    requires AlphaReads(a, color.alpha, number)
    ensures ColorOfArguments(name, Arguments([r, g, b], a), number) == Some(color)
  {
  }

  lemma HueMeans(t: HueTexts, p: HueComponents, a: Option<string>, alpha: real, name: string, number: NumberReader)
    requires name == "hsl" || name == "hsla" || name == "hwb"
    requires TextsRead(t, p, number) && AlphaReads(a, alpha, number)
    ensures ColorOfArguments(name, Arguments([t.hue, t.first, t.second], a), number) ==
      Some(ReadBack(p, name == "hwb", alpha))
  {
  }

  function AlphaText(c: ColorValue, withAlpha: bool, number: NumberReader): Option<string>
    requires Drawable(c)
  {
    if withAlpha then Some(FormatAlpha(c.alpha, number)) else None
  }

  function AlphaSeen(c: ColorValue, withAlpha: bool, number: NumberReader): real
    requires Drawable(c)
  {
    if withAlpha then ReadAlpha(c.alpha, number) else 1.0
  }

  lemma AlphaTextReads(c: ColorValue, withAlpha: bool, number: NumberReader)
    requires Drawable(c) && Faithful(number)
    ensures AlphaReads(AlphaText(c, withAlpha, number), AlphaSeen(c, withAlpha, number), number)
  {
    AlphaPrints(c.alpha, number);
  }

  lemma ByteTextReads(b: ColorFormat.Byte, number: NumberReader)
    requires Faithful(number)
    ensures ChannelReads(Print(b), b as real / 255.0, number)
  {
    BytePrints(b, number);
  }

  lemma ChannelsScan(
      r: string, g: string, b: string, a: Option<string>, red: real, green: real, blue: real, alpha: real,
        options: Options)
    requires ChannelReads(r, red, options.number) && ChannelReads(g, green, options.number)
    requires ChannelReads(b, blue, options.number) && AlphaReads(a, alpha, options.number)
    ensures var text := Call(if a.Some? then "rgba" else "rgb", Inner(r, g, b, a, false));
      Sole(Scan(text, options), |text|, ColorValue(red, green, blue, alpha), if a.Some? then Rgba else Rgb)
  {
    var name, color := if a.Some? then "rgba" else "rgb", ColorValue(red, green, blue, alpha);
    RgbMeans(r, g, b, a, color, name, options.number);
    InnerScans(name, r, g, b, a, false, color, if a.Some? then Rgba else Rgb, options);
  }

  lemma RgbScans(c: ColorValue, withAlpha: bool, text: string, options: Options)
    requires Drawable(c) && Faithful(options.number) && text == RgbText(c, withAlpha, options.number)
    ensures Sole(Scan(text, options), |text|, OfBytes(c, AlphaSeen(c, withAlpha, options.number)),
      if withAlpha then Rgba else Rgb)
  {
    var red, green, blue := ChannelByte(c.red), ChannelByte(c.green), ChannelByte(c.blue);
    AlphaTextReads(c, withAlpha, options.number);
    ByteTextReads(red, options.number);
    ByteTextReads(green, options.number);
    ByteTextReads(blue, options.number);
    ChannelsScan(Print(red), Print(green), Print(blue), AlphaText(c, withAlpha, options.number),
                 red as real / 255.0, green as real / 255.0, blue as real / 255.0,
                   AlphaSeen(c, withAlpha, options.number), options);
  }

  /** The call and the syntax of a hue notation. */
  function HueName(isHwb: bool, withAlpha: bool): string {
    if isHwb then "hwb" else if withAlpha then "hsla" else "hsl"
  }

  function HueSyntax(isHwb: bool, withAlpha: bool): Syntax {
    if isHwb then Hwb else if withAlpha then Hsla else Hsl
  }

  lemma TextsScan(
      t: HueTexts, p: HueComponents, a: Option<string>, alpha: real, isHwb: bool, color: ColorValue, text: string,
        options: Options)
    requires TextsRead(t, p, options.number) && AlphaReads(a, alpha, options.number)
      && color == ReadBack(p, isHwb, alpha)
    requires text == Call(HueName(isHwb, a.Some?), Inner(t.hue, t.first, t.second, a, isHwb))
    ensures Sole(Scan(text, options), |text|, color, HueSyntax(isHwb, a.Some?))
  {
    HueMeans(t, p, a, alpha, HueName(isHwb, a.Some?), options.number);
    InnerScans(HueName(isHwb, a.Some?), t.hue, t.first, t.second, a, isHwb, color, HueSyntax(isHwb, a.Some?), options);
  }

  lemma HueScans(c: ColorValue, isHwb: bool, withAlpha: bool, color: ColorValue, text: string, options: Options)
    requires Drawable(c) && Faithful(options.number) && text == FormatHueNotation(c, isHwb, withAlpha, options.number)
    requires color == ReadBack(Printed(c, ComponentsOf(c, isHwb), isHwb), isHwb,
      AlphaSeen(c, withAlpha, options.number))
    ensures Sole(Scan(text, options), |text|, color, HueSyntax(isHwb, withAlpha))
  {
    HueTextsRead(c, isHwb, options.number);
    AlphaTextReads(c, withAlpha, options.number);
    TextsScan(HueTextsOf(c, isHwb), Printed(c, ComponentsOf(c, isHwb), isHwb), AlphaText(c, withAlpha, options.number),
              AlphaSeen(c, withAlpha, options.number), isHwb, color, text, options);
  }

  // ---- every syntax ----

  /** The whole text is one literal of this syntax, of the colour the text stands for. */
  predicate Undone(c: ColorValue, syntax: Syntax, text: string, options: Options)
    requires Drawable(c)
  {
    Sole(Scan(text, options), |text|, Reread(c, syntax, options.number), syntax)
  }

  lemma SeenAsReread(c: ColorValue, syntax: Syntax, text: string, options: Options, seen: ColorValue)
    requires Drawable(c) && Sole(Scan(text, options), |text|, seen, syntax) && seen == Reread(c, syntax, options.number)
    ensures Undone(c, syntax, text, options)
  {
  }

  lemma HexUndone(c: ColorValue, withAlpha: bool, text: string, options: Options)
    requires Drawable(c) && text == "#" + HexDigits(c, withAlpha)
    ensures Undone(c, if withAlpha then HexAlpha else Hex, text, options)
  {
    LongHexScans(c, withAlpha, LanguageOf(options));
  }

  lemma ShortHexUndone(c: ColorValue, withAlpha: bool, text: string, options: Options)
    requires Drawable(c) && options.shortHex && AllRepeat(c, withAlpha) && text == "#" + ShortDigits(c, withAlpha)
    ensures Undone(c, if withAlpha then HexShortAlpha else HexShort, text, options)
  {
    ShortHexScans(c, withAlpha, LanguageOf(options));
  }

  lemma RgbUndone(c: ColorValue, withAlpha: bool, text: string, options: Options)
    requires Drawable(c) && Faithful(options.number) && text == RgbText(c, withAlpha, options.number)
    ensures Undone(c, if withAlpha then Rgba else Rgb, text, options)
  {
    var seen := OfBytes(c, AlphaSeen(c, withAlpha, options.number));
    RgbScans(c, withAlpha, text, options);
    RgbReread(c, withAlpha, options.number);
    SeenAsReread(c, if withAlpha then Rgba else Rgb, text, options, seen);
  }

  lemma RgbReread(c: ColorValue, withAlpha: bool, number: NumberReader)
    requires Drawable(c)
    ensures Reread(c, if withAlpha then Rgba else Rgb, number) == OfBytes(c, AlphaSeen(c, withAlpha, number))
  {
  }

  lemma HslUndone(c: ColorValue, withAlpha: bool, text: string, options: Options)
    requires Drawable(c) && Faithful(options.number) && text == FormatHueNotation(c, false, withAlpha, options.number)
    ensures Undone(c, if withAlpha then Hsla else Hsl, text, options)
  {
    HueUndone(c, false, withAlpha, text, options);
  }

  lemma HwbUndone(c: ColorValue, text: string, options: Options)
    requires Drawable(c) && Faithful(options.number) && text == FormatHueNotation(c, true, !IsOpaque(c), options.number)
    ensures Undone(c, Hwb, text, options)
  {
    HueUndone(c, true, !IsOpaque(c), text, options);
  }

  lemma HueUndone(c: ColorValue, isHwb: bool, withAlpha: bool, text: string, options: Options)
    requires Drawable(c) && Faithful(options.number) && text == FormatHueNotation(c, isHwb, withAlpha, options.number)
    requires isHwb ==> withAlpha == !IsOpaque(c)
    ensures Undone(c, HueSyntax(isHwb, withAlpha), text, options)
  {
    var alpha := AlphaSeen(c, withAlpha, options.number);
    var seen := ReadBack(Printed(c, ComponentsOf(c, isHwb), isHwb), isHwb, alpha);
    HueScans(c, isHwb, withAlpha, seen, text, options);
    HueReread(c, isHwb, withAlpha, options.number);
    SeenAsReread(c, HueSyntax(isHwb, withAlpha), text, options, seen);
  }

  lemma HueReread(c: ColorValue, isHwb: bool, withAlpha: bool, number: NumberReader)
    requires Drawable(c) && (isHwb ==> withAlpha == !IsOpaque(c))
    ensures Reread(c, HueSyntax(isHwb, withAlpha), number) ==
      ReadBack(Printed(c, ComponentsOf(c, isHwb), isHwb), isHwb, AlphaSeen(c, withAlpha, number))
  {
  }

  /** An opaque name means its colour. */
  lemma OpaqueNameMeans(
      c: ColorValue, red: ColorFormat.Byte, green: ColorFormat.Byte, blue: ColorFormat.Byte, text: string,
        table: seq<NamedColor>,
      word: string -> Option<ColorValue>)
    requires Drawable(c) && red == ChannelByte(c.red) && green == ChannelByte(c.green) && blue == ChannelByte(c.blue)
    requires Proper(table) && LooksUp(word, table) && NameOf(table, Packed(red, green, blue)) == Some(text)
    ensures IsLowerWord(text) && word(text) == Some(OfBytes(c, 1.0))
  {
    SameColor(c, red, green, blue);
    OpaqueMeans(red, green, blue, text, table, word);
  }

  lemma SameColor(c: ColorValue, red: ColorFormat.Byte, green: ColorFormat.Byte, blue: ColorFormat.Byte)
    requires Drawable(c) && red == ChannelByte(c.red) && green == ChannelByte(c.green) && blue == ChannelByte(c.blue)
    ensures OfBytes(c, 1.0) == ColorValue(red as real / 255.0, green as real / 255.0, blue as real / 255.0, 1.0)
  {
  }

  lemma TransparentNameMeans(c: ColorValue, text: string, table: seq<NamedColor>, word: string -> Option<ColorValue>)
    requires Drawable(c) && Proper(table) && LooksUp(word, table) && text == TRANSPARENT
    requires ChannelByte(c.red) == 0 && ChannelByte(c.green) == 0 && ChannelByte(c.blue) == 0
    ensures IsLowerWord(text) && word(text) == Some(OfBytes(c, 0.0))
  {
    TransparentMeans(text, table, word);
    NoBytes(c);
  }

  lemma NoBytes(c: ColorValue)
    requires Drawable(c) && ChannelByte(c.red) == 0 && ChannelByte(c.green) == 0 && ChannelByte(c.blue) == 0
    ensures OfBytes(c, 0.0) == ColorValue(0.0, 0.0, 0.0, 0.0)
  {
  }

  lemma NamedScans(c: ColorValue, text: string, options: Options)
    requires Drawable(c) && Proper(options.table) && options.namedColors && NamedText(c, options.table) == Some(text)
    ensures Sole(Scan(text, options), |text|, OfBytes(c, if IsOpaque(c) then 1.0 else 0.0), Named)
  {
    OptionsLookUp(options);
    if IsOpaque(c) {
      OpaqueNameMeans(c, ChannelByte(c.red), ChannelByte(c.green), ChannelByte(c.blue), text, options.table,
        LanguageOf(options).word);
      WordIsLiteral(text, OfBytes(c, 1.0), options);
    } else {
      TransparentNameMeans(c, text, options.table, LanguageOf(options).word);
      WordIsLiteral(text, OfBytes(c, 0.0), options);
    }
  }

  /**
   Whatever colour is written in whatever syntax: scanning the text, where the options admit the syntax,
   finds one literal, the whole text, of that syntax and of the colour the text stands for.
   */
  lemma ScanUndoesFormat(c: ColorValue, syntax: Syntax, text: string, options: Options)
    requires Drawable(c) && Proper(options.table) && Faithful(options.number) && Admits(options, syntax)
    requires FormatColor(c, syntax, options) == Some(text)
    ensures Undone(c, syntax, text, options)
  {
    match syntax
    case Hex => HexUndone(c, false, text, options);
    case HexAlpha => HexUndone(c, true, text, options);
    case HexShort => ShortHexUndone(c, false, text, options);
    case HexShortAlpha => ShortHexUndone(c, true, text, options);
    case Rgb => RgbUndone(c, false, text, options);
    case Rgba => RgbUndone(c, true, text, options);
    case Hsl => HslUndone(c, false, text, options);
    case Hsla => HslUndone(c, true, text, options);
    case Hwb => HwbUndone(c, text, options);
    case Named => NamedScans(c, text, options);
  }

  // ---- which bytes survive ----

  lemma ByteOfByte(b: ColorFormat.Byte)
    ensures ByteOf(b as real / 255.0) == b
  {
    assert b as real / 255.0 * 255.0 == b as real;
  }

  lemma OfBytesKeeps(c: ColorValue, alpha: real)
    requires Drawable(c)
    ensures SameBytes(OfBytes(c, alpha), c)
  {
    ByteOfByte(ChannelByte(c.red));
    ByteOfByte(ChannelByte(c.green));
    ByteOfByte(ChannelByte(c.blue));
  }

  /** Alpha is carried along, and colours nothing. */
  lemma AlphaColorsNothing(p: HueComponents, isHwb: bool, a: real, b: real, c: ColorValue)
    ensures SameBytes(ReadBack(p, isHwb, a), c) <==> SameBytes(ReadBack(p, isHwb, b), c)
  {
    SameChannels(p, isHwb, a, b);
  }

  lemma SameChannels(p: HueComponents, isHwb: bool, a: real, b: real)
    ensures ReadBack(p, isHwb, a).red == ReadBack(p, isHwb, b).red
    ensures ReadBack(p, isHwb, a).green == ReadBack(p, isHwb, b).green
    ensures ReadBack(p, isHwb, a).blue == ReadBack(p, isHwb, b).blue
  {
  }

  predicate IsHue(syntax: Syntax) {
    syntax == Hsl || syntax == Hsla || syntax == Hwb
  }

  /** Outside the hue notations the red, green and blue bytes of every colour survive. */
  lemma BytesSurvive(c: ColorValue, syntax: Syntax, number: NumberReader)
    requires Drawable(c) && !IsHue(syntax)
    ensures SameBytes(Reread(c, syntax, number), c)
  {
    OfBytesKeeps(c, Reread(c, syntax, number).alpha);
  }

  /**
   In a hue notation, over exact reals, the bytes of an 8-bit colour survive hwb() always, and hsl() but for
   the colours of the shifting bytes that the whole-number check passes.
   */
  lemma HueBytesSurvive(c: ColorValue, syntax: Syntax, number: NumberReader)
    requires Drawable(c) && OnGrid(c) && IsHue(syntax)
    ensures SameBytes(Reread(c, syntax, number), c) <==>
      (syntax == Hwb || !(RoundTripsAtWholeNumbers(c, ComponentsOf(c, false), false) && HueShifts.OfShiftingBytes(c)))
  {
    RereadKeeps(c, syntax, number);
    if syntax == Hwb {
      HwbNeverShifts(c);
    } else {
      HueShifts.HslShiftsExactly(c);
    }
  }

  /**
   Those of any other colour survive if, where the whole-number check passes, no percentage is a tie over an
   even number, and where it does not, no channel is within a thousandth of its byte's end.
   */
  lemma OtherBytesSurvive(c: ColorValue, syntax: Syntax, number: NumberReader)
    requires Drawable(c) && IsHue(syntax)
    requires var parts := ComponentsOf(c, syntax == Hwb);
      if RoundTripsAtWholeNumbers(c, parts, syntax == Hwb)
      then NoEvenTie(parts.first * 100.0) && NoEvenTie(parts.second * 100.0)
      else AllInterior(c)
    ensures SameBytes(Reread(c, syntax, number), c)
  {
    KeepsAnyColor(c, syntax == Hwb);
    KeptIsReread(c, syntax, number, syntax == Hwb);
  }

  lemma KeptIsReread(c: ColorValue, syntax: Syntax, number: NumberReader, isHwb: bool)
    requires Drawable(c) && IsHue(syntax) && isHwb == (syntax == Hwb) && KeepsColor(c, isHwb)
    ensures SameBytes(Reread(c, syntax, number), c)
  {
    RereadKeeps(c, syntax, number);
  }

  lemma RereadKeeps(c: ColorValue, syntax: Syntax, number: NumberReader)
    requires Drawable(c) && IsHue(syntax)
    ensures SameBytes(Reread(c, syntax, number), c) <==> KeepsColor(c, syntax == Hwb)
  {
    var isHwb := syntax == Hwb;
    AlphaColorsNothing(Printed(c, ComponentsOf(c, isHwb), isHwb), isHwb, Reread(c, syntax, number).alpha, c.alpha, c);
    ReadBackAlpha(Printed(c, ComponentsOf(c, isHwb), isHwb), isHwb, c, syntax, number);
  }

  lemma ReadBackAlpha(p: HueComponents, isHwb: bool, c: ColorValue, syntax: Syntax, number: NumberReader)
    requires Drawable(c) && IsHue(syntax) && isHwb == (syntax == Hwb) && p == Printed(c, ComponentsOf(c, isHwb), isHwb)
    ensures Reread(c, syntax, number) == ReadBack(p, isHwb, Reread(c, syntax, number).alpha)
  {
  }
}
