/**
 Which presentations of a colour are offered, and how they are spelled (Source/Editor/ColorLiteral.cpp:499-583,
 698-808).
 */
module ColorOffered {
  import opened Common
  import opened Decimal
  import opened ColorSpace
  import opened HueNotation
  import opened NamedColors
  import opened ColorTokens
  import opened ColorScan
  import opened ColorFormat
  import opened ColorRoundTrip
  import opened PrintedNumbers

  // ---- which syntaxes can say a colour ----

  /** Red, green, blue and opacity in 255ths, to the nearest. */
  function Bytes4(c: ColorValue): seq<nat>
    requires Drawable(c)
  {
    [ChannelByte(c.red), ChannelByte(c.green), ChannelByte(c.blue), ChannelByte(c.alpha)]
  }

  predicate Doubled(bytes: seq<nat>) {
    forall i :: 0 <= i < |bytes| ==> bytes[i] % 17 == 0
  }

  /** Some opaque entry of the table has these three bytes. */
  predicate HasName(bytes: seq<nat>, table: seq<NamedColor>)
    requires |bytes| == 4
  {
    exists i :: 0 <= i < |table| && table[i].name != "transparent"
      && table[i].rgb == 65536 * bytes[0] + 256 * bytes[1] + bytes[2]
  }

  /**
   The forms without an alpha are for opaque colours, the short ones for bytes of two equal digits, and a name for the
   opaque colours of the table and for the one that is nothing at all.
   */
  lemma FormattedWhen(c: ColorValue, syntax: Syntax, options: Options)
    requires Drawable(c)
    ensures var bytes := Bytes4(c);
      FormatColor(c, syntax, options).Some? <==>
        match syntax
        case Hex => bytes[3] == 255
        case Rgb => bytes[3] == 255
        case Hsl => bytes[3] == 255
        case HexAlpha => true
        case Rgba => true
        case Hsla => true
        case Hwb => true
        case HexShort => bytes[3] == 255 && Doubled(bytes)
        case HexShortAlpha => Doubled(bytes)
        case Named => if bytes[3] == 255 then HasName(bytes, options.table) else bytes == [0, 0, 0, 0]
  {
    var bytes := Bytes4(c);
    RepeatsMeans(ChannelByte(c.red));
    RepeatsMeans(ChannelByte(c.green));
    RepeatsMeans(ChannelByte(c.blue));
    RepeatsMeans(ChannelByte(c.alpha));
    assert Doubled(bytes) <==> bytes[0] % 17 == 0 && bytes[1] % 17 == 0 && bytes[2] % 17 == 0 && bytes[3] % 17 == 0;
    if syntax == Named && bytes[3] == 255 {
      var i := NameOfMeans(options.table, Packed(bytes[0], bytes[1], bytes[2]));
    }
  }

  lemma RepeatsMeans(b: ColorFormat.Byte)
    ensures NibblesRepeat(b) <==> b % 17 == 0
  {
    assert b == 16 * (b / 16) + b % 16;
    if b % 17 == 0 {
      assert b == 17 * (b / 17) && b / 17 <= 15;
    }
  }

  // ---- how they are spelled ----

  /** Digits that are decimal or lower-case letters. */
  predicate LowerHex(digits: string, n: nat) {
    |digits| == n && forall k :: 0 <= k < n ==> '0' <= digits[k] <= '9' || 'a' <= digits[k] <= 'f'
  }

  lemma HexIsSpelled(c: ColorValue, withAlpha: bool)
    requires Drawable(c)
    ensures LowerHex(HexDigits(c, withAlpha), if withAlpha then 8 else 6)
    ensures LowerHex(ShortDigits(c, withAlpha), if withAlpha then 4 else 3)
  {
    CharIsLower(c.red);
    CharIsLower(c.green);
    CharIsLower(c.blue);
    CharIsLower(c.alpha);
  }

  lemma CharIsLower(x: real)
    requires Unit(x)
    ensures LowerHex(Hex2(ChannelByte(x)), 2) && LowerHex([HexChar(ChannelByte(x) % 16)], 1)
  {
  }

  lemma ThreeSpelled(name: string, a: string, b: string, c: string, gap: string)
    ensures Call(name, Three(a, b, c, gap)) == name + "(" + a + gap + b + gap + c + ")"
  {
  }

  lemma CommasSpelled(name: string, a: string, b: string, c: string, d: string)
    ensures Call(name, FourCommas(a, b, c, d)) == name + "(" + a + ", " + b + ", " + c + ", " + d + ")"
  {
  }

  lemma SlashSpelled(name: string, a: string, b: string, c: string, d: string)
    ensures Call(name, Slashed(a, b, c, d)) == name + "(" + a + " " + b + " " + c + " / " + d + ")"
  {
  }

  /** Commas between decimal bytes, and the alpha behind another. */
  lemma RgbIsSpelled(c: ColorValue, options: Options, r: string, g: string, b: string, alpha: string)
    requires Drawable(c) && alpha == FormatAlpha(c.alpha, options.number)
    requires r == Print(Bytes4(c)[0]) && g == Print(Bytes4(c)[1]) && b == Print(Bytes4(c)[2])
    ensures RgbText(c, false, options.number) == "rgb" + "(" + r + ", " + g + ", " + b + ")"
    ensures RgbText(c, true, options.number) == "rgba" + "(" + r + ", " + g + ", " + b + ", " + alpha + ")"
  {
    ThreeSpelled("rgb", r, g, b, ", ");
    CommasSpelled("rgba", r, g, b, alpha);
  }

  /** Commas in hsl() and hsla(). */
  lemma HslIsSpelled(c: ColorValue, options: Options, t: HueTexts, alpha: string)
    requires Drawable(c) && alpha == FormatAlpha(c.alpha, options.number) && t == HueTextsOf(c, false)
    ensures FormatHueNotation(c, false, false, options.number) ==
      "hsl" + "(" + t.hue + ", " + t.first + ", " + t.second + ")"
    ensures FormatHueNotation(c, false, true, options.number) ==
      "hsla" + "(" + t.hue + ", " + t.first + ", " + t.second + ", " + alpha + ")"
  {
    ThreeSpelled("hsl", t.hue, t.first, t.second, ", ");
    CommasSpelled("hsla", t.hue, t.first, t.second, alpha);
  }

  /** Blanks in hwb(), and a slash before its alpha. */
  lemma HwbIsSpelled(c: ColorValue, options: Options, t: HueTexts, alpha: string)
    requires Drawable(c) && alpha == FormatAlpha(c.alpha, options.number) && t == HueTextsOf(c, true)
    ensures FormatHueNotation(c, true, false, options.number) ==
      "hwb" + "(" + t.hue + " " + t.first + " " + t.second + ")"
    ensures FormatHueNotation(c, true, true, options.number) ==
      "hwb" + "(" + t.hue + " " + t.first + " " + t.second + " / " + alpha + ")"
  {
    ThreeSpelled("hwb", t.hue, t.first, t.second, " ");
    SlashSpelled("hwb", t.hue, t.first, t.second, alpha);
  }

  // ---- what is offered ----

  datatype Presentation = Presentation(syntax: Syntax, text: string)

  function Candidates(isOpaque: bool): seq<Syntax> {
    if isOpaque then [Hex, HexShort, Rgb, Hsl, Hwb, Named] else [HexAlpha, HexShortAlpha, Rgba, Hsla, Hwb, Named]
  }

  function Offered(c: ColorValue, candidates: seq<Syntax>, options: Options): seq<Presentation>
    requires Drawable(c)
  {
    if candidates == [] then []
    else
      var n := |candidates| - 1;
      var before := Offered(c, candidates[..n], options);
      if Admits(options, candidates[n]) && FormatColor(c, candidates[n], options).Some?
      then before + [Presentation(candidates[n], FormatColor(c, candidates[n], options).value)] else before
  }

  method ColorPresentations(c: ColorValue, options: Options) returns (presentations: seq<Presentation>)
    requires Drawable(c)
    ensures presentations == Offered(c, Candidates(IsOpaque(c)), options)
  {
    var candidates := if IsOpaque(c) then [Hex, HexShort, Rgb, Hsl, Hwb, Named]
      else [HexAlpha, HexShortAlpha, Rgba, Hsla, Hwb, Named];
    presentations := [];
    for i := 0 to |candidates|
      invariant presentations == Offered(c, candidates[..i], options)
    {
      assert candidates[..i + 1][..i] == candidates[..i];
      var syntax := candidates[i];
      if !options.shortHex && (syntax == HexShort || syntax == HexShortAlpha) {
        continue;
      }
      if !options.namedColors && syntax == Named {
        continue;
      }
      var text := FormatColor(c, syntax, options);
      if text.Some? {
        presentations := presentations + [Presentation(syntax, text.value)];
      }
    }
    assert candidates[..|candidates|] == candidates;
  }

  /** The place of a syntax on the menu. */
  function Rank(syntax: Syntax): nat {
    match syntax
    case Hex => 1
    case HexAlpha => 1
    case HexShort => 2
    case HexShortAlpha => 2
    case Rgb => 3
    case Rgba => 3
    case Hsl => 4
    case Hsla => 4
    case Hwb => 5
    case Named => 6
  }

  /** Everything that can be said, in a form for the colour's opacity and of the buffer's language, is offered. */
  predicate Suits(c: ColorValue, syntax: Syntax, options: Options)
    requires Drawable(c)
  {
    && (syntax in {Hex, HexShort, Rgb, Hsl} ==> Bytes4(c)[3] == 255)
    && (syntax in {HexAlpha, HexShortAlpha, Rgba, Hsla} ==> Bytes4(c)[3] != 255)
    && (syntax in {HexShort, HexShortAlpha} ==> options.shortHex)
    && (syntax == Named ==> options.namedColors)
  }

  lemma {:induction false} OfferedFrom(c: ColorValue, candidates: seq<Syntax>, options: Options, p: Presentation)
    requires Drawable(c)
    ensures p in Offered(c, candidates, options) <==>
      p.syntax in candidates && Admits(options, p.syntax) && FormatColor(c, p.syntax, options) == Some(p.text)
  {
    if candidates != [] {
      var n := |candidates| - 1;
      OfferedFrom(c, candidates[..n], options, p);
      LastOffered(c, candidates, n, options, p, FormatColor(c, candidates[n], options));
    }
  }

  lemma LastOffered(c: ColorValue, candidates: seq<Syntax>, n: nat, options: Options, p: Presentation,
                    text: Option<string>)
    requires Drawable(c) && n + 1 == |candidates| && text == FormatColor(c, candidates[n], options)
    ensures p in Offered(c, candidates, options) <==>
      || p in Offered(c, candidates[..n], options)
      || (p.syntax == candidates[n] && Admits(options, p.syntax) && text == Some(p.text))
    ensures p.syntax in candidates <==> p.syntax in candidates[..n] || p.syntax == candidates[n]
  {
    assert candidates == candidates[..n] + [candidates[n]];
  }

  /** The menu has a presentation if and only if its syntax suits the colour and says it with that text. */
  lemma OfferedJustWhen(c: ColorValue, options: Options, p: Presentation)
    requires Drawable(c)
    ensures p in Offered(c, Candidates(IsOpaque(c)), options) <==>
      Suits(c, p.syntax, options) && FormatColor(c, p.syntax, options) == Some(p.text)
  {
    OfferedFrom(c, Candidates(IsOpaque(c)), options, p);
    SuitsMeans(c, p.syntax, options, IsOpaque(c));
  }

  lemma SuitsMeans(c: ColorValue, syntax: Syntax, options: Options, isOpaque: bool)
    requires Drawable(c) && isOpaque == (Bytes4(c)[3] == 255)
    ensures Suits(c, syntax, options) <==> syntax in Candidates(isOpaque) && Admits(options, syntax)
  {
  }

  /** Ranks that rise. */
  predicate Rising(menu: seq<Presentation>) {
    forall i, j :: 0 <= i < j < |menu| ==> Rank(menu[i].syntax) < Rank(menu[j].syntax)
  }

  predicate AllBelow(menu: seq<Presentation>, rank: nat) {
    forall i :: 0 <= i < |menu| ==> Rank(menu[i].syntax) < rank
  }

  lemma OneMoreRises(before: seq<Presentation>, p: Presentation)
    requires Rising(before) && AllBelow(before, Rank(p.syntax))
    ensures Rising(before + [p])
  {
  }

  /** Of candidates whose ranks rise to the last, what is offered does. */
  lemma {:induction false} MenuIsOrdered(c: ColorValue, candidates: seq<Syntax>, options: Options, rank: nat)
    requires Drawable(c) && forall i, j :: 0 <= i < j < |candidates| ==> Rank(candidates[i]) < Rank(candidates[j])
    requires candidates != [] ==> Rank(candidates[|candidates| - 1]) < rank
    ensures Rising(Offered(c, candidates, options)) && AllBelow(Offered(c, candidates, options), rank)
  {
    if candidates != [] {
      var n := |candidates| - 1;
      MenuIsOrdered(c, candidates[..n], options, Rank(candidates[n]));
      MenuGrows(c, candidates, n, options, Offered(c, candidates[..n], options), rank);
    }
  }

  lemma MenuGrows(c: ColorValue, candidates: seq<Syntax>, n: nat, options: Options, before: seq<Presentation>,
                  rank: nat)
    requires Drawable(c) && n + 1 == |candidates| && before == Offered(c, candidates[..n], options)
    requires Rising(before) && AllBelow(before, Rank(candidates[n])) && Rank(candidates[n]) < rank
    ensures Rising(Offered(c, candidates, options)) && AllBelow(Offered(c, candidates, options), rank)
  {
    var text := FormatColor(c, candidates[n], options);
    if text.Some? {
      OneMoreRises(before, Presentation(candidates[n], text.value));
    }
  }

  /** The menu goes from the hexadecimal forms to the name, with no syntax twice. */
  lemma PresentationsAreOrdered(c: ColorValue, options: Options)
    requires Drawable(c)
    ensures Rising(Offered(c, Candidates(IsOpaque(c)), options))
  {
    MenuIsOrdered(c, Candidates(IsOpaque(c)), options, 7);
  }

  /** Each text offered is, put where the language is the same, one literal of the syntax it was offered in. */
  lemma EveryPresentationIsRead(c: ColorValue, options: Options, p: Presentation)
    requires Drawable(c) && Proper(options.table) && Faithful(options.number)
    requires p in Offered(c, Candidates(IsOpaque(c)), options)
    ensures Undone(c, p.syntax, p.text, options)
  {
    OfferedJustWhen(c, options, p);
    ScanUndoesFormat(c, p.syntax, p.text, options);
  }
}
