/**
 The other half of what a literal is: wherever the scan looks and one stands, it is found, in any letter case
 (Source/Editor/ColorLiteral.cpp:585-680).
 */
module ColorFound {
  import opened Common
  import ColorSpace
  import opened NamedColors
  import opened ColorTokens
  import opened ColorScan
  import opened ColorMeaning

  /** The scan's turn at a place finds a literal if and only if one stands there, and then that one. */
  lemma FoundJustWhereOneStands(text: string, l: ColorLiteral, options: Options)
    requires Ascending(options.table) && l.begin < |text|
    ensures TurnAt(text, l.begin, LanguageOf(options)).found == Some(l) <==> StandsFor(text, l, options)
  {
    if TurnAt(text, l.begin, LanguageOf(options)).found == Some(l) {
      TurnStands(text, l.begin, options);
    }
    if StandsFor(text, l, options) {
      match l.syntax
      case HexShort => ShortIsFound(text, l, 3, options);
      case HexShortAlpha => ShortIsFound(text, l, 4, options);
      case Hex => LongIsFound(text, l, 6, options);
      case HexAlpha => LongIsFound(text, l, 8, options);
      case Named => NameIsFound(text, l, options);
      case Rgb => CallIsFound(text, l, "rgb", options);
      case Rgba => CallIsFound(text, l, "rgba", options);
      case Hsl => CallIsFound(text, l, "hsl", options);
      case Hsla => CallIsFound(text, l, "hsla", options);
      case Hwb => CallIsFound(text, l, "hwb", options);
    }
  }

  /** A text that is one literal is scanned as that literal. */
  lemma WholeTextIsFound(text: string, l: ColorLiteral, options: Options)
    requires Ascending(options.table) && StandsFor(text, l, options) && l.begin == 0 && l.end == |text| > 0
    ensures Scan(text, options) == [l]
  {
    FoundJustWhereOneStands(text, l, options);
    SoleTurn(text, 0, l, LanguageOf(options));
  }

  lemma SoleTurn(text: string, i: nat, l: ColorLiteral, lang: Language)
    requires i < |text| && TurnAt(text, i, lang).found == Some(l) && l.end == |text|
    ensures ScanFrom(text, i, lang) == [l]
  {
  }

  // ---- hexadecimal ----

  lemma {:induction false} HexEndIs(text: string, i: nat, end: nat)
    requires i <= end <= |text| && (forall k :: i <= k < end ==> IsHexDigit(text[k]))
    requires end < |text| ==> !IsHexDigit(text[end])
    ensures HexEnd(text, i) == end
    decreases end - i
  {
    if i < end {
      HexEndIs(text, i + 1, end);
    }
  }

  lemma SameChannel(a: real, b: real, high: char, low: char)
    requires ByHex(a, high, low) && ByHex(b, high, low)
    ensures a == b
  {
  }

  /** The turn at a number sign, when it is known where the digits end. */
  lemma HexTurnIs(text: string, l: ColorLiteral, at: nat, lang: Language)
    requires at == l.begin + 1 <= l.end <= |text| && text[l.begin] == '#'
    requires (forall k :: at <= k < l.end ==> IsHexDigit(text[k])) && (l.end < |text| ==> !WordLike(text[l.end]))
    requires HexSyntax(l.end - at, lang) == Some(l.syntax) && HexToColor(text[at..l.end]) == l.color
    ensures TurnAt(text, l.begin, lang).found == Some(l)
  {
    HexEndIs(text, at, l.end);
  }

  lemma ShortIsFound(text: string, l: ColorLiteral, n: nat, options: Options)
    requires StandsFor(text, l, options) && l.begin < |text| && l.syntax == (if n == 3 then HexShort else HexShortAlpha)
    requires n == 3 || n == 4
    ensures TurnAt(text, l.begin, LanguageOf(options)).found == Some(l)
  {
    var at := l.begin + 1;
    ShortDigits(text, l, at, n, options);
    var digits := text[at..l.end];
    var c := HexToColor(digits);
    ShortStands(text, at, digits, c);
    SameChannel(c.red, l.color.red, text[at], text[at]);
    SameChannel(c.green, l.color.green, text[at + 1], text[at + 1]);
    SameChannel(c.blue, l.color.blue, text[at + 2], text[at + 2]);
    if n == 4 {
      SameChannel(c.alpha, l.color.alpha, text[at + 3], text[at + 3]);
    }
    HexTurnIs(text, l, at, LanguageOf(options));
  }

  lemma ShortDigits(text: string, l: ColorLiteral, at: nat, n: nat, options: Options)
    requires StandsFor(text, l, options) && at == l.begin + 1
    requires l.syntax == (if n == 3 then HexShort else HexShortAlpha) && (n == 3 || n == 4)
    ensures l.end == at + n <= |text| && forall k :: at <= k < l.end ==> IsHexDigit(text[k])
  {
    forall k | at <= k < l.end ensures IsHexDigit(text[k]) {
      assert k == at || k == at + 1 || k == at + 2 || k == at + 3;
    }
  }

  lemma LongIsFound(text: string, l: ColorLiteral, n: nat, options: Options)
    requires StandsFor(text, l, options) && l.begin < |text| && l.syntax == (if n == 6 then Hex else HexAlpha)
    requires n == 6 || n == 8
    ensures TurnAt(text, l.begin, LanguageOf(options)).found == Some(l)
  {
    var at := l.begin + 1;
    LongDigits(text, l, at, n, options);
    var digits := text[at..l.end];
    var c := HexToColor(digits);
    LongStands(text, at, digits, c);
    SameChannel(c.red, l.color.red, text[at], text[at + 1]);
    SameChannel(c.green, l.color.green, text[at + 2], text[at + 3]);
    SameChannel(c.blue, l.color.blue, text[at + 4], text[at + 5]);
    if n == 8 {
      SameChannel(c.alpha, l.color.alpha, text[at + 6], text[at + 7]);
    }
    HexTurnIs(text, l, at, LanguageOf(options));
  }

  lemma LongDigits(text: string, l: ColorLiteral, at: nat, n: nat, options: Options)
    requires StandsFor(text, l, options) && at == l.begin + 1 && l.syntax == (if n == 6 then Hex else HexAlpha)
    requires n == 6 || n == 8
    ensures l.end == at + n <= |text| && forall k :: at <= k < l.end ==> IsHexDigit(text[k])
  {
    AreDigits(l.color.red, text, at);
    AreDigits(l.color.green, text, at + 2);
    AreDigits(l.color.blue, text, at + 4);
    if n == 8 {
      AreDigits(l.color.alpha, text, at + 6);
    }
  }

  lemma AreDigits(channel: real, text: string, at: nat)
    requires at + 1 < |text| && ByHex(channel, text[at], text[at + 1])
    ensures forall k :: at <= k < at + 2 ==> IsHexDigit(text[k])
  {
  }

  // ---- words ----

  lemma {:induction false} WordEndIs(text: string, i: nat, end: nat)
    requires i <= end <= |text| && (forall k :: i <= k < end ==> IsLetter(text[k]))
    requires end < |text| ==> !IsIdentChar(text[end])
    ensures WordEnd(text, i) == end
    decreases end - i
  {
    if i < end {
      WordEndIs(text, i + 1, end);
    }
  }

  lemma SpellsLowered(word: string, name: string)
    requires Spells(word, name)
    ensures ToLower(word) == name && forall k :: 0 <= k < |word| ==> IsLetter(word[k])
  {
  }

  /** A word spelled like a name is read as that name. */
  lemma WordIs(text: string, i: nat, end: nat, name: string)
    requires i < end <= |text| && Spells(text[i..end], name) && (end < |text| ==> !IsIdentChar(text[end]))
    ensures WordEnd(text, i) == end && ToLower(text[i..end]) == name
    ensures forall k :: i <= k < end ==> IsLetter(text[k])
  {
    SpellsLowered(text[i..end], name);
    forall k | i <= k < end ensures IsLetter(text[k]) {
      assert text[i..end][k - i] == text[k];
    }
    WordEndIs(text, i, end);
  }

  lemma NameIsFound(text: string, l: ColorLiteral, options: Options)
    requires Ascending(options.table) && StandsFor(text, l, options) && l.syntax == Named && l.begin < |text|
    ensures TurnAt(text, l.begin, LanguageOf(options)).found == Some(l)
  {
    var i :| 0 <= i < |options.table| && Spells(text[l.begin..l.end], options.table[i].name)
      && EntryColor(options.table[i], l.color);
    WordIs(text, l.begin, l.end, options.table[i].name);
    LookupFinds(options.table, i);
    SameEntry(options.table[i], l.color);
  }

  lemma SameEntry(entry: NamedColor, c: ColorSpace.ColorValue)
    requires EntryColor(entry, c)
    ensures c == NamedColors.ColorOf(entry.rgb, if entry.name == "transparent" then 0.0 else 1.0)
  {
  }

  /** The turn at a word with a parenthesis behind it. */
  lemma CallTurnIs(text: string, i: nat, open: nat, name: string, lang: Language)
    requires i < open < |text| && text[open] == '(' && WordBegins(text, i)
    requires WordEnd(text, i) == open && ToLower(text[i..open]) == name
    requires forall k :: i <= k < open ==> IsLetter(text[k])
    ensures TurnAt(text, i, lang).found == FunctionalTurn(text, i, open, name, lang).found
  {
  }

  lemma CallIsFound(text: string, l: ColorLiteral, name: string, options: Options)
    requires CallLiteral(text, l, name, options) && FunctionalSyntaxFor(name) == Some(l.syntax) && l.begin < |text|
    ensures TurnAt(text, l.begin, LanguageOf(options)).found == Some(l)
  {
    var open :| CallAt(text, l, open, name, options);
    WordIs(text, l.begin, open, name);
    CallsAreRead(options);
    CallStandsAt(text, l, open, name, LanguageOf(options), options);
  }

  lemma CallStandsAt(text: string, l: ColorLiteral, open: nat, name: string, lang: Language, options: Options)
    requires CallAt(text, l, open, name, options) && FunctionalSyntaxFor(name) == Some(l.syntax)
    requires WordBegins(text, l.begin) && ReadsCalls(lang, options.number)
    requires WordEnd(text, l.begin) == open && ToLower(text[l.begin..open]) == name
    requires forall k :: l.begin <= k < open ==> IsLetter(text[k])
    ensures TurnAt(text, l.begin, lang).found == Some(l)
  {
    CallIs(text, l, open, name, lang, options);
    CallTurnIs(text, l.begin, open, name, lang);
  }
}
