/**
 What a literal found in a text is, said on its characters and on the options alone
 (Source/Editor/ColorLiteral.cpp:585-680).
 */
module ColorMeaning {
  import opened Common
  import opened ColorSpace
  import opened NamedColors
  import opened ColorTokens
  import opened ColorArguments
  import opened ColorScan

  // ---- on the characters ----

  /** What a digit of either case stands for. */
  function Sixteenths(c: char): (v: int)
    ensures v >= 0 <==> IsHexDigit(c)
    ensures v >= 0 ==> v == HexValue(c)
  {
    match c
    case '0' => 0
    case '1' => 1
    case '2' => 2
    case '3' => 3
    case '4' => 4
    case '5' => 5
    case '6' => 6
    case '7' => 7
    case '8' => 8
    case '9' => 9
    case 'a' | 'A' => 10
    case 'b' | 'B' => 11
    case 'c' | 'C' => 12
    case 'd' | 'D' => 13
    case 'e' | 'E' => 14
    case 'f' | 'F' => 15
    case _ => -1
  }

  /** Two digits, or one that stands for itself twice, say how much of 255 a channel is. */
  predicate ByHex(channel: real, high: char, low: char) {
    var x, y := Sixteenths(high), Sixteenths(low);
    x >= 0 && y >= 0 && channel * 255.0 == (16 * x + y) as real
  }

  /** A number sign and so many hexadecimal digits, with nothing word-like behind them. */
  predicate HexLiteral(text: string, l: ColorLiteral, digits: nat) {
    && l.end == l.begin + 1 + digits <= |text| && text[l.begin] == '#'
    && (l.end < |text| ==> !WordLike(text[l.end]))
  }

  predicate ShortColor(text: string, at: nat, c: ColorValue)
    requires at + 3 <= |text|
  {
    && ByHex(c.red, text[at], text[at]) && ByHex(c.green, text[at + 1], text[at + 1])
    && ByHex(c.blue, text[at + 2], text[at + 2])
  }

  predicate LongColor(text: string, at: nat, c: ColorValue)
    requires at + 6 <= |text|
  {
    && ByHex(c.red, text[at], text[at + 1]) && ByHex(c.green, text[at + 2], text[at + 3])
    && ByHex(c.blue, text[at + 4], text[at + 5])
  }

  /** The same letters, whatever their case. */
  predicate Spells(word: string, name: string) {
    |word| == |name| && forall k :: 0 <= k < |word| ==>
      'a' <= name[k] <= 'z' && (word[k] == name[k] || word[k] as int + 32 == name[k] as int)
  }

  predicate WordLike(c: char) {
    '0' <= c <= '9' || 'a' <= c <= 'z' || 'A' <= c <= 'Z' || c == '_'
  }

  predicate WordBegins(text: string, i: nat)
    requires i <= |text|
  {
    i > 0 ==> !WordLike(text[i - 1]) && text[i - 1] != '-'
  }

  /** A name, and within its next 128 characters a pair of parentheses with none between. */
  ghost predicate CallAt(text: string, l: ColorLiteral, open: nat, name: string, options: Options) {
    && l.begin < open < l.end - 1 < open + 128 && l.end <= |text|
    && Spells(text[l.begin..open], name) && text[open] == '(' && text[l.end - 1] == ')'
    && (forall k :: open < k < l.end - 1 ==> text[k] != '(' && text[k] != ')')
    && InnerSays(name, text[open + 1..l.end - 1], options.number, l.color)
  }

  ghost predicate CallLiteral(text: string, l: ColorLiteral, name: string, options: Options) {
    l.begin <= |text| && WordBegins(text, l.begin) && exists open :: CallAt(text, l, open, name, options)
  }

  ghost predicate InnerSays(name: string, inner: string, number: NumberReader, c: ColorValue) {
    exists gaps, values :: Says(name, gaps, values, number, c) && Joined(gaps, values) == inner
  }

  /** A whole word, no call, that some entry of the table is spelled like. */
  ghost predicate NamedLiteral(text: string, l: ColorLiteral, options: Options) {
    && l.begin < l.end <= |text| && WordBegins(text, l.begin)
    && (l.end < |text| ==> !WordLike(text[l.end]) && text[l.end] != '-' && text[l.end] != '(')
    && exists i :: 0 <= i < |options.table| && Spells(text[l.begin..l.end], options.table[i].name)
         && EntryColor(options.table[i], l.color)
  }

  predicate EntryColor(entry: NamedColor, c: ColorValue) {
    && c.red * 255.0 == (entry.rgb / 65536) as real
    && c.green * 255.0 == (entry.rgb / 256 % 256) as real
    && c.blue * 255.0 == (entry.rgb % 256) as real
    && c.alpha == if entry.name == "transparent" then 0.0 else 1.0
  }

  /** What a literal's syntax says of the text it stands on. */
  ghost predicate StandsFor(text: string, l: ColorLiteral, options: Options) {
    match l.syntax
    case HexShort =>
      options.shortHex && HexLiteral(text, l, 3) && ShortColor(text, l.begin + 1, l.color) && l.color.alpha == 1.0
    case HexShortAlpha =>
      && options.shortHex && HexLiteral(text, l, 4) && ShortColor(text, l.begin + 1, l.color)
      && ByHex(l.color.alpha, text[l.begin + 4], text[l.begin + 4])
    case Hex => HexLiteral(text, l, 6) && LongColor(text, l.begin + 1, l.color) && l.color.alpha == 1.0
    case HexAlpha =>
      && HexLiteral(text, l, 8) && LongColor(text, l.begin + 1, l.color)
      && ByHex(l.color.alpha, text[l.begin + 7], text[l.begin + 8])
    case Rgb => CallLiteral(text, l, "rgb", options)
    case Rgba => CallLiteral(text, l, "rgba", options)
    case Hsl => CallLiteral(text, l, "hsl", options)
    case Hsla => CallLiteral(text, l, "hsla", options)
    case Hwb => CallLiteral(text, l, "hwb", options)
    case Named => options.namedColors && NamedLiteral(text, l, options)
  }

  // ---- what the scan finds stands for what it says ----

  lemma DigitsMean(channel: real, high: char, low: char)
    requires IsHexDigit(high) && IsHexDigit(low)
    requires channel == (HexValue(high) * 16 + HexValue(low)) as real / 255.0
    ensures ByHex(channel, high, low)
  {
    assert channel * 255.0 == (16 * HexValue(high) + HexValue(low)) as real;
  }

  lemma ShortChannel(digits: string, i: nat)
    requires (forall k :: 0 <= k < |digits| ==> IsHexDigit(digits[k])) && |digits| in {3, 4} && i < |digits|
    ensures ByHex(HexChannel(digits, i), digits[i], digits[i])
  {
    DigitsMean(HexChannel(digits, i), digits[i], digits[i]);
  }

  lemma LongChannel(digits: string, i: nat)
    requires (forall k :: 0 <= k < |digits| ==> IsHexDigit(digits[k])) && |digits| in {6, 8} && 2 * i + 1 < |digits|
    ensures ByHex(HexChannel(digits, i), digits[2 * i], digits[2 * i + 1])
  {
    DigitsMean(HexChannel(digits, i), digits[2 * i], digits[2 * i + 1]);
  }

  lemma HexMeans(text: string, i: nat, options: Options)
    requires i < |text| && text[i] == '#' && HexTurn(text, i, LanguageOf(options)).found.Some?
    ensures StandsFor(text, HexTurn(text, i, LanguageOf(options)).found.value, options)
  {
    var l := HexTurn(text, i, LanguageOf(options)).found.value;
    if l.end - i - 1 <= 4 {
      ShortMeans(text, l, text[i + 1..l.end], options);
    } else {
      LongMeans(text, l, text[i + 1..l.end], options);
    }
  }

  lemma ShortMeans(text: string, l: ColorLiteral, digits: string, options: Options)
    requires l.begin < l.end <= |text| && text[l.begin] == '#' && digits == text[l.begin + 1..l.end]
    requires (forall k :: 0 <= k < |digits| ==> IsHexDigit(digits[k])) && |digits| in {3, 4}
    requires l.end < |text| ==> !WordLike(text[l.end])
    requires l.color == HexToColor(digits) && Some(l.syntax) == HexSyntax(|digits|, LanguageOf(options))
    ensures StandsFor(text, l, options)
  {
    ShortStands(text, l.begin + 1, digits, l.color);
  }

  lemma LongMeans(text: string, l: ColorLiteral, digits: string, options: Options)
    requires l.begin < l.end <= |text| && text[l.begin] == '#' && digits == text[l.begin + 1..l.end]
    requires (forall k :: 0 <= k < |digits| ==> IsHexDigit(digits[k])) && |digits| in {6, 8}
    requires l.end < |text| ==> !WordLike(text[l.end])
    requires l.color == HexToColor(digits) && Some(l.syntax) == HexSyntax(|digits|, LanguageOf(options))
    ensures StandsFor(text, l, options)
  {
    var at, n := l.begin + 1, |digits|;
    assert HexLiteral(text, l, n);
    assert l.syntax == if n == 8 then HexAlpha else Hex;
    LongStands(text, at, digits, l.color);
    assert n == 8 ==> ByHex(l.color.alpha, text[at + 6], text[at + 7]);
  }

  lemma ShortAt(text: string, at: nat, digits: string, i: nat)
    requires (forall k :: 0 <= k < |digits| ==> IsHexDigit(digits[k])) && |digits| in {3, 4} && i < |digits|
    requires at + |digits| <= |text| && digits == text[at..at + |digits|]
    ensures ByHex(HexChannel(digits, i), text[at + i], text[at + i])
  {
    assert digits[i] == text[at + i];
    ShortChannel(digits, i);
  }

  lemma ShortStands(text: string, at: nat, digits: string, c: ColorValue)
    requires (forall k :: 0 <= k < |digits| ==> IsHexDigit(digits[k])) && |digits| in {3, 4}
    requires at + |digits| <= |text| && digits == text[at..at + |digits|]
    requires c == HexToColor(digits)
    ensures ShortColor(text, at, c)
    ensures if |digits| == 4 then ByHex(c.alpha, text[at + 3], text[at + 3]) else c.alpha == 1.0
  {
    ShortAt(text, at, digits, 0);
    ShortAt(text, at, digits, 1);
    ShortAt(text, at, digits, 2);
    if |digits| == 4 {
      ShortAt(text, at, digits, 3);
    }
  }

  lemma LongAt(text: string, at: nat, digits: string, i: nat)
    requires (forall k :: 0 <= k < |digits| ==> IsHexDigit(digits[k])) && |digits| in {6, 8} && 2 * i + 1 < |digits|
    requires at + |digits| <= |text| && digits == text[at..at + |digits|]
    ensures ByHex(HexChannel(digits, i), text[at + 2 * i], text[at + 2 * i + 1])
  {
    assert digits[2 * i] == text[at + 2 * i] && digits[2 * i + 1] == text[at + (2 * i + 1)];
    LongChannel(digits, i);
  }

  lemma LongStands(text: string, at: nat, digits: string, c: ColorValue)
    requires (forall k :: 0 <= k < |digits| ==> IsHexDigit(digits[k])) && |digits| in {6, 8}
    requires at + |digits| <= |text| && digits == text[at..at + |digits|]
    requires c == HexToColor(digits)
    ensures LongColor(text, at, c)
    ensures if |digits| == 8 then ByHex(c.alpha, text[at + 6], text[at + 7]) else c.alpha == 1.0
  {
    LongAt(text, at, digits, 0);
    LongAt(text, at, digits, 1);
    LongAt(text, at, digits, 2);
    if |digits| == 8 {
      LongAt(text, at, digits, 3);
    }
  }

  lemma LoweredSpells(word: string, name: string)
    requires ToLower(word) == name && forall k :: 0 <= k < |word| ==> IsLetter(word[k])
    ensures Spells(word, name)
  {
    forall k | 0 <= k < |word|
      ensures 'a' <= name[k] <= 'z' && (word[k] == name[k] || word[k] as int + 32 == name[k] as int)
    {
      assert name[k] == Lower(word[k]);
    }
  }

  lemma CallStands(text: string, i: nat, wordEnd: nat, options: Options)
    requires i < wordEnd < |text| && WordBegins(text, i) && text[wordEnd] == '('
    requires forall k :: i <= k < wordEnd ==> IsLetter(text[k])
    requires FunctionalTurn(text, i, wordEnd, ToLower(text[i..wordEnd]), LanguageOf(options)).found.Some?
    ensures StandsFor(
      text, FunctionalTurn(text, i, wordEnd, ToLower(text[i..wordEnd]), LanguageOf(options)).found.value, options)
  {
    var name := ToLower(text[i..wordEnd]);
    LoweredSpells(text[i..wordEnd], name);
    var l := FunctionalTurn(text, i, wordEnd, name, LanguageOf(options)).found.value;
    CallsAreRead(options);
    CallIs(text, l, wordEnd, name, LanguageOf(options), options);
    assert CallAt(text, l, wordEnd, name, options);
  }

  /** How far a call may reach. */
  function Limit(text: string, open: nat): nat {
    if |text| < open + MAX_FUNCTIONAL_LENGTH then |text| else open + MAX_FUNCTIONAL_LENGTH
  }

  predicate Closes(text: string, open: nat, close: nat) {
    && open < close < open + 128 && close < |text| && text[close] == ')'
    && forall k :: open < k < close ==> text[k] != '(' && text[k] != ')'
  }

  lemma ClosesAt(text: string, open: nat, close: nat)
    requires open < |text|
    ensures var end := ParenEnd(text, open + 1, Limit(text, open));
      end == close && end < Limit(text, open) && text[end] == ')' <==> Closes(text, open, close)
  {
    var end := ParenEnd(text, open + 1, Limit(text, open));
    if Closes(text, open, close) {
      assert close < end ==> !IsParen(text[close]);
    }
  }

  /** The language reads a call as what its inside says. */
  ghost predicate ReadsCalls(lang: Language, number: NumberReader) {
    forall name, inner, c :: lang.call(name, inner) == Some(c) <==> InnerSays(name, inner, number, c)
  }

  lemma CallsAreRead(options: Options)
    ensures ReadsCalls(LanguageOf(options), options.number)
  {
    forall name, inner, c
      ensures LanguageOf(options).call(name, inner) == Some(c) <==> InnerSays(name, inner, options.number, c)
    {
      CallSays(name, inner, options.number, c);
    }
  }

  /** The turn at a name and a parenthesis finds a call just where one stands. */
  lemma CallIs(text: string, l: ColorLiteral, open: nat, name: string, lang: Language, options: Options)
    requires l.begin < open < |text| && text[open] == '(' && Spells(text[l.begin..open], name)
    requires ReadsCalls(lang, options.number)
    ensures FunctionalTurn(text, l.begin, open, name, lang).found == Some(l) <==>
      FunctionalSyntaxFor(name) == Some(l.syntax) && CallAt(text, l, open, name, options)
  {
    TurnCalls(text, l, open, name, lang);
  }

  lemma TurnCalls(text: string, l: ColorLiteral, open: nat, name: string, lang: Language)
    requires l.begin < open < |text| && text[open] == '('
    ensures FunctionalTurn(text, l.begin, open, name, lang).found == Some(l) <==>
      && FunctionalSyntaxFor(name) == Some(l.syntax)
      && l.end > 0 && Closes(text, open, l.end - 1) && lang.call(name, text[open + 1..l.end - 1]) == Some(l.color)
  {
    var close := ParenEnd(text, open + 1, Limit(text, open));
    ClosesAt(text, open, close);
    if l.end > 0 {
      ClosesAt(text, open, l.end - 1);
    }
  }

  lemma EntryMeans(entry: NamedColor, alpha: real)
    requires alpha == if entry.name == TRANSPARENT then 0.0 else 1.0
    ensures EntryColor(entry, ColorOf(entry.rgb, alpha))
  {
    var r, g, b := entry.rgb / 0x1_0000, entry.rgb / 0x100 % 0x100, entry.rgb % 0x100;
    assert r as real / 255.0 * 255.0 == r as real;
    assert g as real / 255.0 * 255.0 == g as real;
    assert b as real / 255.0 * 255.0 == b as real;
  }

  lemma NameStands(text: string, i: nat, wordEnd: nat, options: Options)
    requires i < wordEnd <= |text| && wordEnd == WordEnd(text, i) && WordBegins(text, i)
    requires wordEnd < |text| ==> text[wordEnd] != '('
    requires forall k :: i <= k < wordEnd ==> IsLetter(text[k])
    requires LanguageOf(options).word(ToLower(text[i..wordEnd])).Some?
    ensures options.namedColors
    ensures var colour := LanguageOf(options).word(ToLower(text[i..wordEnd])).value;
      NamedLiteral(text, ColorLiteral(i, wordEnd, colour, Named), options)
  {
    var lowered := ToLower(text[i..wordEnd]);
    LoweredSpells(text[i..wordEnd], lowered);
    var at := LowerBound(options.table, lowered, 0, |options.table|);
    EntryMeans(options.table[at], if lowered == TRANSPARENT then 0.0 else 1.0);
  }

  lemma TurnStands(text: string, i: nat, options: Options)
    requires i < |text| && TurnAt(text, i, LanguageOf(options)).found.Some?
    ensures StandsFor(text, TurnAt(text, i, LanguageOf(options)).found.value, options)
  {
    if text[i] == '#' {
      HexMeans(text, i, options);
    } else {
      WordStands(text, i, WordEnd(text, i), options);
    }
  }

  lemma WordStands(text: string, i: nat, wordEnd: nat, options: Options)
    requires i < |text| && IsLetter(text[i]) && WordBegins(text, i) && wordEnd == WordEnd(text, i)
    requires WordTurn(text, i, LanguageOf(options)).found.Some?
    ensures StandsFor(text, WordTurn(text, i, LanguageOf(options)).found.value, options)
  {
    WordIsLetters(text, i, wordEnd);
    if wordEnd < |text| && text[wordEnd] == '(' {
      CallStands(text, i, wordEnd, options);
    } else {
      NameStands(text, i, wordEnd, options);
    }
  }

  lemma WordIsLetters(text: string, i: nat, wordEnd: nat)
    requires i < |text| && IsLetter(text[i]) && wordEnd == WordEnd(text, i)
    ensures i < wordEnd
    ensures var word := text[i..wordEnd];
      (forall k :: 0 <= k < |word| ==> IsLetter(word[k])) ==> forall k :: i <= k < wordEnd ==> IsLetter(text[k])
  {
    var word := text[i..wordEnd];
    assert forall k :: i <= k < wordEnd ==> text[k] == word[k - i];
  }

  /**
   On every text and for every language: each literal found stands for what its syntax says, and short forms and
   names are found only where the language has them.
   */
  lemma {:induction false} LiteralsStand(text: string, i: nat, options: Options)
    requires i <= |text|
    ensures forall l <- ScanFrom(text, i, LanguageOf(options)) :: StandsFor(text, l, options)
    decreases |text| - i
  {
    if i < |text| {
      var turn := TurnAt(text, i, LanguageOf(options));
      LiteralsStand(text, turn.next, options);
      if turn.found.Some? {
        TurnStands(text, i, options);
      }
      forall l | l in ScanFrom(text, i, LanguageOf(options)) ensures StandsFor(text, l, options) {
        assert l in Found(turn) || l in ScanFrom(text, turn.next, LanguageOf(options));
      }
    }
  }

  /** So of a scan as a whole, and in particular where a language has no names, or no short forms. */
  lemma ScanStands(text: string, options: Options)
    ensures forall l <- Scan(text, options) :: StandsFor(text, l, options)
    ensures !options.namedColors ==> forall l <- Scan(text, options) :: l.syntax != Named
    ensures !options.shortHex ==> forall l <- Scan(text, options) :: l.syntax != HexShort && l.syntax != HexShortAlpha
  {
    LiteralsStand(text, 0, options);
  }
}
