/**
 Colour literals in text (Source/Editor/ColorLiteral.cpp:20-57, 351-371, 585-693): hexadecimal, functional
 and named, found by one pass with a cursor.
 */
module ColorScan {
  import opened Common
  import opened ColorSpace
  import opened NamedColors
  import opened ColorTokens

  datatype Syntax = HexShort | HexShortAlpha | Hex | HexAlpha | Rgb | Rgba | Hsl | Hsla | Hwb | Named

  datatype ColorLiteral = ColorLiteral(begin: nat, end: nat, color: ColorValue, syntax: Syntax)

  /** What the buffer's language admits, the table of names, and how numbers are read. */
  datatype Options = Options(shortHex: bool, namedColors: bool, table: seq<NamedColor>, number: NumberReader)

  /** The options as the scan uses them: how a call and how a bare word are read, given in lower case. */
  datatype Language = Language(shortHex: bool, call: (string, string) -> Option<ColorValue>,
    word: string -> Option<ColorValue>)

  function LanguageOf(options: Options): Language {
    Language(
      options.shortHex,
      (name, inner) => ParseFunctionalColor(name, inner, options.number),
      lowered => if options.namedColors then LookupNamedColor(options.table, lowered) else None)
  }

  const MAX_FUNCTIONAL_LENGTH: nat := 128

  // ---- characters ----

  predicate IsDecimal(c: char) {
    '0' <= c <= '9'
  }

  predicate IsHexDigit(c: char) {
    IsDecimal(c) || 'a' <= c <= 'f' || 'A' <= c <= 'F'
  }

  predicate IsLetter(c: char) {
    'a' <= c <= 'z' || 'A' <= c <= 'Z'
  }

  predicate IsIdentChar(c: char) {
    IsDecimal(c) || IsLetter(c) || c == '_' || c == '-'
  }

  function ToLower(s: string): (r: string)
    ensures |r| == |s|
  {
    seq(|s|, i requires 0 <= i < |s| => Lower(s[i]))
  }

  function HexValue(c: char): (v: nat)
    requires IsHexDigit(c)
    ensures v < 16
  {
    if IsDecimal(c) then c as int - '0' as int else Lower(c) as int - 'a' as int + 10
  }

  // ---- where runs end ----

  function HexEnd(text: string, i: nat): (end: nat)
    requires i <= |text|
    ensures i <= end <= |text| && forall k :: i <= k < end ==> IsHexDigit(text[k])
    ensures end < |text| ==> !IsHexDigit(text[end])
    decreases |text| - i
  {
    if i < |text| && IsHexDigit(text[i]) then HexEnd(text, i + 1) else i
  }

  function WordEnd(text: string, i: nat): (end: nat)
    requires i <= |text|
    ensures i <= end <= |text| && forall k :: i <= k < end ==> IsIdentChar(text[k])
    ensures end < |text| ==> !IsIdentChar(text[end])
    decreases |text| - i
  {
    if i < |text| && IsIdentChar(text[i]) then WordEnd(text, i + 1) else i
  }

  predicate IsParen(c: char) {
    c == '(' || c == ')'
  }

  /** The next parenthesis of either kind before the limit. */
  function ParenEnd(text: string, i: nat, limit: nat): (end: nat)
    requires i <= limit <= |text|
    ensures i <= end <= limit && forall k :: i <= k < end ==> !IsParen(text[k])
    ensures end < limit ==> IsParen(text[end])
    decreases limit - i
  {
    if i < limit && !IsParen(text[i]) then ParenEnd(text, i + 1, limit) else i
  }

  // ---- the recognisers ----

  /** Two digits of the long forms, one digit twice of the short ones. */
  function HexChannel(digits: string, channel: nat): real
    requires forall i :: 0 <= i < |digits| ==> IsHexDigit(digits[i])
    requires |digits| in {3, 4, 6, 8} && (if |digits| <= 4 then channel < |digits| else 2 * channel + 1 < |digits|)
  {
    if |digits| <= 4 then (HexValue(digits[channel]) * 17) as real / 255.0
    else (HexValue(digits[2 * channel]) * 16 + HexValue(digits[2 * channel + 1])) as real / 255.0
  }

  function HexToColor(digits: string): ColorValue
    requires forall i :: 0 <= i < |digits| ==> IsHexDigit(digits[i])
    requires |digits| in {3, 4, 6, 8}
  {
    ColorValue(HexChannel(digits, 0), HexChannel(digits, 1), HexChannel(digits, 2),
               if |digits| == 4 || |digits| == 8 then HexChannel(digits, 3) else 1.0)
  }

  function HexSyntax(length: nat, lang: Language): (r: Option<Syntax>)
    ensures r.Some? ==> length in {3, 4, 6, 8}
  {
    if length == 6 then Some(Hex)
    else if length == 8 then Some(HexAlpha)
    else if length == 3 && lang.shortHex then Some(HexShort)
    else if length == 4 && lang.shortHex then Some(HexShortAlpha)
    else None
  }

  function FunctionalSyntaxFor(name: string): Option<Syntax> {
    if name == "rgb" then Some(Rgb)
    else if name == "rgba" then Some(Rgba)
    else if name == "hsl" then Some(Hsl)
    else if name == "hsla" then Some(Hsla)
    else if name == "hwb" then Some(Hwb)
    else None
  }

  /** What one turn of the scan does at `i`: a literal starting there, perhaps, and where to go on. */
  datatype Turn = Turn(found: Option<ColorLiteral>, next: nat)

  /** A turn that moves on, and whose literal is exactly what it passed over. */
  predicate Sound(turn: Turn, text: string, i: nat) {
    && i < turn.next <= |text|
    && (turn.found.Some? ==> turn.found.value.begin == i && turn.found.value.end == turn.next)
  }

  function HexTurn(text: string, i: nat, lang: Language): (r: Turn)
    requires i < |text| && text[i] == '#'
    ensures Sound(r, text, i)
  {
    var end := HexEnd(text, i + 1);
    var bounded := end >= |text| || (!IsLetter(text[end]) && !IsDecimal(text[end]) && text[end] != '_');
    var syntax := HexSyntax(end - i - 1, lang);
    if bounded && syntax.Some?
    then Turn(Some(ColorLiteral(i, end, HexToColor(text[i + 1..end]), syntax.value)), end)
    else Turn(None, end)
  }

  function FunctionalTurn(text: string, i: nat, wordEnd: nat, lowered: string, lang: Language): (r: Turn)
    requires i < wordEnd < |text|
    ensures Sound(r, text, i)
  {
    var syntax := FunctionalSyntaxFor(lowered);
    if syntax.None? then Turn(None, wordEnd)
    else
      var limit := if |text| < wordEnd + MAX_FUNCTIONAL_LENGTH then |text| else wordEnd + MAX_FUNCTIONAL_LENGTH;
      var close := ParenEnd(text, wordEnd + 1, limit);
      if close >= limit || text[close] != ')' then Turn(None, wordEnd)
      else
        match lang.call(lowered, text[wordEnd + 1..close])
        case Some(color) => Turn(Some(ColorLiteral(i, close + 1, color, syntax.value)), close + 1)
        case None => Turn(None, wordEnd)
  }

  function WordTurn(text: string, i: nat, lang: Language): (r: Turn)
    requires i < |text| && IsLetter(text[i])
    ensures Sound(r, text, i)
  {
    var wordEnd := WordEnd(text, i);
    var word := text[i..wordEnd];
    if !(forall k :: 0 <= k < |word| ==> IsLetter(word[k])) then Turn(None, wordEnd)
    else
      var lowered := ToLower(word);
      if wordEnd < |text| && text[wordEnd] == '(' then FunctionalTurn(text, i, wordEnd, lowered, lang)
      else
        match lang.word(lowered)
        case Some(color) => Turn(Some(ColorLiteral(i, wordEnd, color, Named)), wordEnd)
        case None => Turn(None, wordEnd)
  }

  function TurnAt(text: string, i: nat, lang: Language): (r: Turn)
    requires i < |text|
    ensures Sound(r, text, i)
  {
    if text[i] == '#' then HexTurn(text, i, lang)
    else if !IsLetter(text[i]) || (i > 0 && IsIdentChar(text[i - 1])) then Turn(None, i + 1)
    else WordTurn(text, i, lang)
  }

  function Found(turn: Turn): seq<ColorLiteral> {
    if turn.found.Some? then [turn.found.value] else []
  }

  function ScanFrom(text: string, i: nat, lang: Language): seq<ColorLiteral>
    requires i <= |text|
    decreases |text| - i
  {
    if i == |text| then []
    else
      var turn := TurnAt(text, i, lang);
      Found(turn) + ScanFrom(text, turn.next, lang)
  }

  function Scan(text: string, options: Options): seq<ColorLiteral> {
    ScanFrom(text, 0, LanguageOf(options))
  }

  /** One literal, and it is the whole text. */
  predicate Sole(found: seq<ColorLiteral>, size: int, color: ColorValue, syntax: Syntax) {
    && |found| == 1 && found[0].begin == 0 && found[0].end == size
    && found[0].color == color && found[0].syntax == syntax
  }

  // ---- the program ----

  method FindHexEnd(text: string, i: nat) returns (end: nat)
    requires i <= |text|
    ensures end == HexEnd(text, i)
  {
    end := i;
    while end < |text| && IsHexDigit(text[end])
      invariant i <= end <= |text| && HexEnd(text, end) == HexEnd(text, i)
    {
      end := end + 1;
    }
  }

  method FindWordEnd(text: string, i: nat) returns (end: nat)
    requires i <= |text|
    ensures end == WordEnd(text, i)
  {
    end := i;
    while end < |text| && IsIdentChar(text[end])
      invariant i <= end <= |text| && WordEnd(text, end) == WordEnd(text, i)
    {
      end := end + 1;
    }
  }

  method FindParen(text: string, i: nat, limit: nat) returns (close: nat)
    requires i <= limit <= |text|
    ensures close == ParenEnd(text, i, limit)
  {
    close := i;
    while close < limit && text[close] != ')' && text[close] != '('
      invariant i <= close <= limit && ParenEnd(text, close, limit) == ParenEnd(text, i, limit)
    {
      close := close + 1;
    }
  }

  method ScanFunction(text: string, i: nat, wordEnd: nat, lowered: string, lang: Language) returns (turn: Turn)
    requires i < wordEnd < |text|
    ensures turn == FunctionalTurn(text, i, wordEnd, lowered, lang)
  {
    var syntax := FunctionalSyntaxFor(lowered);
    if syntax.None? {
      return Turn(None, wordEnd);
    }
    var limit := if |text| < wordEnd + MAX_FUNCTIONAL_LENGTH then |text| else wordEnd + MAX_FUNCTIONAL_LENGTH;
    var close := FindParen(text, wordEnd + 1, limit);
    if close >= limit || text[close] != ')' {
      return Turn(None, wordEnd);
    }
    var color := lang.call(lowered, text[wordEnd + 1..close]);
    if color.Some? {
      return Turn(Some(ColorLiteral(i, close + 1, color.value, syntax.value)), close + 1);
    }
    return Turn(None, wordEnd);
  }

  method ScanColorLiterals(text: string, options: Options) returns (literals: seq<ColorLiteral>)
    ensures literals == Scan(text, options)
  {
    literals := ScanWith(text, LanguageOf(options));
  }

  method ScanWith(text: string, lang: Language) returns (literals: seq<ColorLiteral>)
    ensures literals == ScanFrom(text, 0, lang)
  {
    literals := [];
    var i := 0;
    while i < |text|
      invariant 0 <= i <= |text| && literals + ScanFrom(text, i, lang) == ScanFrom(text, 0, lang)
    {
      ghost var turn := TurnAt(text, i, lang);
      ghost var before := literals;
      assert before + (Found(turn) + ScanFrom(text, turn.next, lang)) ==
        before + Found(turn) + ScanFrom(text, turn.next, lang);
      if text[i] == '#' {
        var hexEnd := FindHexEnd(text, i + 1);
        var bounded := hexEnd >= |text| || (!IsLetter(text[hexEnd]) && !IsDecimal(text[hexEnd]) && text[hexEnd] != '_');
        var syntax := HexSyntax(hexEnd - i - 1, lang);
        if bounded && syntax.Some? {
          literals := literals + [ColorLiteral(i, hexEnd, HexToColor(text[i + 1..hexEnd]), syntax.value)];
        }
        i := hexEnd;
      } else if !IsLetter(text[i]) || (i > 0 && IsIdentChar(text[i - 1])) {
        i := i + 1;
      } else {
        var now := ScanWord(text, i, lang);
        literals := literals + Found(now);
        i := now.next;
      }
      assert literals == before + Found(turn) && i == turn.next;
    }
  }

  method ScanWord(text: string, i: nat, lang: Language) returns (turn: Turn)
    requires i < |text| && IsLetter(text[i])
    ensures turn == WordTurn(text, i, lang)
  {
    var wordEnd := FindWordEnd(text, i);
    var word := text[i..wordEnd];
    if exists k :: 0 <= k < |word| && !IsLetter(word[k]) {
      return Turn(None, wordEnd);
    }
    var lowered := ToLower(word);
    if wordEnd < |text| && text[wordEnd] == '(' {
      turn := ScanFunction(text, i, wordEnd, lowered, lang);
      return;
    }
    var color := lang.word(lowered);
    if color.Some? {
      return Turn(Some(ColorLiteral(i, wordEnd, color.value, Named)), wordEnd);
    }
    return Turn(None, wordEnd);
  }

  // ---- what every scan gives ----

  predicate Orderly(literals: seq<ColorLiteral>, from: nat, size: nat) {
    && (forall i :: 0 <= i < |literals| ==> from <= literals[i].begin < literals[i].end <= size)
    && (forall i, j :: 0 <= i < j < |literals| ==> literals[i].end <= literals[j].begin)
  }

  /** On every text: inside it, none empty, ascending, no two overlapping. */
  lemma {:induction false} ScanIsOrderly(text: string, i: nat, lang: Language)
    requires i <= |text|
    ensures Orderly(ScanFrom(text, i, lang), i, |text|)
    decreases |text| - i
  {
    if i < |text| {
      var turn := TurnAt(text, i, lang);
      ScanIsOrderly(text, turn.next, lang);
    }
  }

  // ---- the literal at an offset ----

  predicate Touches(l: ColorLiteral, offset: nat) {
    l.begin <= offset <= l.end
  }

  /** A full search: the first literal that touches the offset. */
  function FirstTouching(literals: seq<ColorLiteral>, offset: nat): Option<ColorLiteral> {
    if literals == [] then None
    else if Touches(literals[0], offset) then Some(literals[0])
    else FirstTouching(literals[1..], offset)
  }

  lemma {:induction false} NoneTouches(literals: seq<ColorLiteral>, offset: nat)
    requires forall i :: 0 <= i < |literals| ==> literals[i].begin > offset
    ensures FirstTouching(literals, offset) == None
  {
    if literals != [] {
      NoneTouches(literals[1..], offset);
    }
  }

  /** Stopping at the first literal behind the offset finds what a full search finds. */
  method ColorLiteralContaining(literals: seq<ColorLiteral>, offset: nat,
                                size: nat) returns (literal: Option<ColorLiteral>)
    requires Orderly(literals, 0, size)
    ensures literal == FirstTouching(literals, offset)
    ensures literal.None? <==> forall i :: 0 <= i < |literals| ==> !Touches(literals[i], offset)
  {
    assert literals[0..] == literals;
    for i := 0 to |literals|
      invariant FirstTouching(literals[i..], offset) == FirstTouching(literals, offset)
      invariant forall k :: 0 <= k < i ==> !Touches(literals[k], offset)
    {
      assert literals[i..][1..] == literals[i + 1..];
      if literals[i].begin <= offset <= literals[i].end {
        return Some(literals[i]);
      }
      if literals[i].begin > offset {
        NoneTouches(literals[i..], offset);
        return None;
      }
    }
    return None;
  }

  // ---- a literal stands for itself ----

  function Moved(l: ColorLiteral, offset: nat): ColorLiteral
    requires l.begin >= offset && l.end >= offset
  {
    l.(begin := l.begin - offset, end := l.end - offset)
  }

  lemma {:induction false} HexEndAlone(text: string, i: nat, from: nat, end: nat)
    requires from <= i <= end <= |text| && end == HexEnd(text, i)
    ensures HexEnd(text[from..end], i - from) == end - from
    decreases end - i
  {
    if i < end {
      HexEndAlone(text, i + 1, from, end);
    }
  }

  lemma {:induction false} WordEndAlone(text: string, i: nat, from: nat, end: nat, size: nat)
    requires from <= i <= end <= size <= |text| && end == WordEnd(text, i)
    ensures WordEnd(text[from..size], i - from) == end - from
    decreases end - i
  {
    if i < end {
      WordEndAlone(text, i + 1, from, end, size);
    }
  }

  lemma {:induction false} ParenEndAlone(text: string, i: nat, limit: nat, from: nat, close: nat)
    requires from <= i <= close < limit <= |text| && close == ParenEnd(text, i, limit)
    ensures ParenEnd(text[from..close + 1], i - from, close + 1 - from) == close - from
    decreases close - i
  {
    if i < close {
      ParenEndAlone(text, i + 1, limit, from, close);
    }
  }

  lemma Slice(text: string, from: nat, size: nat, a: nat, b: nat)
    requires from <= a <= b <= size <= |text|
    ensures text[from..size][a - from..b - from] == text[a..b]
  {
    var whole := text[from..size];
    assert forall k :: a <= k < b ==> whole[k - from] == text[k];
    assert |whole[a - from..b - from]| == |text[a..b]|;
    forall k | 0 <= k < b - a ensures whole[a - from..b - from][k] == text[a..b][k] {
    }
  }

  /** `alone` gives the one literal that was found at `i`. */
  predicate Alone(text: string, i: nat, lang: Language, found: ColorLiteral)
    requires i <= found.begin <= found.end <= |text| && i < found.end
  {
    TurnAt(text[i..found.end], 0, lang) == Turn(Some(Moved(found, i)), found.end - i)
  }

  lemma HexStandsAlone(text: string, i: nat, lang: Language)
    requires i < |text| && text[i] == '#' && HexTurn(text, i, lang).found.Some?
    ensures Alone(text, i, lang, HexTurn(text, i, lang).found.value)
  {
    var end := HexEnd(text, i + 1);
    HexEndAlone(text, i + 1, i, end);
    Slice(text, i, end, i + 1, end);
    assert text[i..end][0] == '#';
  }

  lemma WordStandsAlone(text: string, i: nat, lang: Language)
    requires i < |text| && IsLetter(text[i]) && WordTurn(text, i, lang).found.Some?
    ensures Alone(text, i, lang, WordTurn(text, i, lang).found.value)
  {
    var wordEnd := WordEnd(text, i);
    var lowered := ToLower(text[i..wordEnd]);
    var end := WordTurn(text, i, lang).next;
    var alone := text[i..end];
    assert alone[0] == text[i];
    WordEndAlone(text, i, i, wordEnd, end);
    Slice(text, i, end, i, wordEnd);
    if wordEnd < |text| && text[wordEnd] == '(' {
      assert alone[wordEnd - i] == '(';
      CallStandsAlone(text, i, wordEnd, lowered, lang);
    }
  }

  lemma CallStandsAlone(text: string, i: nat, wordEnd: nat, lowered: string, lang: Language)
    requires i < wordEnd < |text| && FunctionalTurn(text, i, wordEnd, lowered, lang).found.Some?
    ensures var turn := FunctionalTurn(text, i, wordEnd, lowered, lang);
      && wordEnd < turn.next
      && FunctionalTurn(text[i..turn.next], 0, wordEnd - i, lowered, lang) ==
        Turn(Some(Moved(turn.found.value, i)), turn.next - i)
  {
    var limit := if |text| < wordEnd + MAX_FUNCTIONAL_LENGTH then |text| else wordEnd + MAX_FUNCTIONAL_LENGTH;
    var close := ParenEnd(text, wordEnd + 1, limit);
    ParenEndAlone(text, wordEnd + 1, limit, i, close);
    Slice(text, i, close + 1, wordEnd + 1, close);
  }

  /** Each literal, cut out and scanned by itself, is one literal of the same colour and syntax. */
  lemma LiteralStandsAlone(text: string, i: nat, lang: Language)
    requires i < |text| && TurnAt(text, i, lang).found.Some?
    ensures var l := TurnAt(text, i, lang).found.value;
      l.begin == i < l.end <= |text| && ScanFrom(text[i..l.end], 0, lang) == [Moved(l, i)]
  {
    var turn := TurnAt(text, i, lang);
    if text[i] == '#' {
      HexStandsAlone(text, i, lang);
    } else {
      WordStandsAlone(text, i, lang);
    }
    OneTurn(text[i..turn.next], lang);
  }

  /** A turn over the whole text is the whole scan. */
  lemma OneTurn(text: string, lang: Language)
    requires text != "" && TurnAt(text, 0, lang).next == |text|
    ensures ScanFrom(text, 0, lang) == Found(TurnAt(text, 0, lang))
  {
    assert ScanFrom(text, |text|, lang) == [];
  }

  /** Every literal of a scan comes from a turn at its beginning. */
  lemma {:induction false} LiteralsComeFromTurns(text: string, from: nat, lang: Language, k: nat)
    requires from <= |text| && k < |ScanFrom(text, from, lang)|
    ensures var l := ScanFrom(text, from, lang)[k];
      l.begin < l.end <= |text| && TurnAt(text, l.begin, lang).found == Some(l)
    decreases |text| - from
  {
    var turn := TurnAt(text, from, lang);
    var n := |Found(turn)|;
    if k >= n {
      LiteralsComeFromTurns(text, turn.next, lang, k - n);
    }
  }

  /** On every text: each literal found, cut out and scanned again, is found again, whole. */
  lemma ScanningIsLocal(text: string, options: Options, k: nat)
    requires k < |Scan(text, options)|
    ensures var l := Scan(text, options)[k];
      l.begin < l.end <= |text| && Scan(text[l.begin..l.end], options) == [Moved(l, l.begin)]
  {
    LiteralsComeFromTurns(text, 0, LanguageOf(options), k);
    LiteralStandsAlone(text, Scan(text, options)[k].begin, LanguageOf(options));
  }
}
