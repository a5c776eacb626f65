/**
 Auto-pairing of brackets and quotes (Source/Editor/AutoPair.cpp:19-191) and what self-insert and backspace
 do with the decision (Source/Editor/Commands.cpp:794-815, 1800-1876). Text is a sequence of graphemes.
 */
module AutoPair {
  import opened Common

  type Pair = (char, char)

  datatype SyntaxClass = Default | String | StringEscape | Comment | DocComment | OtherClass

  datatype Action = InsertPlain | InsertPair | SkipOver | WrapSelection

  /** `classAtPoint` is what the mode's highlighting says; neighbours are "" at the ends of the text. */
  datatype Query = Query(
    typed: char,
    charBefore: string,
    charAfter: string,
    hasSelection: bool,
    classAtPoint: SyntaxClass,
    pairs: seq<Pair>)

  // ---- the decision ----

  function FindByOpen(c: char, pairs: seq<Pair>): (r: Option<Pair>)
    ensures r.Some? ==> r.value in pairs && r.value.0 == c
    ensures r.None? ==> forall p <- pairs :: p.0 != c
  {
    if pairs == [] then None else if pairs[0].0 == c then Some(pairs[0]) else FindByOpen(c, pairs[1..])
  }

  function FindByClose(c: char, pairs: seq<Pair>): (r: Option<Pair>)
    ensures r.Some? ==> r.value in pairs && r.value.1 == c
    ensures r.None? ==> forall p <- pairs :: p.1 != c
  {
    if pairs == [] then None else if pairs[0].1 == c then Some(pairs[0]) else FindByClose(c, pairs[1..])
  }

  /** The entry found for an opener is the first one that has it. */
  lemma {:induction false} FirstByOpen(c: char, pairs: seq<Pair>, i: nat)
    requires i < |pairs| && pairs[i].0 == c && forall j :: 0 <= j < i ==> pairs[j].0 != c
    ensures FindByOpen(c, pairs) == Some(pairs[i])
  {
    if i > 0 {
      FirstByOpen(c, pairs[1..], i - 1);
    }
  }

  lemma {:induction false} FirstByClose(c: char, pairs: seq<Pair>, i: nat)
    requires i < |pairs| && pairs[i].1 == c && forall j :: 0 <= j < i ==> pairs[j].1 != c
    ensures FindByClose(c, pairs) == Some(pairs[i])
  {
    if i > 0 {
      FirstByClose(c, pairs[1..], i - 1);
    }
  }

  function ClosingCharFor(opener: char, pairs: seq<Pair>): Option<char> {
    var pair :- FindByOpen(opener, pairs);
    Some(pair.1)
  }

  predicate IsQuotePair(p: Pair) {
    p.0 == p.1
  }

  predicate IsWordChar(grapheme: string) {
    |grapheme| == 1 &&
    ('a' <= grapheme[0] <= 'z' || 'A' <= grapheme[0] <= 'Z' || '0' <= grapheme[0] <= '9' || grapheme[0] == '_')
  }

  predicate IsSaneQuoteOpenBoundary(grapheme: string, pairs: seq<Pair>) {
    grapheme == "" ||
    (|grapheme| == 1 &&
     (IsSpace(grapheme[0]) || grapheme[0] == ',' || grapheme[0] == ';' || FindByClose(grapheme[0], pairs).Some?))
  }

  predicate InProse(syntax: SyntaxClass) {
    syntax == String || syntax == StringEscape || syntax == Comment || syntax == DocComment
  }

  function DecideQuote(q: Query, close: char): Action {
    if InProse(q.classAtPoint) then InsertPlain
    else if q.charAfter == [close] then SkipOver
    else if IsWordChar(q.charBefore) then InsertPlain
    else if !IsSaneQuoteOpenBoundary(q.charAfter, q.pairs) then InsertPlain
    else InsertPair
  }

  function DecideSelfInsert(q: Query): Action {
    if q.pairs == [] then InsertPlain
    else if q.hasSelection then if FindByOpen(q.typed, q.pairs).Some? then WrapSelection else InsertPlain
    else
      match FindByOpen(q.typed, q.pairs)
      case Some(pair) => if IsQuotePair(pair) then DecideQuote(q, pair.1) else InsertPair
      case None =>
        match FindByClose(q.typed, q.pairs)
        case Some(pair) => if !IsQuotePair(pair) && q.charAfter == [pair.1] then SkipOver else InsertPlain
        case None => InsertPlain
  }

  predicate ShouldDeleteAdjacentPair(charBefore: string, charAfter: string, pairs: seq<Pair>) {
    |charBefore| == 1 && |charAfter| == 1 && (charBefore[0], charAfter[0]) in pairs
  }

  // ---- what the commands do with it ----

  /** A text with the point between `left` and `right`, and no selection. */
  datatype Doc = Doc(left: seq<string>, right: seq<string>)

  function Before(d: Doc): string {
    if d.left == [] then "" else d.left[|d.left| - 1]
  }

  function After(d: Doc): string {
    if d.right == [] then "" else d.right[0]
  }

  function Decide(pairs: seq<Pair>, d: Doc, c: char, syntax: SyntaxClass): Action {
    DecideSelfInsert(Query(c, Before(d), After(d), false, syntax, pairs))
  }

  /** Self-insert of a single-byte character. */
  function Type(pairs: seq<Pair>, d: Doc, c: char, syntax: SyntaxClass): Doc {
    match Decide(pairs, d, c, syntax)
    case InsertPair =>
      (match ClosingCharFor(c, pairs)
       case Some(close) => Doc(d.left + [[c]], [[close]] + d.right)
       case None => d)
    case SkipOver => if d.right == [] then d else Doc(d.left + [d.right[0]], d.right[1..])
    case _ => Doc(d.left + [[c]], d.right)
  }

  function Backspace(pairs: seq<Pair>, d: Doc): Doc {
    if d.left == [] then d
    else if ShouldDeleteAdjacentPair(Before(d), After(d), pairs) then Doc(d.left[..|d.left| - 1], d.right[1..])
    else Doc(d.left[..|d.left| - 1], d.right)
  }

  /** One keystroke after another; the highlighting may say anything at each. */
  function TypeAll(pairs: seq<Pair>, d: Doc, w: seq<char>, classes: seq<SyntaxClass>): Doc
    requires |classes| == |w|
  {
    if w == [] then d
    else
      var n := |w| - 1;
      Type(pairs, TypeAll(pairs, d, w[..n], classes[..n]), w[n], classes[n])
  }

  function Graphemes(w: seq<char>): (r: seq<string>)
    ensures |r| == |w|
  {
    seq(|w|, i requires 0 <= i < |w| => [w[i]])
  }

  lemma GraphemesAppend(w: seq<char>)
    requires w != []
    ensures Graphemes(w) == Graphemes(w[..|w| - 1]) + [[w[|w| - 1]]]
  {
  }

  // ---- every table, every text, every word ----

  lemma TypeAdvances(pairs: seq<Pair>, d: Doc, c: char, syntax: SyntaxClass)
    ensures Type(pairs, d, c, syntax).left == d.left + [[c]]
  {
    if Decide(pairs, d, c, syntax) == SkipOver {
      assert After(d) == [c];
    }
  }

  /** Whatever is paired, skipped or highlighted: before the point stands exactly what was typed. */
  lemma {:induction false} TypingIsFaithful(pairs: seq<Pair>, d: Doc, w: seq<char>, classes: seq<SyntaxClass>)
    requires |classes| == |w|
    ensures TypeAll(pairs, d, w, classes).left == d.left + Graphemes(w)
  {
    if w != [] {
      var n := |w| - 1;
      TypingIsFaithful(pairs, d, w[..n], classes[..n]);
      TypeAdvances(pairs, TypeAll(pairs, d, w[..n], classes[..n]), w[n], classes[n]);
      GraphemesAppend(w);
    }
  }

  // ---- balanced words ----

  /** An opener with a closer of its own that opens nothing. */
  predicate IsBracket(pairs: seq<Pair>, c: char) {
    var pair := FindByOpen(c, pairs);
    pair.Some? && !IsQuotePair(pair.value) && FindByOpen(pair.value.1, pairs).None?
  }

  predicate IsPlain(pairs: seq<Pair>, c: char) {
    FindByOpen(c, pairs).None? && FindByClose(c, pairs).None?
  }

  /** The closers still owed after `w`, innermost first; None if `w` is no beginning of a balanced word. */
  function Owed(pairs: seq<Pair>, w: seq<char>): Option<seq<char>> {
    if w == [] then Some([])
    else
      var c := w[|w| - 1];
      var owed :- Owed(pairs, w[..|w| - 1]);
      if IsPlain(pairs, c) then Some(owed)
      else if IsBracket(pairs, c) then Some([FindByOpen(c, pairs).value.1] + owed)
      else if owed != [] && owed[0] == c then Some(owed[1..])
      else None
  }

  /** Everything owed closes a bracket. */
  predicate AllClosers(pairs: seq<Pair>, owed: seq<char>) {
    forall c <- owed :: FindByOpen(c, pairs).None? && FindByClose(c, pairs).Some?
  }

  lemma ClosersClose(pairs: seq<Pair>, c: char)
    requires IsBracket(pairs, c)
    ensures AllClosers(pairs, [FindByOpen(c, pairs).value.1])
  {
  }

  lemma ClosersAppend(pairs: seq<Pair>, close: char, owed: seq<char>)
    requires AllClosers(pairs, [close]) && AllClosers(pairs, owed)
    ensures AllClosers(pairs, [close] + owed)
  {
    assert close in [close];
  }

  lemma TypeOne(pairs: seq<Pair>, left: seq<string>, owed: seq<char>, right: seq<string>, c: char, syntax: SyntaxClass)
    requires AllClosers(pairs, owed)
    requires IsPlain(pairs, c) || IsBracket(pairs, c) || (owed != [] && owed[0] == c)
    ensures
      var next := if IsPlain(pairs, c) then owed
        else if IsBracket(pairs, c) then [FindByOpen(c, pairs).value.1] + owed else owed[1..];
      Type(pairs, Doc(left, Graphemes(owed) + right), c, syntax) == Doc(left + [[c]], Graphemes(next) + right)
  {
    var d := Doc(left, Graphemes(owed) + right);
    if IsPlain(pairs, c) {
    } else if IsBracket(pairs, c) {
      var close := FindByOpen(c, pairs).value.1;
      assert Graphemes([close] + owed) == [[close]] + Graphemes(owed);
      assert [[close]] + d.right == Graphemes([close] + owed) + right;
    } else {
      TypeCloser(pairs, left, owed, right, c, syntax);
    }
  }

  lemma TypeCloser(pairs: seq<Pair>, left: seq<string>, owed: seq<char>, right: seq<string>, c: char,
                   syntax: SyntaxClass)
    requires AllClosers(pairs, owed) && owed != [] && owed[0] == c
    ensures Type(pairs, Doc(left, Graphemes(owed) + right), c, syntax) ==
      Doc(left + [[c]], Graphemes(owed[1..]) + right)
  {
    var d := Doc(left, Graphemes(owed) + right);
    assert c in owed;
    assert After(d) == [c] && pairs != [];
    var pair := FindByClose(c, pairs).value;
    assert !IsQuotePair(pair);
    assert Decide(pairs, d, c, syntax) == SkipOver;
    assert d.right[1..] == Graphemes(owed[1..]) + right;
  }

  /** Typing the beginning of a balanced word leaves what was typed before the point and what is owed after it. */
  lemma {:induction false} BalancedTyping(pairs: seq<Pair>, d: Doc, w: seq<char>, classes: seq<SyntaxClass>)
    requires |classes| == |w| && Owed(pairs, w).Some?
    ensures AllClosers(pairs, Owed(pairs, w).value)
    ensures TypeAll(pairs, d, w, classes) == Doc(d.left + Graphemes(w), Graphemes(Owed(pairs, w).value) + d.right)
  {
    if w != [] {
      var n := |w| - 1;
      var owed := Owed(pairs, w[..n]).value;
      BalancedTyping(pairs, d, w[..n], classes[..n]);
      TypeOne(pairs, d.left + Graphemes(w[..n]), owed, d.right, w[n], classes[n]);
      GraphemesAppend(w);
      if IsBracket(pairs, w[n]) {
        ClosersClose(pairs, w[n]);
        ClosersAppend(pairs, FindByOpen(w[n], pairs).value.1, owed);
      }
    } else {
      assert Graphemes([]) == [];
    }
  }

  /** A complete balanced word comes out as if nothing were paired. */
  lemma BalancedWordIsPlain(pairs: seq<Pair>, d: Doc, w: seq<char>, classes: seq<SyntaxClass>)
    requires |classes| == |w| && Owed(pairs, w) == Some([])
    ensures TypeAll(pairs, d, w, classes) == TypeAll([], d, w, classes)
  {
    BalancedTyping(pairs, d, w, classes);
    PlainTyping(d, w, classes);
  }

  lemma {:induction false} PlainTyping(d: Doc, w: seq<char>, classes: seq<SyntaxClass>)
    requires |classes| == |w|
    ensures TypeAll([], d, w, classes) == Doc(d.left + Graphemes(w), d.right)
  {
    if w != [] {
      PlainTyping(d, w[..|w| - 1], classes[..|w| - 1]);
      GraphemesAppend(w);
    }
  }

  // ---- backspace ----

  /**
   Backspace undoes a keystroke exactly when that opened a pair, or inserted one character that does not form
   a pair with what follows it.
   */
  lemma BackspaceUndoes(pairs: seq<Pair>, d: Doc, c: char, syntax: SyntaxClass)
    ensures Backspace(pairs, Type(pairs, d, c, syntax)) == d <==>
      Decide(pairs, d, c, syntax) == InsertPair ||
      (Decide(pairs, d, c, syntax) == InsertPlain && !ShouldDeleteAdjacentPair([c], After(d), pairs))
  {
    var t := Type(pairs, d, c, syntax);
    TypeAdvances(pairs, d, c, syntax);
    assert Before(t) == [c] && t.left[..|t.left| - 1] == d.left;
    match Decide(pairs, d, c, syntax)
    case InsertPair =>
      var pair := FindByOpen(c, pairs).value;
      assert t.right[1..] == d.right && After(t) == [pair.1];
    case SkipOver =>
      assert |Backspace(pairs, t).right| < |d.right|;
    case _ =>
      assert t.right == d.right;
  }

  // ---- the tables ----

  const DEFAULT_PAIRS: seq<Pair> := [('(', ')'), ('[', ']'), ('{', '}'), ('"', '"'), ('\'', '\'')]

  /** The default table's three brackets are such brackets, and letters are plain to it. */
  lemma DefaultBrackets(c: char)
    ensures IsBracket(DEFAULT_PAIRS, c) <==> c == '(' || c == '[' || c == '{'
    ensures IsPlain(DEFAULT_PAIRS, c) <==> c !in "()[]{}\"'"
  {
    FindInDefault(c);
    ClosersAreNoOpeners();
  }

  lemma ClosersAreNoOpeners()
    ensures FindByOpen(')', DEFAULT_PAIRS).None? && FindByOpen(']', DEFAULT_PAIRS).None?
    ensures FindByOpen('}', DEFAULT_PAIRS).None? && FindByOpen('"', DEFAULT_PAIRS).Some?
  {
    FindInDefault(')');
    FindInDefault(']');
    FindInDefault('}');
    FindInDefault('"');
  }

  lemma FindInDefault(c: char)
    ensures forall p :: FindByOpen(c, DEFAULT_PAIRS) == Some(p) ==> p.0 == c && p in DEFAULT_PAIRS
    ensures FindByOpen(c, DEFAULT_PAIRS).None? <==> c !in "([{\"'"
    ensures FindByClose(c, DEFAULT_PAIRS).None? <==> c !in ")]}\"'"
  {
    OpensInDefault(c);
    ClosesInDefault(c);
  }

  lemma OpensInDefault(c: char)
    ensures FindByOpen(c, DEFAULT_PAIRS).None? <==> c !in "([{\"'"
  {
    assert DEFAULT_PAIRS[0].0 == '(' && DEFAULT_PAIRS[1].0 == '[' && DEFAULT_PAIRS[2].0 == '{';
    assert DEFAULT_PAIRS[3].0 == '"' && DEFAULT_PAIRS[4].0 == '\'';
    assert forall p <- DEFAULT_PAIRS :: p.0 in "([{\"'";
  }

  lemma ClosesInDefault(c: char)
    ensures FindByClose(c, DEFAULT_PAIRS).None? <==> c !in ")]}\"'"
  {
    assert DEFAULT_PAIRS[0].1 == ')' && DEFAULT_PAIRS[1].1 == ']' && DEFAULT_PAIRS[2].1 == '}';
    assert DEFAULT_PAIRS[3].1 == '"' && DEFAULT_PAIRS[4].1 == '\'';
    assert forall p <- DEFAULT_PAIRS :: p.1 in ")]}\"'";
  }

  // ---- quotes and selections ----

  /** `c` opens and closes itself, and nothing earlier in the table opens with it. */
  predicate IsQuote(pairs: seq<Pair>, c: char) {
    FindByOpen(c, pairs) == Some((c, c))
  }

  predicate WordLike(grapheme: string) {
    |grapheme| == 1 &&
    ('0' <= grapheme[0] <= '9' || 'A' <= grapheme[0] <= 'Z' || 'a' <= grapheme[0] <= 'z' || grapheme[0] == '_')
  }

  /** The end of the text, white space, a comma, a semicolon, or something that closes a pair. */
  predicate LeavesRoom(grapheme: string, pairs: seq<Pair>) {
    || grapheme == ""
    || (|grapheme| == 1 && (grapheme[0] in " \t\n\r,;" || 11 <= grapheme[0] as int <= 12
                          || exists p <- pairs :: p.1 == grapheme[0]))
  }

  /**
   A typed quote: within a string or a comment it is only itself; before the same quote it steps over that; else it
   opens a pair if and only if no word ends before it and there is room behind it.
   */
  lemma QuoteTyped(pairs: seq<Pair>, d: Doc, c: char, syntax: SyntaxClass)
    requires IsQuote(pairs, c)
    ensures var prose := syntax == String || syntax == StringEscape || syntax == Comment || syntax == DocComment;
      Type(pairs, d, c, syntax) ==
        if !prose && After(d) == [c] then Doc(d.left + [[c]], d.right[1..])
        else if !prose && !WordLike(Before(d)) && LeavesRoom(After(d), pairs) then Doc(d.left + [[c]], [[c]] + d.right)
        else Doc(d.left + [[c]], d.right)
  {
    FindsClosers(pairs);
    assert pairs != [];
  }

  lemma FindsClosers(pairs: seq<Pair>)
    ensures forall c :: FindByClose(c, pairs).Some? <==> exists p <- pairs :: p.1 == c
  {
  }

  /** A selection is wrapped if and only if what is typed opens a pair; nothing else happens to it here. */
  lemma SelectionTyped(q: Query)
    requires q.hasSelection
    ensures DecideSelfInsert(q) == if exists p <- q.pairs :: p.0 == q.typed then WrapSelection else InsertPlain
  {
  }
}
