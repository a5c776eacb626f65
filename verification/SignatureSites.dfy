/**
 The other places a signature change rewrites: another clause's patterns or a type signature's
 components, and references by arity (Source/Editor/ChangeSignature.cpp:255-316).
 */
module SignatureSites {
  import opened Common
  import opened SignatureMapping
  import opened SignatureCalls
  import opened SignatureMeaning
  import opened Decimal

  datatype SignatureKind = Definition | TypeSignature | CurriedType

  datatype SignatureMarker = SignatureMarker(
    kind: SignatureKind,
    callName: Range,
    interior: Range,
    parametersLead: bool,
    parameters: seq<SignatureParameter>)

  datatype SiteDecline = KeywordParameter | KeywordsChange | NotSpelledOut | NewParameter

  datatype SiteRewrite = SiteRefused(reason: SiteDecline) | SiteRewritten(range: Range, text: string)

  function WholeRanges(components: seq<SignatureParameter>): (r: seq<Range>)
    ensures |r| == |components| && forall i :: 0 <= i < |r| ==> r[i] == components[i].whole
  {
    seq(|components|, i requires 0 <= i < |components| => components[i].whole)
  }

  /** The components stand one after another in the text. */
  predicate ValidSite(text: string, site: SignatureMarker) {
    site.interior.In(text) && Ordered(text, WholeRanges(site.parameters))
  }

  predicate Ordered(text: string, rs: seq<Range>) {
    && (forall i :: 0 <= i < |rs| ==> rs[i].In(text))
    && forall i :: 0 < i < |rs| ==> rs[i - 1].end <= rs[i].start
  }

  // ---- a site as its component texts and the separators between them ----

  function ComponentTexts(text: string, rs: seq<Range>): (r: seq<string>)
    requires Ordered(text, rs)
    ensures |r| == |rs|
  {
    seq(|rs|, i requires 0 <= i < |rs| => rs[i].Of(text))
  }

  /** What stands ahead of each component but the first. */
  function Separators(text: string, rs: seq<Range>): (r: seq<string>)
    requires Ordered(text, rs)
    ensures |r| == if rs == [] then 0 else |rs| - 1
  {
    seq(if rs == [] then 0 else |rs| - 1, i requires 0 <= i < |rs| - 1 => Separator(text, rs, i + 1))
  }

  function Separator(text: string, rs: seq<Range>, i: nat): string
    requires Ordered(text, rs) && 0 < i < |rs|
  {
    text[rs[i - 1].end..rs[i].start]
  }

  /** The texts with the separators between them. */
  function Interleave(texts: seq<string>, separators: seq<string>): string
    requires |texts| <= |separators| + 1
    decreases |texts|, 1
  {
    if texts == [] then ""
    else Lead(texts, separators) + texts[|texts| - 1]
  }

  /** Everything ahead of the last text. */
  function Lead(texts: seq<string>, separators: seq<string>): string
    requires 0 < |texts| <= |separators| + 1
    decreases |texts|, 0
  {
    var n := |texts| - 1;
    if n == 0 then "" else Interleave(texts[..n], separators) + separators[n - 1]
  }

  /** Where each old component ends up: the kept ones in their new order, then whatever runs on past them. */
  function Order(origins: seq<ParamOrigin>, oldArity: nat, components: nat): (r: seq<nat>)
    requires forall i :: 0 <= i < |origins| ==> origins[i].Kept?
    requires oldArity <= components
    ensures |r| == |origins| + components - oldArity
    ensures forall i :: 0 <= i < |origins| ==> r[i] == origins[i].oldIndex
    ensures forall i :: |origins| <= i < |r| ==> r[i] == oldArity + i - |origins|
  {
    var moved: seq<nat> := seq(|origins|, i requires 0 <= i < |origins| => origins[i].oldIndex);
    var rest: seq<nat> := seq(components - oldArity, (i: nat) => oldArity + i);
    moved + rest
  }

  function Pieces(texts: seq<string>, order: seq<nat>): (r: seq<string>)
    requires forall i :: 0 <= i < |order| ==> order[i] < |texts|
    ensures |r| == |order|
  {
    seq(|order|, i requires 0 <= i < |order| => texts[order[i]])
  }

  predicate SpelledOut(site: SignatureMarker, oldArity: nat) {
    if site.kind.CurriedType? then |site.parameters| > oldArity else |site.parameters| == oldArity
  }

  function SiteRefusal(site: SignatureMarker, m: Mapping): Option<SiteDecline> {
    if exists p :: p in site.parameters && (p.isKeyword || p.isVariadic) then Some(KeywordParameter)
    else if m.keptKeywords != [] || m.droppedKeywords != [] then Some(KeywordsChange)
    else if !SpelledOut(site, m.oldArity) then Some(NotSpelledOut)
    else if exists i :: 0 <= i < |m.origins| && m.origins[i].New? then Some(NewParameter)
    else None
  }

  // ---- the pigeonhole that keeps every index in range ----

  lemma {:induction false} Pigeonhole(xs: seq<nat>, n: nat)
    requires Distinct(xs) && forall i :: 0 <= i < |xs| ==> xs[i] < n
    ensures |xs| <= n
  {
    if xs != [] {
      assert xs[0] < n;
      if i :| 0 <= i < |xs| && xs[i] == n - 1 {
        Pigeonhole(xs[..i] + xs[i + 1..], n - 1);
      } else {
        Pigeonhole(xs, n - 1);
      }
    }
  }

  /** The new order names distinct components, so there are no more of them than there were. */
  lemma OrderInRange(m: Mapping, components: nat)
    requires WellFormed(m) && m.oldArity <= components && forall i :: 0 <= i < |m.origins| ==> m.origins[i].Kept?
    ensures var order := Order(m.origins, m.oldArity, components);
      && (forall i :: 0 <= i < |order| ==> order[i] < components)
      && Distinct(order) && |order| <= components
  {
    var order := Order(m.origins, m.oldArity, components);
    forall i, j | 0 <= i < j < |order| ensures order[i] != order[j] {
      if j < |m.origins| {
        assert m.origins[i].Kept? && m.origins[j].Kept?;
      }
    }
    Pigeonhole(order, components);
  }

  /** Past the parameters nothing moves: a curried type's result component stays last. */
  lemma ResultStaysLast(m: Mapping, components: nat)
    requires WellFormed(m) && m.oldArity < components && forall i :: 0 <= i < |m.origins| ==> m.origins[i].Kept?
    ensures var order := Order(m.origins, m.oldArity, components);
      order != [] && order[|order| - 1] == components - 1 && (components - 1) !in order[..|order| - 1]
  {
    OrderInRange(m, components);
  }

  // ---- the program ----

  method PermuteSignature(siteText: string, site: SignatureMarker, m: Mapping) returns (r: SiteRewrite)
    requires ValidSite(siteText, site) && WellFormed(m)
    ensures r.SiteRefused? <==> SiteRefusal(site, m).Some?
    ensures r.SiteRefused? ==> r.reason == SiteRefusal(site, m).value
    ensures r.SiteRewritten? ==>
      var components := site.parameters;
      var order := Order(m.origins, m.oldArity, |components|);
      if order == [] then
        && r.text == ""
        && r.range.start ==
          (if site.parametersLead || components == [] then site.interior.start else components[0].whole.start)
        && r.range.end == (if components == [] then site.interior.end else components[|components| - 1].whole.end)
      else
        && 0 < |order| <= |components| && (forall i :: 0 <= i < |order| ==> order[i] < |components|)
        && r.range == Range(components[0].whole.start, components[|components| - 1].whole.end)
        && r.text == Interleave(Pieces(ComponentTexts(siteText, WholeRanges(components)), order),
          Separators(siteText, WholeRanges(components)))
  {
    var components := site.parameters;
    for i := 0 to |components|
      invariant forall j :: 0 <= j < i ==> !components[j].isKeyword && !components[j].isVariadic
    {
      if components[i].isKeyword || components[i].isVariadic {
        return SiteRefused(KeywordParameter);
      }
    }
    if m.keptKeywords != [] || m.droppedKeywords != [] {
      return SiteRefused(KeywordsChange);
    }
    if if site.kind.CurriedType? then |components| <= m.oldArity else |components| != m.oldArity {
      return SiteRefused(NotSpelledOut);
    }
    var order := BuildOrder(m.origins, m.oldArity, |components|);
    if order.None? {
      return SiteRefused(NewParameter);
    }
    if order.value == [] {
      return SiteRewritten(
        Range(if site.parametersLead || components == [] then site.interior.start else components[0].whole.start,
              if components == [] then site.interior.end else components[|components| - 1].whole.end),
        "");
    }
    OrderInRange(m, |components|);
    var text := WritePieces(siteText, WholeRanges(components), order.value);
    return SiteRewritten(Range(components[0].whole.start, components[|components| - 1].whole.end), text);
  }

  method BuildOrder(origins: seq<ParamOrigin>, oldArity: nat, components: nat) returns (r: Option<seq<nat>>)
    requires oldArity <= components
    ensures r.None? <==> exists i :: 0 <= i < |origins| && origins[i].New?
    ensures r.Some? ==> r.value == Order(origins, oldArity, components)
  {
    var order: seq<nat> := [];
    for i := 0 to |origins|
      invariant |order| == i && forall j :: 0 <= j < i ==> origins[j].Kept? && order[j] == origins[j].oldIndex
    {
      if origins[i].New? {
        return None;
      }
      order := order + [origins[i].oldIndex];
    }
    for i := oldArity to components
      invariant |order| == |origins| + i - oldArity
      invariant forall j :: 0 <= j < |origins| ==> order[j] == origins[j].oldIndex
      invariant forall j :: |origins| <= j < |order| ==> order[j] == oldArity + j - |origins|
    {
      order := order + [i];
    }
    assert order == Order(origins, oldArity, components);
    return Some(order);
  }

  method WritePieces(siteText: string, rs: seq<Range>, order: seq<nat>) returns (text: string)
    requires Ordered(siteText, rs) && |order| <= |rs|
    requires forall i :: 0 <= i < |order| ==> order[i] < |rs|
    ensures text == Interleave(Pieces(ComponentTexts(siteText, rs), order), Separators(siteText, rs))
  {
    text := "";
    ghost var pieces, separators := Pieces(ComponentTexts(siteText, rs), order), Separators(siteText, rs);
    for i := 0 to |order|
      invariant text == Interleave(pieces[..i], separators)
    {
      assert pieces[..i + 1][..i] == pieces[..i];
      if i > 0 {
        text := text + Separator(siteText, rs, i);
      }
      assert text == Lead(pieces[..i + 1], separators);
      text := text + rs[order[i]].Of(siteText);
    }
    assert pieces[..|order|] == pieces;
  }

  // ---- which sites are taken ----

  /**
   A site is rewritten if and only if it has no keyword-only or variadic parameter, no keyword stays or goes, every
   parameter of the new list is an old one, and it spells the old ones out: just these, or as a curried type these
   and more.
   */
  lemma SiteIsRewrittenWhen(site: SignatureMarker, m: Mapping)
    ensures SiteRefusal(site, m).None? <==>
      && (forall p <- site.parameters :: !p.isKeyword && !p.isVariadic)
      && m.keptKeywords + m.droppedKeywords == []
      && (forall origin <- m.origins :: origin.Kept?)
      && (if site.kind.CurriedType? then |site.parameters| >= m.oldArity + 1 else |site.parameters| == m.oldArity)
  {
    if i :| 0 <= i < |m.origins| && m.origins[i].New? {
      assert m.origins[i] in m.origins;
    }
  }

  predicate EndsWith(text: string, end: string) {
    |end| <= |text| && text[|text| - |end|..] == end
  }

  /** What a curried type ends in, its result, is what the rewritten type ends in. */
  lemma ResultComesLast(siteText: string, site: SignatureMarker, m: Mapping)
    requires ValidSite(siteText, site) && WellFormed(m) && site.kind.CurriedType? && SiteRefusal(site, m).None?
    ensures
      var rs := WholeRanges(site.parameters);
      var order := Order(m.origins, m.oldArity, |rs|);
      && (forall i :: 0 <= i < |order| ==> order[i] < |rs|) && 0 < |order| <= |rs|
      && EndsWith(Interleave(Pieces(ComponentTexts(siteText, rs), order), Separators(siteText, rs)),
                  rs[|rs| - 1].Of(siteText))
  {
    var rs := WholeRanges(site.parameters);
    ResultStaysLast(m, |rs|);
    OrderInRange(m, |rs|);
    EndsInItsLast(Pieces(ComponentTexts(siteText, rs), Order(m.origins, m.oldArity, |rs|)), Separators(siteText, rs));
  }

  lemma EndsInItsLast(texts: seq<string>, separators: seq<string>)
    requires 0 < |texts| <= |separators| + 1
    ensures EndsWith(Interleave(texts, separators), texts[|texts| - 1])
  {
  }

  // ---- undoing a reorder ----

  /** The site text with the rewrite put in place. */
  function Applied(text: string, range: Range, replacement: string): string
    requires range.In(text)
  {
    text[..range.start] + replacement + text[range.end..]
  }

  /** Where the pieces of `Interleave(texts, separators)` stand when it is written at `offset`. */
  function Layout(offset: nat, texts: seq<string>, separators: seq<string>): (rs: seq<Range>)
    requires |texts| <= |separators| + 1
    ensures |rs| == |texts|
  {
    if texts == [] then []
    else
      var start := offset + |Lead(texts, separators)|;
      Layout(offset, texts[..|texts| - 1], separators) + [Range(start, start + |texts[|texts| - 1]|)]
  }

  lemma SliceJoin(text: string, a: nat, b: nat, c: nat, d: nat)
    requires a <= b <= c <= d <= |text|
    ensures text[a..d] == text[a..b] + text[b..c] + text[c..d]
  {
  }

  lemma Middle(a: string, b: string, c: string)
    ensures (a + b + c)[|a|..|a| + |b|] == b
  {
  }

  lemma OrderedEnds(text: string, rs: seq<Range>, n: nat)
    requires Ordered(text, rs) && 0 < n <= |rs|
    ensures rs[0].start <= rs[n - 1].end <= |text|
  {
    if n > 1 {
      OrderedEnds(text, rs, n - 1);
    }
  }

  /** The text is what its own pieces spell, between its first and its last component. */
  lemma {:induction false} SiteIsItsPieces(text: string, rs: seq<Range>, n: nat)
    requires Ordered(text, rs) && 0 < n <= |rs|
    ensures rs[0].start <= rs[n - 1].end
    ensures text[rs[0].start..rs[n - 1].end] == Interleave(ComponentTexts(text, rs)[..n], Separators(text, rs))
  {
    OrderedEnds(text, rs, n);
    var texts := ComponentTexts(text, rs);
    assert texts[..n][..n - 1] == texts[..n - 1];
    if n > 1 {
      OrderedEnds(text, rs, n - 1);
      SiteIsItsPieces(text, rs, n - 1);
      SliceJoin(text, rs[0].start, rs[n - 2].end, rs[n - 1].start, rs[n - 1].end);
    }
  }

  /** `texts` and `separators` stand in `text` at the ranges `rs`, from `start` to `end`. */
  ghost predicate ReadsBack(text: string, rs: seq<Range>, texts: seq<string>, separators: seq<string>, start: nat,
                            end: nat) {
    && |rs| == |texts| <= |separators| + 1
    && Ordered(text, rs)
    && (rs != [] ==> rs[0].start == start && rs[|rs| - 1].end == end)
    && (forall i :: 0 <= i < |rs| ==> rs[i].Of(text) == texts[i])
    && forall i :: 0 < i < |rs| ==> Separator(text, rs, i) == separators[i - 1]
  }

  lemma ReadsBackStep(text: string, rs: seq<Range>, texts: seq<string>, separators: seq<string>, start: nat,
                      end: nat, r: Range)
    requires ReadsBack(text, rs, texts, separators, start, end) && rs != [] && |texts| <= |separators|
    requires r.In(text) && end <= r.start && text[end..r.start] == separators[|rs| - 1]
    ensures ReadsBack(text, rs + [r], texts + [r.Of(text)], separators, start, r.end)
  {
    forall i | 0 < i < |rs + [r]| ensures Separator(text, rs + [r], i) == separators[i - 1] {
      if i < |rs| {
        assert Separator(text, rs, i) == separators[i - 1];
      }
    }
  }

  /** Pieces written at `prefix` and read back at the places they were laid out at. */
  lemma {:induction false} LayoutReadsBack(prefix: string, texts: seq<string>, separators: seq<string>, suffix: string)
    requires |texts| <= |separators| + 1
    ensures ReadsBack(prefix + Interleave(texts, separators) + suffix, Layout(|prefix|, texts, separators),
                      texts, separators, |prefix|, |prefix| + |Interleave(texts, separators)|)
    decreases |texts|
  {
    if |texts| == 1 {
      Middle(prefix, texts[0], suffix);
    } else if |texts| > 1 {
      var n := |texts| - 1;
      var before, separator, last := Interleave(texts[..n], separators), separators[n - 1], texts[n];
      var text := prefix + Interleave(texts, separators) + suffix;
      LayoutReadsBack(prefix, texts[..n], separators, separator + last + suffix);
      Regroup(prefix, before, separator, last, suffix);
      assert Interleave(texts, separators) == before + separator + last;
      var start := |prefix| + |before| + |separator|;
      ReadsBackStep(text, Layout(|prefix|, texts[..n], separators), texts[..n], separators,
                    |prefix|, |prefix| + |before|, Range(start, start + |last|));
      assert texts == texts[..n] + [last];
    }
  }

  lemma Regroup(prefix: string, before: string, separator: string, last: string, suffix: string)
    ensures var text := prefix + (before + separator + last) + suffix;
      && text == prefix + before + (separator + last + suffix)
      && text[|prefix| + |before|..|prefix| + |before| + |separator|] == separator
      && text[|prefix| + |before| + |separator|..|prefix| + |before| + |separator| + |last|] == last
  {
    var text := prefix + (before + separator + last) + suffix;
    assert text == (prefix + before) + separator + (last + suffix);
    assert text == (prefix + before + separator) + last + suffix;
  }

  /** The site as it stands after its components were put in the order `there`. */
  ghost function Reordered(text: string, rs: seq<Range>, there: seq<nat>): (r: (string, seq<Range>))
    requires Ordered(text, rs) && 0 < |there| == |rs|
    requires forall i :: 0 <= i < |there| ==> there[i] < |rs|
  {
    var pieces, separators := Pieces(ComponentTexts(text, rs), there), Separators(text, rs);
    OrderedEnds(text, rs, |rs|);
    (Applied(text, Range(rs[0].start, rs[|rs| - 1].end), Interleave(pieces, separators)),
     Layout(rs[0].start, pieces, separators))
  }

  /** The reordered site has the same separators, the pieces in their new order, and the same surroundings. */
  lemma ReorderedReadsBack(text: string, rs: seq<Range>, there: seq<nat>)
    requires Ordered(text, rs) && 0 < |there| == |rs|
    requires forall i :: 0 <= i < |there| ==> there[i] < |rs|
    ensures var (text', rs') := Reordered(text, rs, there);
      && Ordered(text', rs') && |rs'| == |rs| && rs'[0].start <= rs'[|rs| - 1].end <= |text'|
      && ComponentTexts(text', rs') == Pieces(ComponentTexts(text, rs), there)
      && Separators(text', rs') == Separators(text, rs)
      && rs'[0].start == rs[0].start && text'[..rs[0].start] == text[..rs[0].start]
      && text'[rs'[|rs| - 1].end..] == text[rs[|rs| - 1].end..]
  {
    OrderedEnds(text, rs, |rs|);
    var pieces, separators := Pieces(ComponentTexts(text, rs), there), Separators(text, rs);
    var prefix, suffix := text[..rs[0].start], text[rs[|rs| - 1].end..];
    LayoutReadsBack(prefix, pieces, separators, suffix);
    var text', rs' := prefix + Interleave(pieces, separators) + suffix, Layout(|prefix|, pieces, separators);
    ReadBackPieces(text', rs', pieces, separators, |prefix|, |prefix| + |Interleave(pieces, separators)|);
    SurroundedBy(prefix, Interleave(pieces, separators), suffix);
  }

  /**
   Applying a pure reorder to a site, and then its inverse to the site as re-read from the new text,
   restores the text exactly.
   */
  lemma UndoRestoresSite(text: string, rs: seq<Range>, there: seq<nat>, back: seq<nat>)
    requires Ordered(text, rs) && 0 < |there| == |back| == |rs|
    requires forall i :: 0 <= i < |there| ==> there[i] < |there| && back[i] < |there| && there[back[i]] == i
    ensures var (text', rs') := Reordered(text, rs, there); Ordered(text', rs') && |rs'| == |rs|
    ensures var (text', rs') := Reordered(text, rs, there); Reordered(text', rs', back).0 == text
  {
    var (text', rs') := Reordered(text, rs, there);
    ReorderedReadsBack(text, rs, there);
    PiecesUndone(ComponentTexts(text, rs), there, back);
    SiteIsItsPieces(text, rs, |rs|);
    assert ComponentTexts(text, rs)[..|rs|] == ComponentTexts(text, rs);
    SliceJoin(text, 0, rs[0].start, rs[|rs| - 1].end, |text|);
    assert text == text[0..|text|];
  }

  lemma PiecesUndone(texts: seq<string>, there: seq<nat>, back: seq<nat>)
    requires |there| == |back| == |texts|
    requires forall i :: 0 <= i < |there| ==> there[i] < |there| && back[i] < |there| && there[back[i]] == i
    ensures Pieces(Pieces(texts, there), back) == texts
  {
  }

  lemma ReadBackPieces(text: string, rs: seq<Range>, texts: seq<string>, separators: seq<string>, start: nat, end: nat)
    requires ReadsBack(text, rs, texts, separators, start, end) && |separators| + 1 == |texts|
    ensures ComponentTexts(text, rs) == texts && Separators(text, rs) == separators
    ensures start <= end <= |text|
  {
    OrderedEnds(text, rs, |rs|);
    forall i | 0 <= i < |separators| ensures Separators(text, rs)[i] == separators[i] {
      assert Separator(text, rs, i + 1) == separators[i + 1 - 1];
    }
  }

  lemma SurroundedBy(prefix: string, middle: string, suffix: string)
    ensures (prefix + middle + suffix)[..|prefix|] == prefix
    ensures (prefix + middle + suffix)[|prefix| + |middle|..] == suffix
  {
  }

  /** Two pure reorders of a parameter list that undo each other undo each other at every site too. */
  lemma SignatureChangeUndone(oldList: NamedList, newList: NamedList, m: Mapping, back: Mapping, text: string,
                              site: SignatureMarker)
    requires oldList.Valid() && newList.Valid() && Maps(oldList, newList, m) && Maps(newList, oldList, back)
    requires AllKept(m.origins) && AllKept(back.origins) && |m.origins| == |back.origins|
    requires ValidSite(text, site) && site.parameters != [] && |site.parameters| >= m.oldArity
    ensures var rs, n := WholeRanges(site.parameters), |site.parameters|;
      var there, again := Order(m.origins, m.oldArity, n), Order(back.origins, back.oldArity, n);
      && |there| == |again| == n
      && (forall i :: 0 <= i < n ==> there[i] < n && again[i] < n)
      && var (text', rs') := Reordered(text, rs, there);
      && Ordered(text', rs') && |rs'| == n
      && Reordered(text', rs', again).0 == text
  {
    var n := |site.parameters|;
    var there, again := Order(m.origins, m.oldArity, n), Order(back.origins, back.oldArity, n);
    forall i: nat | i < n ensures there[i] < n && again[i] < n && there[again[i]] == i {
      if i < |m.origins| {
        KeptThereAndBack(oldList.PositionalNames(), newList.PositionalNames(), oldList.Positional(),
          newList.Positional(),
                         m.origins, back.origins, i);
        KeptThereAndBack(newList.PositionalNames(), oldList.PositionalNames(), newList.Positional(),
          oldList.Positional(),
                         back.origins, m.origins, i);
      }
    }
    UndoRestoresSite(text, WholeRanges(site.parameters), there, again);
  }

  // ---- references by arity ----

  datatype ArityRewrite = ArityRefused | ArityRewritten(text: string)

  predicate IsIdentity(m: Mapping) {
    |m.origins| == m.oldArity && forall i :: 0 <= i < |m.origins| ==> m.origins[i] == Kept(i)
  }

  method RewriteArityReference(arityText: string, functionValue: bool, m: Mapping) returns (r: ArityRewrite)
    ensures r.ArityRewritten? <==> arityText == Print(m.oldArity) && (functionValue ==> IsIdentity(m))
    ensures r.ArityRewritten? ==> r.text == Print(|m.origins|)
  {
    if arityText != Print(m.oldArity) {
      return ArityRefused;
    }
    if functionValue {
      var sameOrder := |m.origins| == m.oldArity;
      var i := 0;
      while sameOrder && i < |m.origins|
        invariant i <= |m.origins|
        invariant sameOrder <==> |m.origins| == m.oldArity && forall j :: 0 <= j < i ==> m.origins[j] == Kept(j)
      {
        sameOrder := m.origins[i] == Kept(i);
        i := i + 1;
      }
      if !sameOrder {
        return ArityRefused;
      }
    }
    return ArityRewritten(Print(|m.origins|));
  }

  /**
   A rewritten reference names the new positional parameter count and no other, and one that passes the
   function on as a value is only kept when every call through it stays as it was.
   */
  lemma ArityReferenceFollows(oldList: NamedList, newList: NamedList, m: Mapping, arityText: string,
                              functionValue: bool,
                              n: nat, k: nat, newText: string, passed: seq<string>)
    requires oldList.Valid() && newList.Valid() && Maps(oldList, newList, m)
    requires arityText == Print(m.oldArity) && (functionValue ==> IsIdentity(m))
    ensures Print(|m.origins|) == Print(n) <==> n == |newList.PositionalNames()|
    ensures functionValue && k + |passed| == |m.origins| ==>
      ValidOrigins(newText, m.origins) && Fits(m.origins, k, |passed|)
      && NewArguments(newText, m.origins, k, passed) == passed
  {
    if Print(|m.origins|) == Print(n) {
      PrintInjective(|m.origins|, n);
    }
    if functionValue && k + |passed| == |m.origins| {
      forall i | 0 <= i < |passed| ensures NewArguments(newText, m.origins, k, passed)[i] == passed[i] {
        ArgumentAt(newText, m.origins, k, passed, k + i);
      }
    }
  }
}
