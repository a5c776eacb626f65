/**
 The minimap's highlight sweep (Source/Editor/ChunkedHighlight.cpp:7-17; Source/UI/Minimap.cpp:275-297): one
 document highlighted window by window. A window's captures come from a walk over the syntax tree that leaves
 out every subtree outside the window (Source/Editor/Grammar/QueryMatcher.cpp:1181-1249, 1502-1511, 1583-1589).
 */
module HighlightSweep {
  import opened Common
  import opened Division

  /** A captured node's range, and the class it is shown in. */
  datatype Span = Span(range: Range, syntax: nat)

  /**
   Syntax nodes as a cursor meets them: a node with what its patterns capture in it, its first child and its
   next sibling.
   */
  datatype Forest =
    | Nothing
    | Tree(node: Range, captures: seq<Span>, children: Forest, siblings: Forest)

  /** Shares a byte with the window, or is empty and stands at one of its bytes. */
  predicate Overlaps(r: Range, from: nat, to: nat) {
    if r.Empty() then from <= r.start < to else r.start < to && from < r.end
  }

  // ---- the walk ----

  /** The captures of one node that are reported. */
  function Reported(captures: seq<Span>, from: nat, to: nat): seq<Span> {
    if captures == [] then []
    else (if Overlaps(captures[0].range, from, to) then [captures[0]] else []) + Reported(captures[1..], from, to)
  }

  function Walk(forest: Forest, from: nat, to: nat): seq<Span> {
    match forest
    case Nothing => []
    case Tree(node, captures, children, siblings) =>
      (if Overlaps(node, from, to) then Reported(captures, from, to) + Walk(children, from, to) else [])
      + Walk(siblings, from, to)
  }

  /** A node's own captures, if it is visited. */
  function Seen(current: Forest, from: nat, to: nat): seq<Span>
    requires current.Tree?
  {
    if Overlaps(current.node, from, to) then Reported(current.captures, from, to) else []
  }

  /** What lies behind the ancestors of the cursor's node, the nearest last. */
  function Behind(above: seq<Forest>, from: nat, to: nat): seq<Span> {
    if above == [] || above[|above| - 1].Nothing? then []
    else Walk(above[|above| - 1].siblings, from, to) + Behind(above[..|above| - 1], from, to)
  }

  /** What is still to be reported once the cursor's node has been. */
  function Ahead(current: Forest, mayDescend: bool, above: seq<Forest>, from: nat, to: nat): seq<Span>
    requires current.Tree?
  {
    (if mayDescend then Walk(current.children, from, to) else [])
    + (Walk(current.siblings, from, to) + Behind(above, from, to))
  }

  function Size(forest: Forest): nat {
    match forest
    case Nothing => 0
    case Tree(_, _, children, siblings) => 1 + Size(children) + Size(siblings)
  }

  function SizeBehind(above: seq<Forest>): nat {
    if above == [] || above[|above| - 1].Nothing? then 0
    else Size(above[|above| - 1].siblings) + SizeBehind(above[..|above| - 1])
  }

  function SizeAhead(current: Forest, mayDescend: bool, above: seq<Forest>): nat
    requires current.Tree?
  {
    (if mayDescend then Size(current.children) else 0) + Size(current.siblings) + SizeBehind(above)
  }

  /** A cursor's node and its ancestors; the first of all stands alone. */
  predicate OnPath(current: Forest, above: seq<Forest>) {
    && current.Tree? && (forall i :: 0 <= i < |above| ==> above[i].Tree?)
    && (if above == [] then current else above[0]).siblings.Nothing?
  }

  lemma GoDown(current: Forest, above: seq<Forest>, from: nat, to: nat, given: seq<Span>)
    requires OnPath(current, above) && current.children.Tree?
    ensures var child, down := current.children, Overlaps(current.children.node, from, to);
      && OnPath(child, above + [current])
      && given + Ahead(current, true, above, from, to)
         == given + Seen(child, from, to) + Ahead(child, down, above + [current], from, to)
      && SizeAhead(child, down, above + [current]) < SizeAhead(current, true, above)
  {
    var child, down := current.children, Overlaps(current.children.node, from, to);
    DownAhead(current, above, from, to);
    Regroup(given, Seen(child, from, to), Ahead(child, down, above + [current], from, to));
  }

  lemma DownAhead(current: Forest, above: seq<Forest>, from: nat, to: nat)
    requires current.Tree? && current.children.Tree?
    ensures var child, down := current.children, Overlaps(current.children.node, from, to);
      && Ahead(current, true, above, from, to)
         == Seen(child, from, to) + Ahead(child, down, above + [current], from, to)
      && SizeAhead(child, down, above + [current]) < SizeAhead(current, true, above)
  {
    assert (above + [current])[..|above|] == above;
  }

  lemma GoAside(current: Forest, above: seq<Forest>, from: nat, to: nat, given: seq<Span>)
    requires OnPath(current, above) && current.siblings.Tree?
    ensures var next, down := current.siblings, Overlaps(current.siblings.node, from, to);
      && OnPath(next, above)
      && given + Ahead(current, false, above, from, to)
         == given + Seen(next, from, to) + Ahead(next, down, above, from, to)
      && SizeAhead(next, down, above) < SizeAhead(current, false, above)
  {
    var next, down := current.siblings, Overlaps(current.siblings.node, from, to);
    AsideAhead(current, above, from, to);
    Regroup(given, Seen(next, from, to), Ahead(next, down, above, from, to));
  }

  lemma AsideAhead(current: Forest, above: seq<Forest>, from: nat, to: nat)
    requires current.Tree? && current.siblings.Tree?
    ensures var next, down := current.siblings, Overlaps(current.siblings.node, from, to);
      Ahead(current, false, above, from, to) == Seen(next, from, to) + Ahead(next, down, above, from, to)
  {
    var next := current.siblings;
    var below := if Overlaps(next.node, from, to) then Walk(next.children, from, to) else [];
    assert Walk(next, from, to) == Seen(next, from, to) + below + Walk(next.siblings, from, to);
    Regroup(Seen(next, from, to) + below, Walk(next.siblings, from, to), Behind(above, from, to));
    Regroup(Seen(next, from, to), below, Walk(next.siblings, from, to) + Behind(above, from, to));
  }

  lemma Regroup(a: seq<Span>, b: seq<Span>, c: seq<Span>)
    ensures a + (b + c) == a + b + c
  {
  }

  lemma GoUp(current: Forest, above: seq<Forest>, from: nat, to: nat)
    requires OnPath(current, above) && current.siblings.Nothing? && above != []
    ensures var parent, rest := above[|above| - 1], above[..|above| - 1];
      && OnPath(parent, rest)
      && Ahead(current, false, above, from, to) == Ahead(parent, false, rest, from, to)
      && SizeAhead(parent, false, rest) == SizeAhead(current, false, above)
  {
  }

  /** The cursor's node is reported if it intersects the window; only then may the cursor go down. */
  method VisitCurrent(current: Forest, from: nat, to: nat, given: seq<Span>) returns (visited: bool, out: seq<Span>)
    requires current.Tree?
    ensures visited == Overlaps(current.node, from, to)
    ensures out == given + Seen(current, from, to)
  {
    visited := Overlaps(current.node, from, to);
    out := given;
    if visited {
      out := out + Reported(current.captures, from, to);
    }
  }

  /** One cursor over the whole tree, in pre-order. */
  method WalkTree(root: Forest, from: nat, to: nat) returns (out: seq<Span>)
    requires root.Tree? && root.siblings.Nothing?
    ensures out == Walk(root, from, to)
  {
    var mayDescend;
    mayDescend, out := VisitCurrent(root, from, to, []);
    Starts(root, from, to);
    if !mayDescend {
      return;
    }
    var current: Forest, above: seq<Forest> := root, [];
    var moved := true;
    while moved
      invariant OnPath(current, above)
      invariant out + (if moved then Ahead(current, mayDescend, above, from, to) else []) == Walk(root, from, to)
      decreases moved, SizeAhead(current, mayDescend, above), |above|
    {
      moved, current, mayDescend, above, out := MoveOn(current, mayDescend, above, from, to, out);
    }
  }

  lemma Starts(root: Forest, from: nat, to: nat)
    requires root.Tree? && root.siblings.Nothing?
    ensures [] + Seen(root, from, to) + Ahead(root, Overlaps(root.node, from, to), [], from, to) == Walk(root, from, to)
    ensures !Overlaps(root.node, from, to) ==> Walk(root, from, to) == []
  {
  }

  /** To the first child, else to the next sibling, else to the parent; it reports where it has not been. */
  method MoveOn(current: Forest, mayDescend: bool, above: seq<Forest>, from: nat, to: nat, given: seq<Span>)
    returns (moved: bool, current': Forest, mayDescend': bool, above': seq<Forest>, out: seq<Span>)
    requires OnPath(current, above)
    ensures OnPath(current', above')
    ensures out + (if moved then Ahead(current', mayDescend', above', from, to) else []) ==
      given + Ahead(current, mayDescend, above, from, to)
    ensures moved ==>
      var before, after := SizeAhead(current, mayDescend, above), SizeAhead(current', mayDescend', above');
      after < before || (after == before && |above'| < |above|)
  {
    moved, current', mayDescend', above', out := true, current, mayDescend, above, given;
    if mayDescend && current.children.Tree? {
      GoDown(current, above, from, to, given);
      current', above' := current.children, above + [current];
      mayDescend', out := VisitCurrent(current', from, to, given);
      return;
    }
    Exhausted(current, mayDescend, above, from, to);
    if current.siblings.Tree? {
      GoAside(current, above, from, to, given);
      current' := current.siblings;
      mayDescend', out := VisitCurrent(current', from, to, given);
    } else if above == [] {
      moved := false;
    } else {
      GoUp(current, above, from, to);
      current', above', mayDescend' := above[|above| - 1], above[..|above| - 1], false;
    }
  }

  lemma Exhausted(current: Forest, mayDescend: bool, above: seq<Forest>, from: nat, to: nat)
    requires current.Tree? && (mayDescend ==> current.children.Nothing?)
    ensures Ahead(current, mayDescend, above, from, to) == Ahead(current, false, above, from, to)
    ensures SizeAhead(current, mayDescend, above) == SizeAhead(current, false, above)
  {
  }

  /** The captures in a window; a window without bytes has none. */
  function Highlight(root: Forest, from: nat, to: nat): seq<Span> {
    if from >= to then [] else Walk(root, from, to)
  }

  method CapturesInRange(root: Forest, from: nat, to: nat) returns (out: seq<Span>)
    requires root.Tree? && root.siblings.Nothing?
    ensures out == Highlight(root, from, to)
  {
    if from >= to {
      return [];
    }
    out := WalkTree(root, from, to);
  }

  // ---- the sweep ----

  function NotBefore(spans: seq<Span>, cursor: nat): seq<Span> {
    if spans == [] then []
    else
      var front := NotBefore(spans[..|spans| - 1], cursor);
      if spans[|spans| - 1].range.start >= cursor then front + [spans[|spans| - 1]] else front
  }

  method HighlightSweepChunk(root: Forest, size: nat, cursor: nat, chunkBytes: nat, given: seq<Span>)
    returns (next: nat, out: seq<Span>)
    requires cursor <= size && root.Tree? && root.siblings.Nothing?
    ensures next == if cursor + chunkBytes < size then cursor + chunkBytes else size
    ensures out == given + NotBefore(Highlight(root, cursor, next), cursor)
  {
    next := if cursor + chunkBytes < size then cursor + chunkBytes else size;
    var found := CapturesInRange(root, cursor, next);
    out := given;
    for i := 0 to |found|
      invariant out == given + NotBefore(found[..i], cursor)
    {
      assert found[..i + 1][..i] == found[..i];
      if found[i].range.start >= cursor {
        out := out + [found[i]];
      }
    }
    assert found[..|found|] == found;
  }

  /** Chunk after chunk to the end of the text. */
  method Sweep(root: Forest, size: nat, chunkBytes: nat) returns (out: seq<Span>)
    requires chunkBytes > 0 && root.Tree? && root.siblings.Nothing? && WellFormed(root)
    ensures multiset(out) == Swept(Captured(root, []), size, chunkBytes)
  {
    var cursor := 0;
    out := [];
    ghost var all := Captured(root, []);
    CapturedIsSound(root, [], root.node);
    NothingSwept(all, chunkBytes);
    while cursor < size
      invariant 0 <= cursor <= size && (cursor == size || AtBoundary(cursor, chunkBytes))
      invariant multiset(out) == Swept(all, cursor, chunkBytes)
    {
      var next, more := HighlightSweepChunk(root, size, cursor, chunkBytes, out);
      WalkFinds(root, [], cursor, next);
      ChunkTakes(all, cursor, next, chunkBytes);
      NextBoundary(cursor, chunkBytes);
      cursor, out := next, more;
    }
  }

  predicate AtBoundary(p: nat, chunkBytes: nat)
    requires chunkBytes > 0
  {
    p % chunkBytes == 0
  }

  lemma NextBoundary(cursor: nat, chunkBytes: nat)
    requires chunkBytes > 0 && AtBoundary(cursor, chunkBytes)
    ensures AtBoundary(cursor + chunkBytes, chunkBytes)
  {
    var k := cursor / chunkBytes;
    assert cursor + chunkBytes == chunkBytes * (k + 1) + 0;
    QuotientAndRest(cursor + chunkBytes, chunkBytes, k + 1, 0);
  }

  // ---- what the document has ----

  /** A capture, and every node the walk descends through on the way to it. */
  datatype Capture = Capture(span: Span, around: seq<Range>) {
    /** A window reports it. */
    predicate In(from: nat, to: nat) {
      Overlaps(span.range, from, to) && forall i :: 0 <= i < |around| ==> Overlaps(around[i], from, to)
    }

    predicate Sound() {
      && span.range.start <= span.range.end
      && forall i :: 0 <= i < |around| ==> around[i].start <= span.range.start && span.range.end <= around[i].end
    }

    /** It is a token of no length at the end of a node that has one. */
    predicate EndsANode() {
      span.range.Empty() && exists i :: 0 <= i < |around| && !around[i].Empty() && around[i].end == span.range.start
    }

    /** Such a token where a chunk begins: the chunk does not see the node it ends, and the last chunk not the token. */
    predicate AtSeam(chunkBytes: nat)
      requires chunkBytes > 0
    {
      EndsANode() && AtBoundary(span.range.start, chunkBytes)
    }
  }

  /** Every capture of the document, in pre-order. */
  function Captured(forest: Forest, around: seq<Range>): seq<Capture> {
    match forest
    case Nothing => []
    case Tree(node, captures, children, siblings) =>
      Own(captures, around + [node]) + Captured(children, around + [node]) + Captured(siblings, around)
  }

  function Own(captures: seq<Span>, around: seq<Range>): seq<Capture> {
    seq(|captures|, i requires 0 <= i < |captures| => Capture(captures[i], around))
  }

  /** Nodes lie in the one above them, and captures in the node whose pattern makes them. */
  predicate LiesIn(forest: Forest, bounds: Range) {
    match forest
    case Nothing => true
    case Tree(node, captures, children, siblings) =>
      && bounds.start <= node.start <= node.end <= bounds.end
      && (forall i :: 0 <= i < |captures| ==>
            node.start <= captures[i].range.start <= captures[i].range.end <= node.end)
      && LiesIn(children, node) && LiesIn(siblings, bounds)
  }

  predicate WellFormed(root: Forest) {
    root.Tree? && LiesIn(root, root.node)
  }

  predicate AllSound(all: seq<Capture>) {
    forall i :: 0 <= i < |all| ==> all[i].Sound()
  }

  lemma {:induction false} CapturedIsSound(forest: Forest, around: seq<Range>, bounds: Range)
    requires LiesIn(forest, bounds)
    requires forall i :: 0 <= i < |around| ==> around[i].start <= bounds.start && bounds.end <= around[i].end
    ensures AllSound(Captured(forest, around))
  {
    if forest.Tree? {
      CapturedIsSound(forest.children, around + [forest.node], forest.node);
      CapturedIsSound(forest.siblings, around, bounds);
    }
  }

  // ---- the walk reports every capture that nothing hides ----

  function Found(all: seq<Capture>, from: nat, to: nat): seq<Span> {
    if all == [] then []
    else (if all[0].In(from, to) then [all[0].span] else []) + Found(all[1..], from, to)
  }

  lemma {:induction false} FoundAppends(a: seq<Capture>, b: seq<Capture>, from: nat, to: nat)
    ensures Found(a + b, from, to) == Found(a, from, to) + Found(b, from, to)
  {
    if a == [] {
      assert a + b == b;
    } else {
      FoundAppends(a[1..], b, from, to);
      assert (a + b)[0] == a[0] && (a + b)[1..] == a[1..] + b;
      Regroup(if a[0].In(from, to) then [a[0].span] else [], Found(a[1..], from, to), Found(b, from, to));
    }
  }

  predicate AllOverlap(around: seq<Range>, from: nat, to: nat) {
    forall i :: 0 <= i < |around| ==> Overlaps(around[i], from, to)
  }

  lemma {:induction false} OwnFound(captures: seq<Span>, around: seq<Range>, from: nat, to: nat)
    ensures Found(Own(captures, around), from, to) ==
      if AllOverlap(around, from, to) then Reported(captures, from, to) else []
  {
    if captures != [] {
      OwnFound(captures[1..], around, from, to);
      assert Own(captures, around)[1..] == Own(captures[1..], around);
    }
  }

  /** The walk, which prunes, finds exactly the captures all of whose nodes overlap the window. */
  lemma {:induction false} WalkFinds(forest: Forest, around: seq<Range>, from: nat, to: nat)
    ensures Found(Captured(forest, around), from, to) ==
      if AllOverlap(around, from, to) then Walk(forest, from, to) else []
  {
    if forest.Tree? {
      var inner := around + [forest.node];
      WalkFinds(forest.children, inner, from, to);
      WalkFinds(forest.siblings, around, from, to);
      OwnFound(forest.captures, inner, from, to);
      InnerOverlap(around, forest.node, from, to);
      FoundAppends(Own(forest.captures, inner), Captured(forest.children, inner), from, to);
      FoundAppends(
        Own(forest.captures, inner) + Captured(forest.children, inner), Captured(forest.siblings, around), from, to);
    }
  }

  lemma InnerOverlap(around: seq<Range>, node: Range, from: nat, to: nat)
    ensures AllOverlap(around + [node], from, to) <==> AllOverlap(around, from, to) && Overlaps(node, from, to)
  {
    assert (around + [node])[|around|] == node;
    assert forall i :: 0 <= i < |around| ==> (around + [node])[i] == around[i];
  }

  // ---- what a chunk adds ----

  function One(s: Span, taken: bool): multiset<Span> {
    if taken then multiset{s} else multiset{}
  }

  /** Every capture that starts before `cursor` and is not at a seam, as often as the document has it. */
  function Swept(all: seq<Capture>, cursor: nat, chunkBytes: nat): multiset<Span>
    requires chunkBytes > 0
  {
    if all == [] then multiset{}
    else
      One(all[0].span, all[0].span.range.start < cursor && !all[0].AtSeam(chunkBytes))
      + Swept(all[1..], cursor, chunkBytes)
  }

  lemma {:induction false} NothingSwept(all: seq<Capture>, chunkBytes: nat)
    requires chunkBytes > 0
    ensures Swept(all, 0, chunkBytes) == multiset{}
  {
    if all != [] {
      NothingSwept(all[1..], chunkBytes);
    }
  }

  lemma {:induction false} NotBeforeAppends(a: seq<Span>, b: seq<Span>, cursor: nat)
    ensures NotBefore(a + b, cursor) == NotBefore(a, cursor) + NotBefore(b, cursor)
  {
    if b == [] {
      assert a + b == a;
    } else {
      NotBeforeAppends(a, b[..|b| - 1], cursor);
      assert (a + b)[..|a + b| - 1] == a + b[..|b| - 1];
    }
  }

  /** A chunk begins at the only boundary in it. */
  lemma OneBoundary(cursor: nat, p: nat, chunkBytes: nat)
    requires chunkBytes > 0 && AtBoundary(cursor, chunkBytes) && cursor <= p < cursor + chunkBytes
    ensures AtBoundary(p, chunkBytes) <==> p == cursor
  {
    var k, rest := cursor / chunkBytes, p - cursor;
    assert p == chunkBytes * k + rest;
    QuotientAndRest(p, chunkBytes, k, rest);
  }

  /** Of the captures that start in a chunk it reports those that are not at a seam. */
  lemma InChunk(c: Capture, cursor: nat, next: nat, chunkBytes: nat)
    requires chunkBytes > 0 && AtBoundary(cursor, chunkBytes) && cursor < next <= cursor + chunkBytes
    requires c.Sound() && cursor <= c.span.range.start
    ensures c.In(cursor, next) <==> c.span.range.start < next && !c.AtSeam(chunkBytes)
  {
    var p := c.span.range.start;
    if p < next {
      OneBoundary(cursor, p, chunkBytes);
      HiddenAtStart(c, cursor, next);
    }
  }

  /** A window hides a capture that starts in it if and only if that ends a node where the window begins. */
  lemma HiddenAtStart(c: Capture, from: nat, to: nat)
    requires c.Sound() && from <= c.span.range.start < to
    ensures c.In(from, to) <==> !(c.EndsANode() && c.span.range.start == from)
  {
    if c.EndsANode() && c.span.range.start == from {
      var i :| 0 <= i < |c.around| && !c.around[i].Empty() && c.around[i].end == from;
      assert !Overlaps(c.around[i], from, to);
    } else {
      assert forall i :: 0 <= i < |c.around| ==> Overlaps(c.around[i], from, to);
    }
  }

  /**
   One chunk adds exactly the captures that start in it, each once, but for one at its seam: what straddles its
   beginning was taken by the chunk it starts in, what straddles its end is taken whole.
   */
  lemma {:induction false} ChunkTakes(all: seq<Capture>, cursor: nat, next: nat, chunkBytes: nat)
    requires AllSound(all) && chunkBytes > 0 && AtBoundary(cursor, chunkBytes) && cursor < next <= cursor + chunkBytes
    ensures Swept(all, next, chunkBytes)
         == Swept(all, cursor, chunkBytes) + multiset(NotBefore(Found(all, cursor, next), cursor))
  {
    if all != [] {
      ChunkTakes(all[1..], cursor, next, chunkBytes);
      var c, rest := all[0], Found(all[1..], cursor, next);
      var s, seam := c.span, c.AtSeam(chunkBytes);
      TakeHead(c, rest, cursor, next);
      if cursor <= s.range.start {
        InChunk(c, cursor, next, chunkBytes);
      }
      Interchange(
        One(s, s.range.start < cursor && !seam), One(s, cursor <= s.range.start < next && !seam),
        Swept(all[1..], cursor, chunkBytes), multiset(NotBefore(rest, cursor)));
    }
  }

  lemma TakeHead(c: Capture, rest: seq<Span>, cursor: nat, next: nat)
    ensures multiset(NotBefore((if c.In(cursor, next) then [c.span] else []) + rest, cursor))
         == One(c.span, cursor <= c.span.range.start && c.In(cursor, next)) + multiset(NotBefore(rest, cursor))
  {
    var head := if c.In(cursor, next) then [c.span] else [];
    NotBeforeAppends(head, rest, cursor);
    assert [c.span][..0] == [];
  }

  lemma Interchange(a: multiset<Span>, b: multiset<Span>, c: multiset<Span>, d: multiset<Span>)
    ensures (a + b) + (c + d) == (a + c) + (b + d)
  {
  }

  // ---- the sweep against one call for the whole document ----

  /** The end of the window that covers everything. */
  const EVERYTHING: nat := 0xffff_ffff_ffff_ffff

  function Whole(root: Forest): multiset<Span> {
    multiset(Highlight(root, 0, EVERYTHING))
  }

  /** What no chunk reports: captures at or after the end of the text, and those at a seam. */
  predicate IsMissed(c: Capture, size: nat, chunkBytes: nat)
    requires chunkBytes > 0
  {
    c.span.range.start < EVERYTHING && (size <= c.span.range.start || c.AtSeam(chunkBytes))
  }

  function Missed(all: seq<Capture>, size: nat, chunkBytes: nat): multiset<Span>
    requires chunkBytes > 0
  {
    if all == [] then multiset{}
    else One(all[0].span, IsMissed(all[0], size, chunkBytes)) + Missed(all[1..], size, chunkBytes)
  }

  lemma {:induction false} SweptOrMissed(all: seq<Capture>, size: nat, chunkBytes: nat)
    requires AllSound(all) && size <= EVERYTHING && chunkBytes > 0
    ensures Swept(all, size, chunkBytes) + Missed(all, size, chunkBytes) == multiset(Found(all, 0, EVERYTHING))
  {
    if all != [] {
      var c := all[0];
      SweptOrMissed(all[1..], size, chunkBytes);
      InWhole(c);
      FoundHead(c, Found(all[1..], 0, EVERYTHING));
      OneOrOther(c, size, chunkBytes);
      Interchange(
        One(c.span, c.span.range.start < size && !c.AtSeam(chunkBytes)), One(c.span, IsMissed(c, size, chunkBytes)),
        Swept(all[1..], size, chunkBytes), Missed(all[1..], size, chunkBytes));
    }
  }

  lemma InWhole(c: Capture)
    requires c.Sound()
    ensures c.In(0, EVERYTHING) <==> c.span.range.start < EVERYTHING
  {
    if c.span.range.start < EVERYTHING {
      HiddenAtStart(c, 0, EVERYTHING);
    }
  }

  lemma FoundHead(c: Capture, rest: seq<Span>)
    ensures multiset((if c.In(0, EVERYTHING) then [c.span] else []) + rest) ==
      One(c.span, c.In(0, EVERYTHING)) + multiset(rest)
  {
    assert [] + rest == rest;
  }

  lemma OneOrOther(c: Capture, size: nat, chunkBytes: nat)
    requires size <= EVERYTHING && chunkBytes > 0
    ensures One(c.span, c.span.range.start < size && !c.AtSeam(chunkBytes)) + One(c.span, IsMissed(c, size, chunkBytes))
         == One(c.span, c.span.range.start < EVERYTHING)
  {
  }

  /** What a sweep takes and what it misses are together the whole document's captures, each once. */
  lemma SweepLosesOnlyMissed(root: Forest, size: nat, chunkBytes: nat)
    requires WellFormed(root) && size <= EVERYTHING && chunkBytes > 0
    ensures var all := Captured(root, []);
      Swept(all, size, chunkBytes) + Missed(all, size, chunkBytes) == Whole(root)
  {
    CapturedIsSound(root, [], root.node);
    WalkFinds(root, [], 0, EVERYTHING);
    SweptOrMissed(Captured(root, []), size, chunkBytes);
  }

  lemma {:induction false} NoneMissed(all: seq<Capture>, size: nat, chunkBytes: nat)
    requires chunkBytes > 0
    ensures Missed(all, size, chunkBytes) == multiset{} <==> forall c <- all :: !IsMissed(c, size, chunkBytes)
  {
    if all != [] {
      NoneMissed(all[1..], size, chunkBytes);
      assert forall c :: c in all <==> c == all[0] || c in all[1..];
      assert all[0].span in One(all[0].span, true);
    }
  }

  /**
   Sweeping gives what one call for the whole document gives if and only if no capture starts at the text's
   end or later, and none is a token of no length that ends a node where a chunk begins.
   */
  lemma SweepIsWholeCall(root: Forest, size: nat, chunkBytes: nat)
    requires WellFormed(root) && size <= EVERYTHING && chunkBytes > 0
    ensures Swept(Captured(root, []), size, chunkBytes) == Whole(root) <==>
      forall c <- Captured(root, []) :: !IsMissed(c, size, chunkBytes)
  {
    var all := Captured(root, []);
    SweepLosesOnlyMissed(root, size, chunkBytes);
    NoneMissed(all, size, chunkBytes);
    Cancel(Swept(all, size, chunkBytes), Missed(all, size, chunkBytes));
  }

  lemma Cancel(a: multiset<Span>, b: multiset<Span>)
    ensures a == a + b <==> b == multiset{}
  {
    if a == a + b {
      assert |a + b| == |a| + |b|;
    }
  }

  /** So for captures with bytes of the text in them it always does, whatever the chunk size. */
  lemma NonEmptyCapturesAreSwept(root: Forest, size: nat, chunkBytes: nat)
    requires WellFormed(root) && size <= EVERYTHING && chunkBytes > 0
    requires forall c <- Captured(root, []) :: c.span.range.start < c.span.range.end <= size
    ensures Swept(Captured(root, []), size, chunkBytes) == Whole(root)
  {
    SweepIsWholeCall(root, size, chunkBytes);
  }

  // ---- what an incomplete text loses ----

  /** A statement over `[0, at)` whose closing token is missing, in a text that goes on behind it or not. */
  function Unfinished(at: nat, size: nat, syntax: nat): Forest {
    Tree(Range(0, size), [],
         Tree(Range(0, at), [], Tree(Range(at, at), [Span(Range(at, at), syntax)], Nothing, Nothing), Nothing), Nothing)
  }

  /** The whole document's call reports the missing token; the sweep does not if a chunk or nothing begins there. */
  lemma MissingTokenIsLost(at: nat, size: nat, syntax: nat, chunkBytes: nat)
    requires 0 < at <= size < EVERYTHING && chunkBytes > 0
    ensures var root, missing := Unfinished(at, size, syntax), Span(Range(at, at), syntax);
      && WellFormed(root) && Whole(root) == multiset{missing}
      && Swept(Captured(root, []), size, chunkBytes) ==
           (if at == size || AtBoundary(at, chunkBytes) then multiset{} else multiset{missing})
  {
    var root, missing := Unfinished(at, size, syntax), Span(Range(at, at), syntax);
    var c := Capture(missing, [Range(0, size), Range(0, at), Range(at, at)]);
    OnlyCapture(at, size, syntax);
    assert c.around[1].end == at;
    UnfinishedIsWellFormed(at, size, syntax);
    assert [c][1..] == [];
    WalkFinds(root, [], 0, EVERYTHING);
    CapturedIsSound(root, [], root.node);
    InWhole(c);
  }

  lemma UnfinishedIsWellFormed(at: nat, size: nat, syntax: nat)
    requires at <= size
    ensures WellFormed(Unfinished(at, size, syntax))
  {
    var root := Unfinished(at, size, syntax);
    assert LiesIn(Nothing, Range(at, at)) && LiesIn(Nothing, Range(0, at)) && LiesIn(Nothing, Range(0, size));
    assert LiesIn(root.children.children, Range(0, at));
    assert LiesIn(root.children, Range(0, size));
  }

  lemma OnlyCapture(at: nat, size: nat, syntax: nat)
    ensures Captured(Unfinished(at, size, syntax), []) ==
      [Capture(Span(Range(at, at), syntax), [Range(0, size), Range(0, at), Range(at, at)])]
  {
    var root, missing := Unfinished(at, size, syntax), Span(Range(at, at), syntax);
    var outer, middle := [Range(0, size)], [Range(0, size), Range(0, at)];
    var inner := middle + [Range(at, at)];
    assert inner == [Range(0, size), Range(0, at), Range(at, at)];
    assert [] + [Range(0, size)] == outer && outer + [Range(0, at)] == middle;
    assert Captured(root.children.children, middle) == [Capture(missing, inner)];
    assert Captured(root.children, outer) == [Capture(missing, inner)];
  }
}
