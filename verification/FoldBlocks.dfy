/**
 Fold blocks: the text-level rules every fold source's output goes through, and the nesting depth of
 what comes out (Source/Editor/CodeFold.cpp:9-64, 130-143).
 */
module FoldBlocks {
  import opened Common

  function Min(a: nat, b: nat): nat {
    if a <= b then a else b
  }

  function Clamp(text: string, b: Range): Range {
    Range(Min(b.start, |text|), Min(b.end, |text|))
  }

  /** The end of a block pulled back over trailing whitespace, no further than its start. */
  function TrimEnd(text: string, start: nat, end: nat): (e: nat)
    requires end <= |text|
    ensures e <= end && (start <= end ==> start <= e)
    ensures start < e ==> !IsSpace(text[e - 1])
    ensures forall k :: e <= k < end ==> IsSpace(text[k])
  {
    if end > start && IsSpace(text[end - 1]) then TrimEnd(text, start, end - 1) else end
  }

  /** A source block as the rules see it. */
  function Shaped(text: string, b: Range): (r: Range)
    ensures r.start <= |text| && r.end <= |text|
  {
    var c := Clamp(text, b);
    Range(c.start, TrimEnd(text, c.start, c.end))
  }

  /** A fold has a line break inside it. */
  predicate MultiLine(text: string, b: Range) {
    b.start < b.end <= |text| && exists k :: b.start <= k < b.end && text[k] == '\n'
  }

  /** `b` is one of the shaped source blocks, and a fold. */
  ghost predicate Candidate(text: string, blocks: seq<Range>, b: Range) {
    MultiLine(text, b) && exists i :: 0 <= i < |blocks| && Shaped(text, blocks[i]) == b
  }

  /** The innermost of the candidates that share its start. */
  ghost predicate Innermost(text: string, blocks: seq<Range>, b: Range) {
    Candidate(text, blocks, b) && forall c :: Candidate(text, blocks, c) && c.start == b.start ==> b.end <= c.end
  }

  predicate StrictlySorted(bs: seq<Range>) {
    forall i, j :: 0 <= i < j < |bs| ==> bs[i].start < bs[j].start
  }

  /** What NormalizeFoldBlocks makes of `blocks`. */
  ghost predicate Normalized(text: string, blocks: seq<Range>, r: seq<Range>) {
    StrictlySorted(r) && forall b :: b in r <==> Innermost(text, blocks, b)
  }

  // ---- the program ----

  method ShapeBlocks(text: string, blocks: seq<Range>) returns (r: seq<Range>)
    ensures |r| == |blocks| && forall i :: 0 <= i < |r| ==> r[i] == Shaped(text, blocks[i])
  {
    r := blocks;
    for i := 0 to |blocks|
      invariant |r| == |blocks|
      invariant forall j :: 0 <= j < i ==> r[j] == Shaped(text, blocks[j])
      invariant forall j :: i <= j < |r| ==> r[j] == blocks[j]
    {
      var start: nat, end: nat := Min(r[i].start, |text|), Min(r[i].end, |text|);
      while end > start && IsSpace(text[end - 1])
        invariant end <= |text|
        invariant TrimEnd(text, start, end) == Shaped(text, blocks[i]).end
      {
        end := end - 1;
      }
      r := r[i := Range(start, end)];
    }
  }

  /** std::string_view::find for a line break. */
  method FindLineBreak(text: string, from: nat) returns (k: nat)
    requires from <= |text|
    ensures from <= k <= |text|
    ensures forall j :: from <= j < k ==> text[j] != '\n'
    ensures k < |text| ==> text[k] == '\n'
  {
    k := from;
    while k < |text| && text[k] != '\n'
      invariant from <= k <= |text|
      invariant forall j :: from <= j < k ==> text[j] != '\n'
    {
      k := k + 1;
    }
  }

  method EraseSingleLine(text: string, shaped: seq<Range>) returns (r: seq<Range>)
    requires forall b :: b in shaped ==> b.start <= |text| && b.end <= |text|
    ensures forall b :: b in r <==> b in shaped && MultiLine(text, b)
  {
    r := [];
    for i := 0 to |shaped|
      invariant forall b :: b in r <==> b in shaped[..i] && MultiLine(text, b)
    {
      var b := shaped[i];
      assert shaped[..i + 1] == shaped[..i] + [b];
      var k := FindLineBreak(text, b.start);
      if !(b.start >= b.end || k >= b.end) {
        r := r + [b];
      }
    }
    assert shaped[..|shaped|] == shaped;
  }

  /** std::pair's order. */
  predicate Before(a: Range, b: Range) {
    a.start < b.start || (a.start == b.start && a.end <= b.end)
  }

  predicate Sorted(bs: seq<Range>) {
    forall i, j :: 0 <= i < j < |bs| ==> Before(bs[i], bs[j])
  }

  method SortBlocks(blocks: seq<Range>) returns (r: seq<Range>)
    ensures Sorted(r) && multiset(r) == multiset(blocks)
  {
    r := [];
    for i := 0 to |blocks|
      invariant Sorted(r) && multiset(r) == multiset(blocks[..i])
    {
      assert blocks[..i + 1] == blocks[..i] + [blocks[i]];
      r := Insert(r, blocks[i]);
    }
    assert blocks[..|blocks|] == blocks;
  }

  method Insert(sorted: seq<Range>, b: Range) returns (r: seq<Range>)
    requires Sorted(sorted)
    ensures Sorted(r) && multiset(r) == multiset(sorted + [b])
  {
    var k := 0;
    while k < |sorted| && Before(sorted[k], b)
      invariant k <= |sorted|
      invariant forall i :: 0 <= i < k ==> Before(sorted[i], b)
    {
      k := k + 1;
    }
    r := sorted[..k] + [b] + sorted[k..];
    InsertedAt(sorted, b, k);
  }

  lemma InsertedAt(sorted: seq<Range>, b: Range, k: nat)
    requires k <= |sorted|
    ensures multiset(sorted[..k] + [b] + sorted[k..]) == multiset(sorted + [b])
  {
    assert sorted == sorted[..k] + sorted[k..];
  }

  method KeepInnermost(sorted: seq<Range>) returns (r: seq<Range>)
    requires Sorted(sorted)
    ensures StrictlySorted(r)
    ensures forall b :: b in r <==> b in sorted && FirstOfStart(sorted, b)
  {
    r := [];
    for i := 0 to |sorted|
      invariant StrictlySorted(r)
      invariant i > 0 ==> r != [] && r[|r| - 1].start == sorted[i - 1].start
      invariant i == 0 ==> r == []
      invariant forall b :: b in r ==> b in sorted && FirstOfStart(sorted, b)
      invariant forall j :: 0 <= j < i ==> Opens(r, sorted[j].start)
    {
      if r != [] && r[|r| - 1].start == sorted[i].start {
        assert Opens(r, sorted[i].start) by { assert r[|r| - 1] in r; }
        continue;
      }
      NewStartIsFirst(sorted, i);
      StaysOpen(r, sorted[i]);
      r := r + [sorted[i]];
    }
    AllFirstsKept(sorted, r);
  }

  ghost predicate Opens(r: seq<Range>, start: nat) {
    exists b :: b in r && b.start == start
  }

  lemma StaysOpen(r: seq<Range>, b: Range)
    ensures forall s :: Opens(r, s) ==> Opens(r + [b], s)
    ensures Opens(r + [b], b.start)
  {
    assert b in r + [b];
    forall s | Opens(r, s) ensures Opens(r + [b], s) {
      var x :| x in r && x.start == s;
      assert x in r + [b];
    }
  }

  lemma AllFirstsKept(sorted: seq<Range>, r: seq<Range>)
    requires forall b :: b in r ==> b in sorted && FirstOfStart(sorted, b)
    requires forall j :: 0 <= j < |sorted| ==> Opens(r, sorted[j].start)
    ensures forall b :: b in sorted && FirstOfStart(sorted, b) ==> b in r
  {
    forall b | b in sorted && FirstOfStart(sorted, b) ensures b in r {
      var j :| 0 <= j < |sorted| && sorted[j] == b;
      assert Opens(r, sorted[j].start);
      var c :| c in r && c.start == b.start;
      assert c.end == b.end;
    }
  }

  ghost predicate FirstOfStart(bs: seq<Range>, b: Range) {
    forall c :: c in bs && c.start == b.start ==> b.end <= c.end
  }

  lemma NewStartIsFirst(sorted: seq<Range>, i: nat)
    requires Sorted(sorted) && i < |sorted| && (i > 0 ==> sorted[i - 1].start != sorted[i].start)
    ensures FirstOfStart(sorted, sorted[i])
    ensures forall j :: 0 <= j < i ==> sorted[j].start < sorted[i].start
  {
    forall j | 0 <= j < i ensures sorted[j].start < sorted[i].start {
      if j < i - 1 {
        assert Before(sorted[j], sorted[i - 1]);
      }
      assert Before(sorted[i - 1], sorted[i]);
    }
  }

  method NormalizeFoldBlocks(blocks: seq<Range>, text: string) returns (r: seq<Range>)
    ensures Normalized(text, blocks, r)
  {
    var shaped := ShapeBlocks(text, blocks);
    var folds := EraseSingleLine(text, shaped);
    assert forall b :: b in folds <==> Candidate(text, blocks, b);
    var sorted := SortBlocks(folds);
    SameElements(sorted, folds);
    r := KeepInnermost(sorted);
  }

  lemma SameElements(a: seq<Range>, b: seq<Range>)
    requires multiset(a) == multiset(b)
    ensures forall x :: x in a <==> x in b
  {
    forall x ensures x in a <==> x in b {
      assert x in a <==> x in multiset(a);
      assert x in b <==> x in multiset(b);
    }
  }

  // ---- what normalising guarantees ----

  /** Nested or disjoint: what two nodes of one syntax tree always are. */
  predicate Laminar(a: Range, b: Range) {
    a.end <= b.start || b.end <= a.start || (a.start <= b.start && b.end <= a.end)
      || (b.start <= a.start && a.end <= b.end)
  }

  ghost predicate AllLaminar(bs: seq<Range>) {
    forall i, j :: 0 <= i < |bs| && 0 <= j < |bs| ==> Laminar(bs[i], bs[j])
  }

  /** Clamping and trimming keep nested blocks nested and disjoint ones disjoint. */
  lemma ShapingKeepsLaminar(text: string, a: Range, b: Range)
    requires a.start <= a.end && b.start <= b.end && Laminar(a, b)
    ensures Shaped(text, a).start < Shaped(text, a).end && Shaped(text, b).start < Shaped(text, b).end ==>
            Laminar(Shaped(text, a), Shaped(text, b))
  {
    var a', b' := Shaped(text, a), Shaped(text, b);
    if a'.start < a'.end && b'.start < b'.end {
      if a.start <= b.start && b.end <= a.end {
        TrimmedInside(text, Clamp(text, a), Clamp(text, b));
      } else if b.start <= a.start && a.end <= b.end {
        TrimmedInside(text, Clamp(text, b), Clamp(text, a));
      }
    }
  }

  /** An inner block's trimmed end stays within the outer one's: what the outer loses the inner loses too. */
  lemma TrimmedInside(text: string, outer: Range, inner: Range)
    requires outer.start <= inner.start && inner.end <= outer.end <= |text|
    requires inner.start < TrimEnd(text, inner.start, inner.end)
    ensures TrimEnd(text, inner.start, inner.end) <= TrimEnd(text, outer.start, outer.end)
  {
    var e := TrimEnd(text, inner.start, inner.end);
    assert !IsSpace(text[e - 1]);
  }

  lemma NormalizedKeepsLaminar(text: string, blocks: seq<Range>, r: seq<Range>)
    requires Normalized(text, blocks, r)
    requires AllLaminar(blocks) && forall b :: b in blocks ==> b.start <= b.end
    ensures AllLaminar(r)
  {
    forall i, j | 0 <= i < |r| && 0 <= j < |r| ensures Laminar(r[i], r[j]) {
      assert Innermost(text, blocks, r[i]) && Innermost(text, blocks, r[j]);
      var x :| 0 <= x < |blocks| && Shaped(text, blocks[x]) == r[i];
      var y :| 0 <= y < |blocks| && Shaped(text, blocks[y]) == r[j];
      ShapingKeepsLaminar(text, blocks[x], blocks[y]);
    }
  }

  /** The rules leave a block they produced alone. */
  lemma ShapedAgain(text: string, blocks: seq<Range>, b: Range)
    requires Candidate(text, blocks, b)
    ensures Shaped(text, b) == b && !IsSpace(text[b.end - 1])
  {
    var i :| 0 <= i < |blocks| && Shaped(text, blocks[i]) == b;
  }

  lemma NormalizedIsFixed(text: string, blocks: seq<Range>, r: seq<Range>)
    requires Normalized(text, blocks, r)
    ensures Normalized(text, r, r)
  {
    forall b ensures Candidate(text, r, b) <==> b in r {
      if b in r {
        assert Innermost(text, blocks, b);
        ShapedAgain(text, blocks, b);
        var i :| 0 <= i < |r| && r[i] == b;
      }
      if Candidate(text, r, b) {
        var i :| 0 <= i < |r| && Shaped(text, r[i]) == b;
        assert Innermost(text, blocks, r[i]);
        ShapedAgain(text, blocks, r[i]);
      }
    }
    forall b ensures b in r <==> Innermost(text, r, b) {
      if b in r {
        forall c | Candidate(text, r, c) && c.start == b.start ensures b.end <= c.end {
          SameStartSame(r, b, c);
        }
      }
    }
  }

  lemma SameStartSame(r: seq<Range>, b: Range, c: Range)
    requires StrictlySorted(r) && b in r && c in r && b.start == c.start
    ensures b == c
  {
    var i :| 0 <= i < |r| && r[i] == b;
    var j :| 0 <= j < |r| && r[j] == c;
    assert i == j;
  }

  /** There is one normal form: normalising twice is normalising once. */
  lemma NormalizedIsUnique(text: string, blocks: seq<Range>, r: seq<Range>, r': seq<Range>)
    requires Normalized(text, blocks, r) && Normalized(text, blocks, r')
    ensures r == r'
  {
    SortedSameElements(r, r');
  }

  lemma NormalizingIsIdempotent(text: string, blocks: seq<Range>, once: seq<Range>, twice: seq<Range>)
    requires Normalized(text, blocks, once) && Normalized(text, once, twice)
    ensures twice == once
  {
    NormalizedIsFixed(text, blocks, once);
    NormalizedIsUnique(text, once, once, twice);
  }

  lemma {:induction false} SortedSameElements(a: seq<Range>, b: seq<Range>)
    requires StrictlySorted(a) && StrictlySorted(b) && forall x :: x in a <==> x in b
    ensures a == b
  {
    assert b != [] ==> b[0] in b;
    if a != [] {
      assert a[0] in a && b != [];
      FirstIsLeast(a, b[0]);
      FirstIsLeast(b, a[0]);
      SameStartSame(b, a[0], b[0]);
      forall x ensures x in a[1..] <==> x in b[1..] {
        RestIsOthers(a, x);
        RestIsOthers(b, x);
      }
      SortedSameElements(a[1..], b[1..]);
      assert a == [a[0]] + a[1..] && b == [b[0]] + b[1..];
    }
  }

  lemma FirstIsLeast(a: seq<Range>, x: Range)
    requires StrictlySorted(a) && x in a
    ensures a[0].start <= x.start
  {
    var i :| 0 <= i < |a| && a[i] == x;
  }

  lemma RestIsOthers(a: seq<Range>, x: Range)
    requires StrictlySorted(a) && a != []
    ensures x in a[1..] <==> x in a && x != a[0]
  {
    assert a == [a[0]] + a[1..];
    if x in a[1..] {
      var i :| 0 <= i < |a[1..]| && a[1..][i] == x;
      assert a[i + 1] == x;
    }
  }
}
