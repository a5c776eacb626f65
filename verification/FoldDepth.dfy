/**
 Nesting depth by one stack walk over sorted blocks (Source/Editor/CodeFold.cpp:130-143), against the
 number of blocks that strictly contain each one.
 */
module FoldDepth {
  import opened Common
  import opened FoldBlocks

  datatype FoldRegion = FoldRegion(startByte: nat, endByte: nat, depth: nat)

  /** What the walk is given: blocks as NormalizeFoldBlocks leaves them. */
  ghost predicate Walkable(blocks: seq<Range>) {
    && StrictlySorted(blocks) && AllLaminar(blocks)
    && forall i :: 0 <= i < |blocks| ==> blocks[i].start < blocks[i].end
  }

  predicate StrictlyContains(outer: Range, inner: Range) {
    outer != inner && outer.start <= inner.start && inner.end <= outer.end
  }

  /** How many of `bs` strictly contain `b`. */
  function CountContaining(bs: seq<Range>, b: Range): nat {
    if bs == [] then 0
    else CountContaining(bs[..|bs| - 1], b) + if StrictlyContains(bs[|bs| - 1], b) then 1 else 0
  }

  /** The ends of the blocks still open at byte `at`, in order. */
  function OpenEnds(bs: seq<Range>, at: nat): (r: seq<nat>)
    ensures forall i :: 0 <= i < |r| ==> r[i] > at
  {
    if bs == [] then []
    else
      var last := bs[|bs| - 1];
      if last.end > at then OpenEnds(bs[..|bs| - 1], at) + [last.end] else OpenEnds(bs[..|bs| - 1], at)
  }

  function Above(ends: seq<nat>, at: nat): seq<nat> {
    if ends == [] then []
    else
      var last := ends[|ends| - 1];
      if last > at then Above(ends[..|ends| - 1], at) + [last] else Above(ends[..|ends| - 1], at)
  }

  lemma {:induction false} OpenLater(bs: seq<Range>, at: nat, later: nat)
    requires at <= later
    ensures OpenEnds(bs, later) == Above(OpenEnds(bs, at), later)
  {
    if bs != [] {
      var front, last := bs[..|bs| - 1], bs[|bs| - 1];
      OpenLater(front, at, later);
      if last.end > at {
        assert (OpenEnds(front, at) + [last.end])[..|OpenEnds(front, at)|] == OpenEnds(front, at);
      }
    }
  }

  /** Ends of a stack: none above a lower one. */
  predicate Stacked(ends: seq<nat>) {
    forall i, j :: 0 <= i < j < |ends| ==> ends[i] >= ends[j]
  }

  /** Whatever is open past one place is open at every block between: all of it encloses the last block. */
  lemma {:induction false} OpenEndsEnclose(blocks: seq<Range>, n: nat, i: nat)
    requires Walkable(blocks) && n <= i < |blocks|
    ensures forall k :: 0 <= k < |OpenEnds(blocks[..n], blocks[i].start)| ==>
              OpenEnds(blocks[..n], blocks[i].start)[k] >= blocks[i].end
  {
    if n > 0 {
      assert blocks[..n][..n - 1] == blocks[..n - 1];
      OpenEndsEnclose(blocks, n - 1, i);
      assert Laminar(blocks[n - 1], blocks[i]);
    }
  }

  lemma {:induction false} OpenEndsAreStacked(blocks: seq<Range>, n: nat, i: nat)
    requires Walkable(blocks) && n <= i < |blocks|
    ensures Stacked(OpenEnds(blocks[..n], blocks[i].start))
  {
    if n > 0 {
      assert blocks[..n][..n - 1] == blocks[..n - 1];
      OpenEndsAreStacked(blocks, n - 1, i);
      var before := OpenEnds(blocks[..n - 1], blocks[i].start);
      if blocks[n - 1].end > blocks[i].start {
        OpenEndsEnclose(blocks, n - 1, n - 1);
        OpenLater(blocks[..n - 1], blocks[n - 1].start, blocks[i].start);
        AboveIsAmong(OpenEnds(blocks[..n - 1], blocks[n - 1].start), blocks[i].start);
        forall k | 0 <= k < |before| ensures before[k] >= blocks[n - 1].end {
          assert before[k] in before;
        }
      }
    }
  }

  lemma {:induction false} AboveIsAmong(ends: seq<nat>, at: nat)
    ensures forall e :: e in Above(ends, at) ==> e in ends
  {
    if ends != [] {
      AboveIsAmong(ends[..|ends| - 1], at);
    }
  }

  /** On a stack, popping from the top is all it takes to leave the ends above a byte. */
  lemma {:induction false} AboveIsPrefix(ends: seq<nat>, kept: nat, at: nat)
    requires kept <= |ends| && Stacked(ends)
    requires forall i :: kept <= i < |ends| ==> ends[i] <= at
    requires kept > 0 ==> ends[kept - 1] > at
    ensures Above(ends, at) == ends[..kept]
    decreases |ends|
  {
    if ends != [] {
      if kept == |ends| {
        AllAbove(ends, at);
      } else {
        AboveIsPrefix(ends[..|ends| - 1], kept, at);
        assert ends[..|ends| - 1][..kept] == ends[..kept];
      }
    }
  }

  lemma {:induction false} AllAbove(ends: seq<nat>, at: nat)
    requires forall i :: 0 <= i < |ends| ==> ends[i] > at
    ensures Above(ends, at) == ends[..|ends|]
  {
    if ends != [] {
      AllAbove(ends[..|ends| - 1], at);
      assert ends == ends[..|ends| - 1] + [ends[|ends| - 1]];
    }
  }

  // ---- the program ----

  method PopClosed(open: seq<nat>, start: nat) returns (r: seq<nat>)
    requires Stacked(open)
    ensures r == Above(open, start)
  {
    r := open;
    while r != [] && r[|r| - 1] <= start
      invariant |r| <= |open| && r == open[..|r|]
      invariant forall i :: |r| <= i < |open| ==> open[i] <= start
    {
      r := r[..|r| - 1];
    }
    AboveIsPrefix(open, |r|, start);
  }

  method FoldRegionsWithDepth(blocks: seq<Range>) returns (regions: seq<FoldRegion>)
    requires Walkable(blocks)
    ensures |regions| == |blocks|
    ensures forall i :: 0 <= i < |blocks| ==>
      regions[i] == FoldRegion(blocks[i].start, blocks[i].end, CountContaining(blocks, blocks[i]))
  {
    regions := [];
    var openEnds: seq<nat> := [];
    for i := 0 to |blocks|
      invariant |regions| == i
      invariant forall j :: 0 <= j < i ==>
        regions[j] == FoldRegion(blocks[j].start, blocks[j].end, CountContaining(blocks, blocks[j]))
      invariant openEnds == OpenAfter(blocks, i)
    {
      AfterIsStacked(blocks, i);
      openEnds := PopClosed(openEnds, blocks[i].start);
      EntersBlock(blocks, i);
      regions := regions + [FoldRegion(blocks[i].start, blocks[i].end, |openEnds|)];
      openEnds := openEnds + [blocks[i].end];
    }
  }

  /** The stack once the first `i` blocks have been walked. */
  ghost function OpenAfter(blocks: seq<Range>, i: nat): seq<nat>
    requires i <= |blocks|
  {
    if i == 0 then [] else OpenEnds(blocks[..i], blocks[i - 1].start)
  }

  lemma AfterIsStacked(blocks: seq<Range>, i: nat)
    requires Walkable(blocks) && i <= |blocks|
    ensures Stacked(OpenAfter(blocks, i))
  {
    if i > 0 {
      PushedIsStacked(blocks, i);
    }
  }

  /** One step of the walk: what is left open encloses the block, which is then open itself. */
  lemma EntersBlock(blocks: seq<Range>, i: nat)
    requires Walkable(blocks) && i < |blocks|
    ensures var left := Above(OpenAfter(blocks, i), blocks[i].start);
      |left| == CountContaining(blocks, blocks[i]) && left + [blocks[i].end] == OpenAfter(blocks, i + 1)
  {
    if i > 0 {
      OpenLater(blocks[..i], blocks[i - 1].start, blocks[i].start);
    }
    OpenCountsContaining(blocks, i);
    assert blocks[..i + 1][..i] == blocks[..i];
  }

  lemma PushedIsStacked(blocks: seq<Range>, i: nat)
    requires Walkable(blocks) && 0 < i <= |blocks|
    ensures Stacked(OpenEnds(blocks[..i], blocks[i - 1].start))
  {
    OpenEndsAreStacked(blocks, i - 1, i - 1);
    OpenEndsEnclose(blocks, i - 1, i - 1);
    assert blocks[..i][..i - 1] == blocks[..i - 1];
  }

  /** The blocks open where one starts are exactly those strictly containing it. */
  lemma OpenCountsContaining(blocks: seq<Range>, i: nat)
    requires Walkable(blocks) && i < |blocks|
    ensures |OpenEnds(blocks[..i], blocks[i].start)| == CountContaining(blocks, blocks[i])
  {
    OpenAreContaining(blocks, i, i);
    LaterContainNothing(blocks, |blocks|, i);
    assert blocks[..|blocks|] == blocks;
  }

  lemma {:induction false} OpenAreContaining(blocks: seq<Range>, n: nat, i: nat)
    requires Walkable(blocks) && n <= i < |blocks|
    ensures |OpenEnds(blocks[..n], blocks[i].start)| == CountContaining(blocks[..n], blocks[i])
  {
    if n > 0 {
      assert blocks[..n][..n - 1] == blocks[..n - 1];
      OpenAreContaining(blocks, n - 1, i);
      assert Laminar(blocks[n - 1], blocks[i]);
    }
  }

  lemma {:induction false} LaterContainNothing(blocks: seq<Range>, n: nat, i: nat)
    requires Walkable(blocks) && i < |blocks| && i <= n <= |blocks|
    ensures CountContaining(blocks[..n], blocks[i]) == CountContaining(blocks[..i], blocks[i])
  {
    if n > i {
      assert blocks[..n][..n - 1] == blocks[..n - 1];
      LaterContainNothing(blocks, n - 1, i);
    }
  }

  /** Normalised laminar blocks are what the walk may be given. */
  lemma NormalizedIsWalkable(text: string, blocks: seq<Range>, r: seq<Range>)
    requires Normalized(text, blocks, r)
    requires AllLaminar(blocks) && forall b :: b in blocks ==> b.start <= b.end
    ensures Walkable(r)
  {
    NormalizedKeepsLaminar(text, blocks, r);
    forall i | 0 <= i < |r| ensures r[i].start < r[i].end {
      assert r[i] in r && Innermost(text, blocks, r[i]);
    }
  }
}
