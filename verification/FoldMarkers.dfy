/**
 Fold markers and the lines they hide (Source/Editor/CodeFold.cpp:73-128; the marker map itself is
 Source/Text/Buffer.cpp:1357-1374).
 */
module FoldMarkers {
  import opened Common
  import opened FoldBlocks

  datatype Marker = Collapsed | ChildrenVisible

  type Markers = map<nat, Marker>

  /** The 0-based line of a byte offset: the line breaks ahead of it. */
  function LineOf(text: string, offset: nat): nat
    requires offset <= |text|
  {
    if offset == 0 then 0 else LineOf(text, offset - 1) + if text[offset - 1] == '\n' then 1 else 0
  }

  ghost predicate InText(text: string, blocks: seq<Range>) {
    forall i :: 0 <= i < |blocks| ==> blocks[i].start <= |text| && blocks[i].end <= |text|
  }

  predicate HidesLines(text: string, markers: Markers, b: Range)
    requires b.start <= |text| && b.end <= |text|
  {
    b.start in markers && markers[b.start].Collapsed? && LineOf(text, b.end) > LineOf(text, b.start)
  }

  /** From the line after the header through the line of the end. */
  function HiddenRange(text: string, b: Range): Range
    requires b.start <= |text| && b.end <= |text|
  {
    Range(LineOf(text, b.start) + 1, LineOf(text, b.end) + 1)
  }

  /** What the collapsed blocks hide, block by block. */
  function HiddenRanges(text: string, markers: Markers, blocks: seq<Range>): seq<Range>
    requires InText(text, blocks)
  {
    if blocks == [] then []
    else
      var front, last := blocks[..|blocks| - 1], blocks[|blocks| - 1];
      if HidesLines(text, markers, last) then HiddenRanges(text, markers, front) + [HiddenRange(text, last)]
      else HiddenRanges(text, markers, front)
  }

  // ---- the program ----

  /** std::lower_bound on the start bytes. */
  method LowerBound(blocks: seq<Range>, offset: nat) returns (k: nat)
    requires StrictlySorted(blocks)
    ensures k <= |blocks|
    ensures forall i :: 0 <= i < k ==> blocks[i].start < offset
    ensures forall i :: k <= i < |blocks| ==> offset <= blocks[i].start
  {
    var low, high := 0, |blocks|;
    while low < high
      invariant low <= high <= |blocks|
      invariant forall i :: 0 <= i < low ==> blocks[i].start < offset
      invariant forall i :: high <= i < |blocks| ==> offset <= blocks[i].start
    {
      var middle := low + (high - low) / 2;
      if blocks[middle].start < offset {
        low := middle + 1;
      } else {
        high := middle;
      }
    }
    k := low;
  }

  /** The search finds a block exactly when its start is the marker's key. */
  method FindBlock(blocks: seq<Range>, offset: nat) returns (k: nat, found: bool)
    requires StrictlySorted(blocks)
    ensures k <= |blocks| && (found ==> k < |blocks| && blocks[k].start == offset)
    ensures found <==> exists i :: 0 <= i < |blocks| && blocks[i].start == offset
    ensures forall i :: 0 <= i < k ==> blocks[i].start < offset
    ensures forall i :: k <= i < |blocks| ==> offset <= blocks[i].start
  {
    k := LowerBound(blocks, offset);
    found := k < |blocks| && blocks[k].start == offset;
  }

  /** The keys of the map in iteration order. */
  method SortedKeys(markers: Markers) returns (keys: seq<nat>)
    ensures forall i, j :: 0 <= i < j < |keys| ==> keys[i] < keys[j]
    ensures forall k :: k in keys <==> k in markers
  {
    keys := [];
    var rest := markers.Keys;
    while rest != {}
      invariant rest <= markers.Keys
      invariant forall k :: k in keys <==> k in markers && k !in rest
      invariant forall i, j :: 0 <= i < j < |keys| ==> keys[i] < keys[j]
      invariant forall i, k :: 0 <= i < |keys| && k in rest ==> keys[i] < k
      decreases |rest|
    {
      var least := Least(rest);
      keys := keys + [least];
      rest := rest - {least};
    }
  }

  method Least(s: set<nat>) returns (m: nat)
    requires s != {}
    ensures m in s && forall k :: k in s ==> m <= k
  {
    m :| m in s;
    var rest := s - {m};
    while rest != {}
      invariant rest <= s && m in s && forall k :: k in s && k !in rest ==> m <= k
      decreases |rest|
    {
      var k :| k in rest;
      rest := rest - {k};
      if k < m {
        m := k;
      }
    }
  }

  class FoldedBuffer {
    var markers: Markers

    constructor ()
      ensures markers == map[]
    {
      markers := map[];
    }

    method SetFoldMarker(offset: nat, marker: Option<Marker>)
      modifies this
      ensures marker.Some? ==> markers == old(markers)[offset := marker.value]
      ensures marker.None? ==> markers == old(markers) - {offset}
    {
      markers := if marker.Some? then markers[offset := marker.value] else markers - {offset};
    }

    method FoldedLineRanges(text: string, blocks: seq<Range>) returns (ranges: seq<Range>)
      requires StrictlySorted(blocks) && InText(text, blocks)
      ensures ranges == HiddenRanges(text, markers, blocks)
    {
      ranges := [];
      if markers == map[] || blocks == [] {
        NothingMarked(text, markers, blocks);
        return;
      }
      var keys := SortedKeys(markers);
      ghost var walked: nat := 0;
      FirstKey(markers, blocks, keys);
      for i := 0 to |keys|
        invariant WalkedTo(markers, blocks, keys, i, walked)
        invariant ranges == HiddenRanges(text, markers, blocks[..walked])
      {
        var k, found := FindBlock(blocks, keys[i]);
        KeyStep(text, markers, blocks, keys, i, walked, k, found);
        walked := if found then k + 1 else k;
        if markers[keys[i]] != Collapsed || !found {
          continue;
        }
        var startLine, endLine := LineOf(text, blocks[k].start), LineOf(text, blocks[k].end);
        if endLine <= startLine {
          continue;
        }
        ranges := ranges + [Range(startLine + 1, endLine + 1)];
      }
      UnmarkedHideNothing(text, markers, blocks, walked, |blocks|);
      assert blocks[..|blocks|] == blocks;
    }

    method ToggleFoldAtLine(text: string, blocks: seq<Range>, line: nat) returns (toggled: bool)
      requires InText(text, blocks)
      modifies this
      ensures toggled <==> exists i :: 0 <= i < |blocks| && OpensAt(text, blocks[i], line)
      ensures !toggled ==> markers == old(markers)
      ensures toggled ==>
        exists i: nat :: Outermost(text, blocks, line, i) && markers == Toggled(old(markers), blocks[i].start)
    {
      var best: Option<nat> := None;
      for i := 0 to |blocks|
        invariant best.None? ==> forall j :: 0 <= j < i ==> !OpensAt(text, blocks[j], line)
        invariant best.Some? ==> best.value < i && Outermost(text, blocks[..i], line, best.value)
      {
        if LineOf(text, blocks[i].start) != line {
          continue;
        }
        if LineOf(text, blocks[i].end) <= line {
          continue;
        }
        if best.None? || Size(blocks[i]) > Size(blocks[best.value]) {
          best := Some(i);
        }
      }
      if best.None? {
        return false;
      }
      assert blocks[..|blocks|] == blocks;
      var start := blocks[best.value].start;
      var collapsed := start in markers;
      SetFoldMarker(start, if collapsed then None else Some(Collapsed));
      return true;
    }
  }

  /** A block of more than one line whose header is `line`. */
  predicate OpensAt(text: string, b: Range, line: nat)
    requires b.start <= |text| && b.end <= |text|
  {
    LineOf(text, b.start) == line && LineOf(text, b.end) > line
  }

  function Size(b: Range): int {
    b.end - b.start
  }

  /** The first of the largest blocks that open at `line`. */
  ghost predicate Outermost(text: string, blocks: seq<Range>, line: nat, i: nat)
    requires InText(text, blocks)
  {
    && i < |blocks| && OpensAt(text, blocks[i], line)
    && (forall j :: 0 <= j < |blocks| && OpensAt(text, blocks[j], line) ==> Size(blocks[j]) <= Size(blocks[i]))
    && (forall j :: 0 <= j < i && OpensAt(text, blocks[j], line) ==> Size(blocks[j]) < Size(blocks[i]))
  }

  function Toggled(markers: Markers, start: nat): Markers {
    if start in markers then markers - {start} else markers[start := Collapsed]
  }

  lemma {:induction false} NothingMarked(text: string, markers: Markers, blocks: seq<Range>)
    requires InText(text, blocks) && (markers == map[] || blocks == [])
    ensures HiddenRanges(text, markers, blocks) == []
  {
    if blocks != [] {
      NothingMarked(text, markers, blocks[..|blocks| - 1]);
    }
  }

  /** Blocks without a marker add nothing. */
  lemma {:induction false} UnmarkedHideNothing(text: string, markers: Markers, blocks: seq<Range>, from: nat, to: nat)
    requires InText(text, blocks) && from <= to <= |blocks|
    requires forall j :: from <= j < to ==> blocks[j].start !in markers
    ensures HiddenRanges(text, markers, blocks[..to]) == HiddenRanges(text, markers, blocks[..from])
  {
    if from < to {
      assert blocks[..to][..to - 1] == blocks[..to - 1];
      UnmarkedHideNothing(text, markers, blocks, from, to - 1);
    }
  }

  /** The first `walked` blocks lie below the keys from `i` on, and those keys cover every marked block after them. */
  ghost predicate WalkedTo(markers: Markers, blocks: seq<Range>, keys: seq<nat>, i: nat, walked: nat) {
    && walked <= |blocks| && i <= |keys|
    && (i < |keys| ==> forall j :: 0 <= j < walked ==> blocks[j].start < keys[i])
    && forall j :: walked <= j < |blocks| && blocks[j].start in markers ==> i < |keys| && keys[i] <= blocks[j].start
  }

  ghost predicate AreKeys(markers: Markers, keys: seq<nat>) {
    && (forall i, j :: 0 <= i < j < |keys| ==> keys[i] < keys[j])
    && forall k :: k in keys <==> k in markers
  }

  lemma FirstKey(markers: Markers, blocks: seq<Range>, keys: seq<nat>)
    requires AreKeys(markers, keys)
    ensures WalkedTo(markers, blocks, keys, 0, 0)
  {
    forall j | 0 <= j < |blocks| && blocks[j].start in markers ensures 0 < |keys| && keys[0] <= blocks[j].start {
      var x := KeyAt(markers, keys, blocks[j].start);
    }
  }

  lemma KeyAt(markers: Markers, keys: seq<nat>, key: nat) returns (x: nat)
    requires AreKeys(markers, keys) && key in markers
    ensures x < |keys| && keys[x] == key && forall i :: 0 <= i <= x ==> keys[i] <= key
  {
    assert key in keys;
    x :| x < |keys| && keys[x] == key;
  }

  /** One key of the map: what the blocks up to it hide. */
  lemma KeyStep(text: string, markers: Markers, blocks: seq<Range>, keys: seq<nat>, i: nat, walked: nat, k: nat,
                found: bool)
    requires StrictlySorted(blocks) && InText(text, blocks) && AreKeys(markers, keys)
    requires i < |keys| && WalkedTo(markers, blocks, keys, i, walked)
    requires k <= |blocks| && (found <==> k < |blocks| && blocks[k].start == keys[i])
    requires forall j :: 0 <= j < k ==> blocks[j].start < keys[i]
    requires forall j :: k <= j < |blocks| ==> keys[i] <= blocks[j].start
    ensures WalkedTo(markers, blocks, keys, i + 1, if found then k + 1 else k)
    ensures HiddenRanges(text, markers, blocks[..if found then k + 1 else k]) ==
            if found && HidesLines(text, markers, blocks[k])
            then HiddenRanges(text, markers, blocks[..walked]) + [HiddenRange(text, blocks[k])]
            else HiddenRanges(text, markers, blocks[..walked])
  {
    assert walked <= k;
    UnmarkedHideNothing(text, markers, blocks, walked, k);
    if found {
      assert blocks[..k + 1][..k] == blocks[..k];
    }
    var past := if found then k + 1 else k;
    forall j | past <= j < |blocks| && blocks[j].start in markers
      ensures i + 1 < |keys| && keys[i + 1] <= blocks[j].start
    {
      var x := KeyAt(markers, keys, blocks[j].start);
      assert keys[i] < blocks[j].start;
    }
  }

  // ---- what toggling does ----

  /** Markers that are no block's start hide nothing. */
  lemma {:induction false} StaleMarkersHideNothing(text: string, markers: Markers, blocks: seq<Range>, stale: set<nat>)
    requires InText(text, blocks) && forall i :: 0 <= i < |blocks| ==> blocks[i].start !in stale
    ensures HiddenRanges(text, markers - stale, blocks) == HiddenRanges(text, markers, blocks)
  {
    if blocks != [] {
      StaleMarkersHideNothing(text, markers, blocks[..|blocks| - 1], stale);
      assert blocks[|blocks| - 1].start !in stale;
    }
  }

  /**
   Toggling an unmarked header adds exactly one hidden range, at the block's place among the others: from
   the line after the header through the line of the block's last byte.
   */
  lemma TogglingHides(text: string, source: seq<Range>, blocks: seq<Range>, markers: Markers, line: nat, i: nat)
    requires Normalized(text, source, blocks) && InText(text, blocks)
    requires Outermost(text, blocks, line, i) && blocks[i].start !in markers
    ensures HiddenRanges(text, Toggled(markers, blocks[i].start), blocks) ==
            HiddenRanges(text, markers, blocks[..i]) + [Range(line + 1, LineOf(text, blocks[i].end - 1) + 1)]
            + HiddenRanges(text, markers, blocks[i + 1..])
    ensures HiddenRanges(text, markers, blocks) ==
            HiddenRanges(text, markers, blocks[..i]) + HiddenRanges(text, markers, blocks[i + 1..])
    ensures line < LineOf(text, blocks[i].end - 1)
  {
    var toggled := Toggled(markers, blocks[i].start);
    EndsOnItsLastLine(text, source, blocks, i);
    HiddenSplits(text, markers, blocks, i);
    HiddenSplits(text, toggled, blocks, i);
    OtherMarkersSame(text, markers, toggled, blocks[..i], blocks[i].start);
    OtherMarkersSame(text, markers, toggled, blocks[i + 1..], blocks[i].start);
    NothingBetween(HiddenRanges(text, markers, blocks[..i]), HiddenRanges(text, markers, blocks[i + 1..]));
  }

  lemma NothingBetween(a: seq<Range>, b: seq<Range>)
    ensures a + [] + b == a + b
  {
  }

  /** A normalised block does not end in a line break, so its end lies on the line of its last byte. */
  lemma EndsOnItsLastLine(text: string, source: seq<Range>, blocks: seq<Range>, i: nat)
    requires Normalized(text, source, blocks) && i < |blocks|
    ensures 0 < blocks[i].end <= |text| && LineOf(text, blocks[i].end) == LineOf(text, blocks[i].end - 1)
  {
    assert blocks[i] in blocks;
    assert Innermost(text, source, blocks[i]);
    ShapedAgain(text, source, blocks[i]);
  }

  /** What the blocks hide, split at one of them. */
  lemma {:induction false} HiddenSplits(text: string, markers: Markers, blocks: seq<Range>, i: nat)
    requires InText(text, blocks) && i < |blocks|
    ensures HiddenRanges(text, markers, blocks) ==
            HiddenRanges(text, markers, blocks[..i])
            + (if HidesLines(text, markers, blocks[i]) then [HiddenRange(text, blocks[i])] else [])
            + HiddenRanges(text, markers, blocks[i + 1..])
    decreases |blocks|
  {
    var front := blocks[..|blocks| - 1];
    if i == |blocks| - 1 {
      assert blocks[i + 1..] == [] && blocks[..i] == front;
    } else {
      HiddenSplits(text, markers, front, i);
      assert front[..i] == blocks[..i];
      assert blocks[i + 1..][..|blocks[i + 1..]| - 1] == front[i + 1..];
    }
  }

  lemma {:induction false} OtherMarkersSame(text: string, markers: Markers, markers': Markers, blocks: seq<Range>,
                                            start: nat)
    requires InText(text, blocks) && forall i :: 0 <= i < |blocks| ==> blocks[i].start != start
    requires forall k :: k != start ==>
      (k in markers <==> k in markers') && (k in markers ==> markers[k] == markers'[k])
    ensures HiddenRanges(text, markers', blocks) == HiddenRanges(text, markers, blocks)
  {
    if blocks != [] {
      OtherMarkersSame(text, markers, markers', blocks[..|blocks| - 1], start);
    }
  }

  /** Toggling a line again restores the markers exactly when the first toggle did not meet Org's other marker. */
  lemma TogglingTwiceRestores(markers: Markers, start: nat)
    ensures Toggled(Toggled(markers, start), start) == markers <==> (start in markers ==> markers[start].Collapsed?)
  {
    var twice := Toggled(Toggled(markers, start), start);
    if start in markers {
      assert twice[start] == Collapsed;
      assert forall k :: k in twice <==> k in markers;
    } else {
      assert twice == markers;
    }
  }

  /** Which block a toggle acts on depends on the text alone, so the second toggle acts on the first one's. */
  lemma OutermostIsUnique(text: string, blocks: seq<Range>, line: nat, i: nat, j: nat)
    requires InText(text, blocks) && Outermost(text, blocks, line, i) && Outermost(text, blocks, line, j)
    ensures i == j
  {
  }

  // ---- on the text ----

  lemma {:induction false} LineCountsBreaks(text: string, offset: nat)
    requires offset <= |text|
    ensures LineOf(text, offset) == multiset(text[..offset])['\n']
  {
    if offset > 0 {
      LineCountsBreaks(text, offset - 1);
      assert text[..offset] == text[..offset - 1] + [text[offset - 1]];
    } else {
      assert text[..0] == "";
    }
  }

  lemma LinesBetween(text: string, start: nat, end: nat)
    requires start <= end <= |text|
    ensures LineOf(text, end) == LineOf(text, start) + multiset(text[start..end])['\n']
  {
    LineCountsBreaks(text, start);
    LineCountsBreaks(text, end);
    assert text[..end] == text[..start] + text[start..end];
  }

  /** A block hides lines if and only if its marker is a collapsed one and there is a line break in it. */
  lemma HidesMeans(text: string, markers: Markers, b: Range)
    requires b.start <= b.end <= |text|
    ensures HidesLines(text, markers, b) <==>
      b.start in markers && markers[b.start] == Collapsed && '\n' in text[b.start..b.end]
  {
    LinesBetween(text, b.start, b.end);
  }

  /** As many lines as the block has line breaks, from the one below the line it starts in. */
  lemma HiddenRangeMeans(text: string, b: Range)
    requires b.start <= b.end <= |text|
    ensures HiddenRange(text, b).start == multiset(text[..b.start])['\n'] + 1
    ensures HiddenRange(text, b).end - HiddenRange(text, b).start == multiset(text[b.start..b.end])['\n']
  {
    LineCountsBreaks(text, b.start);
    LinesBetween(text, b.start, b.end);
  }

  /** Markers of the other kind hide nothing, whatever the blocks. */
  lemma {:induction false} OtherMarkersHideNothing(text: string, markers: Markers, blocks: seq<Range>)
    requires InText(text, blocks) && forall k <- markers :: markers[k] == ChildrenVisible
    ensures HiddenRanges(text, markers, blocks) == []
  {
    if blocks != [] {
      OtherMarkersHideNothing(text, markers, blocks[..|blocks| - 1]);
    }
  }

  /** It starts in the line, and has a line break in it. */
  predicate StartsIn(text: string, b: Range, line: nat) {
    b.start < b.end <= |text| && multiset(text[..b.start])['\n'] == line && '\n' in text[b.start..b.end]
  }

  lemma StartsInMeans(text: string, b: Range, line: nat)
    requires b.start <= |text| && b.end <= |text|
    ensures OpensAt(text, b, line) <==> StartsIn(text, b, line)
  {
    LineCountsBreaks(text, b.start);
    if b.start <= b.end {
      LinesBetween(text, b.start, b.end);
    } else {
      LinesBetween(text, b.end, b.start);
    }
  }

  /** A toggle acts on a block with the most bytes among those that start in the line, and on the first of them. */
  lemma OutermostMeans(text: string, blocks: seq<Range>, line: nat, i: nat)
    requires InText(text, blocks) && i < |blocks|
    ensures Outermost(text, blocks, line, i) <==>
      && StartsIn(text, blocks[i], line)
      && forall j :: 0 <= j < |blocks| && StartsIn(text, blocks[j], line) ==>
           var more := blocks[i].end - blocks[i].start - (blocks[j].end - blocks[j].start);
           more > 0 || (more == 0 && i <= j)
  {
    forall j | 0 <= j < |blocks| ensures OpensAt(text, blocks[j], line) <==> StartsIn(text, blocks[j], line) {
      StartsInMeans(text, blocks[j], line);
    }
  }

  /** It takes a marker of either kind away, or puts a collapsed one where there is none; no other changes. */
  lemma ToggledMeans(markers: Markers, start: nat)
    ensures start in markers ==> Toggled(markers, start).Keys == markers.Keys - {start}
    ensures start !in markers ==>
      Toggled(markers, start).Keys == markers.Keys + {start} && Toggled(markers, start)[start] == Collapsed
    ensures forall k <- markers :: k != start ==>
      k in Toggled(markers, start) && Toggled(markers, start)[k] == markers[k]
  {
  }
}
