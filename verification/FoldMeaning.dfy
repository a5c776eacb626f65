/**
 What NormalizeFoldBlocks leaves, on the characters of the text (Source/Editor/CodeFold.cpp:25-64).
 */
module FoldMeaning {
  import opened Common
  import opened FoldBlocks

  /** The six characters that are whitespace. */
  predicate Blank(c: char) {
    c == ' ' || c == '\t' || c == '\n' || c as int == 11 || c as int == 12 || c == '\r'
  }

  /** `to` is `from` cut to the text, and its end pulled back over whitespace to a character or to its start. */
  predicate Shapes(text: string, from: Range, to: Range) {
    var top := if from.end <= |text| then from.end else |text|;
    && to.start == (if from.start <= |text| then from.start else |text|)
    && to.end <= top && (forall k :: to.end <= k < top ==> Blank(text[k]))
    && (if to.start < top then to.start <= to.end && (to.start < to.end ==> !Blank(text[to.end - 1]))
        else to.end == top)
  }

  /** `b` holds a line break. */
  predicate Fold(text: string, b: Range) {
    b.start < b.end <= |text| && '\n' in text[b.start..b.end]
  }

  ghost predicate OfBlock(text: string, blocks: seq<Range>, b: Range) {
    exists i :: 0 <= i < |blocks| && Shapes(text, blocks[i], b)
  }

  /**
   The result is sorted, and a block is in it if and only if it is a source block cut and pulled back, holds a line
   break, and is the shortest such block with its start.
   */
  lemma FoldsMean(text: string, blocks: seq<Range>, r: seq<Range>)
    ensures Normalized(text, blocks, r) <==>
      && (forall i, j :: 0 <= i < j < |r| ==> r[i].start < r[j].start)
      && (forall b :: b in r <==>
            && OfBlock(text, blocks, b) && Fold(text, b)
            && forall c :: OfBlock(text, blocks, c) && Fold(text, c) && c.start == b.start ==> b.end <= c.end)
  {
    forall b ensures Candidate(text, blocks, b) <==> OfBlock(text, blocks, b) && Fold(text, b) {
      CandidateMeans(text, blocks, b);
    }
  }

  lemma CandidateMeans(text: string, blocks: seq<Range>, b: Range)
    ensures Candidate(text, blocks, b) <==> OfBlock(text, blocks, b) && Fold(text, b)
  {
    forall i | 0 <= i < |blocks| ensures Shaped(text, blocks[i]) == b <==> Shapes(text, blocks[i], b) {
      ShapedMeans(text, blocks[i], b);
    }
    FoldIs(text, b);
  }

  lemma FoldIs(text: string, b: Range)
    ensures MultiLine(text, b) <==> Fold(text, b)
  {
    if MultiLine(text, b) {
      var k :| b.start <= k < b.end && text[k] == '\n';
      assert text[b.start..b.end][k - b.start] == '\n';
    }
  }

  lemma ShapedMeans(text: string, from: Range, to: Range)
    ensures Shaped(text, from) == to <==> Shapes(text, from, to)
  {
    var c := Clamp(text, from);
    if Shapes(text, from, to) && c.start < c.end {
      TrimEndIs(text, c.start, c.end, to.end);
    }
  }

  lemma {:induction false} TrimEndIs(text: string, start: nat, end: nat, e: nat)
    requires start <= e <= end <= |text| && (forall k :: e <= k < end ==> Blank(text[k]))
    requires start < e ==> !Blank(text[e - 1])
    ensures TrimEnd(text, start, end) == e
  {
    if e < end {
      TrimEndIs(text, start, end - 1, e);
    }
  }
}
