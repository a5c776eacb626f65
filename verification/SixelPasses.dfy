/**
 How much the sixel emitter sends (Tools/TerminalImageAlphaProbe.cpp:307-334): as many bands as cover the image, and
 in each one pass for every slot with a pixel in it.
 */
module SixelPasses {
  import opened SixelPalette
  import opened SixelText
  import opened Sixel

  /** The terminal moves down once for every six rows begun. */
  lemma BandsAreCounted(palette: seq<Rgb>, g: Grid)
    requires |g.slots| == g.w * g.h
    ensures g.h <= 6 * multiset(Items(palette, g))[NextBand] < g.h + 6
  {
    NoneInDefinitions(palette, |palette|, NextBand);
    BandsEnd(g, |palette|, BandCount(g.h));
  }

  lemma {:induction false} NoneInDefinitions(palette: seq<Rgb>, n: nat, item: Item)
    requires n <= |palette| && !item.Define?
    ensures item !in Definitions(palette, n)
  {
    if n > 0 {
      NoneInDefinitions(palette, n - 1, item);
    }
  }

  /** How often the terminal moves down in the first `n` bands. */
  function Ends(g: Grid, slots: nat, n: nat): nat
    requires |g.slots| == g.w * g.h
  {
    multiset(Bands(g, slots, n))[NextBand]
  }

  lemma {:induction false} BandsEnd(g: Grid, slots: nat, n: nat)
    requires |g.slots| == g.w * g.h
    ensures Ends(g, slots, n) == n
  {
    if n > 0 {
      BandsEnd(g, slots, n - 1);
      NextEnd(g, slots, n - 1);
    }
  }

  lemma NextEnd(g: Grid, slots: nat, n: nat)
    requires |g.slots| == g.w * g.h
    ensures Ends(g, slots, n + 1) == Ends(g, slots, n) + 1
  {
    NoneInBand(g, n, slots);
    OneEnd(Bands(g, slots, n), BandItems(g, n, slots));
  }

  lemma OneEnd(before: seq<Item>, band: seq<Item>)
    requires NextBand !in band
    ensures multiset(before + band + [NextBand])[NextBand] == multiset(before)[NextBand] + 1
  {
  }

  lemma {:induction false} NoneInBand(g: Grid, band: nat, n: nat)
    requires |g.slots| == g.w * g.h
    ensures NextBand !in BandItems(g, band, n)
  {
    if n > 0 {
      NoneInBand(g, band, n - 1);
      OnlyColumns(g, band, n - 1, g.w, NextBand);
    }
  }

  lemma {:induction false} OnlyColumns(g: Grid, band: nat, i: nat, n: nat, item: Item)
    requires |g.slots| == g.w * g.h && n <= g.w && !item.Column?
    ensures item !in RowItems(g, band, i, n)
  {
    if n > 0 {
      OnlyColumns(g, band, i, n - 1, item);
    }
  }

  /** The pixel in column `x` of the band's row `r` is there, and has slot `i`. */
  predicate HasSlot(g: Grid, band: nat, x: nat, r: nat, i: nat) {
    var y := 6 * band + r;
    x < g.w && y < g.h && 0 <= y * g.w + x < |g.slots| && g.slots[y * g.w + x] == i
  }

  predicate HasPixel(g: Grid, band: nat, i: nat) {
    exists x, r :: 0 <= x < g.w && 0 <= r < 6 && HasSlot(g, band, x, r, i)
  }

  /** How often the band selects slot `i` in the passes of its first `n` slots. */
  function Passes(g: Grid, band: nat, n: nat, i: nat): nat
    requires |g.slots| == g.w * g.h
  {
    multiset(BandItems(g, band, n))[Select(i)]
  }

  /** A slot is selected once in every band where it has a pixel, and in no other. */
  lemma {:induction false} PassesAreNeeded(g: Grid, band: nat, n: nat, i: nat)
    requires |g.slots| == g.w * g.h
    ensures Passes(g, band, n, i) == if i < n && HasPixel(g, band, i) then 1 else 0
  {
    if n > 0 {
      PassesAreNeeded(g, band, n - 1, i);
      OccursMeans(g, band, n - 1);
      NextPass(g, band, n - 1, i);
    }
  }

  lemma NextPass(g: Grid, band: nat, n: nat, i: nat)
    requires |g.slots| == g.w * g.h
    ensures Passes(g, band, n + 1, i) == Passes(g, band, n, i) + if Occurs(g, band, n, g.w) && n == i then 1 else 0
  {
    OnlyColumns(g, band, n, g.w, Select(i));
    OnePass(BandItems(g, band, n), Select(n), RowItems(g, band, n, g.w), Select(i));
  }

  lemma OnePass(before: seq<Item>, select: Item, row: seq<Item>, item: Item)
    requires item !in row && item != Return
    ensures multiset(before + (if before == [] then [] else [Return]) + [select] + row)[item] ==
      multiset(before)[item] + if select == item then 1 else 0
  {
  }

  lemma OccursMeans(g: Grid, band: nat, i: nat)
    requires |g.slots| == g.w * g.h
    ensures Occurs(g, band, i, g.w) <==> HasPixel(g, band, i)
  {
    OccursTo(g, band, i, g.w);
    forall x: nat, r: nat | x < g.w && r < 6 ensures Sets(g, band, i, x, r) <==> HasSlot(g, band, x, r, i) {
      SetsMeans(g, band, i, x, r);
    }
  }

  lemma SetsMeans(g: Grid, band: nat, i: nat, x: nat, r: nat)
    requires |g.slots| == g.w * g.h && x < g.w
    ensures Sets(g, band, i, x, r) <==> HasSlot(g, band, x, r, i)
  {
    if band * 6 + r < g.h {
      g.Inside(x, band * 6 + r);
    }
  }

  lemma {:induction false} OccursTo(g: Grid, band: nat, i: nat, n: nat)
    requires |g.slots| == g.w * g.h && n <= g.w
    ensures Occurs(g, band, i, n) <==> exists x: nat, r: nat :: x < n && r < 6 && Sets(g, band, i, x, r)
  {
    if n > 0 {
      OccursTo(g, band, i, n - 1);
      DotsMean(g, band, i, n - 1, 6);
    }
  }

  lemma {:induction false} DotsMean(g: Grid, band: nat, i: nat, x: nat, n: nat)
    requires |g.slots| == g.w * g.h && x < g.w && n <= 6
    ensures ColumnDots(g, band, i, x, n) != 0 <==> exists r: nat :: r < n && Sets(g, band, i, x, r)
  {
    if n > 0 {
      DotsMean(g, band, i, x, n - 1);
    }
  }
}
