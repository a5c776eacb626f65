/**
 The sixel emitter (Tools/TerminalImageAlphaProbe.cpp:305-335): palette definitions, then bands of six
 rows, one pass per palette slot that occurs in the band.
 */
module Sixel {
  import opened Common
  import opened Decimal
  import opened Png
  import opened SixelPalette
  import opened SixelText

  /** The slot of every pixel, row by row; -1 where nothing is painted. */
  datatype Grid = Grid(w: nat, h: nat, slots: seq<int>) {
    ghost predicate Valid(n: nat) {
      |slots| == w * h && forall k :: 0 <= k < |slots| ==> -1 <= slots[k] < n
    }

    function At(x: nat, y: nat): int
      requires |slots| == w * h && x < w && y < h
    {
      Inside(x, y);
      slots[y * w + x]
    }

    lemma Inside(x: nat, y: nat)
      requires x < w && y < h
      ensures 0 <= y * w + x < w * h
    {
      assert (y + 1) * w <= h * w;
    }
  }

  // ---- what is written ----

  predicate Sets(g: Grid, band: nat, i: nat, x: nat, r: nat)
    requires |g.slots| == g.w * g.h && x < g.w
  {
    band * 6 + r < g.h && g.At(x, band * 6 + r) == i
  }

  /** The dots slot `i` has among the first `n` rows of the band. */
  function ColumnDots(g: Grid, band: nat, i: nat, x: nat, n: nat): (d: nat)
    requires |g.slots| == g.w * g.h && x < g.w && n <= 6
  {
    if n == 0 then 0 else ColumnDots(g, band, i, x, n - 1) + if Sets(g, band, i, x, n - 1) then Weight(n - 1) else 0
  }

  lemma DotsInRange(g: Grid, band: nat, i: nat, x: nat)
    requires |g.slots| == g.w * g.h && x < g.w
    ensures ColumnDots(g, band, i, x, 6) < 64
    ensures forall r: nat | r < 6 :: Bit(ColumnDots(g, band, i, x, 6), r) <==> Sets(g, band, i, x, r)
  {
    var bits := seq(6, r requires 0 <= r < 6 => Sets(g, band, i, x, r));
    DotsOfBits(g, band, i, x, bits);
    BitsOfSix(bits);
  }

  lemma DotsOfBits(g: Grid, band: nat, i: nat, x: nat, bits: seq<bool>)
    requires |g.slots| == g.w * g.h && x < g.w && |bits| == 6
    requires forall r :: 0 <= r < 6 ==> bits[r] == Sets(g, band, i, x, r)
    ensures ColumnDots(g, band, i, x, 6) == Six(bits)
  {
    DotsOfThree(g, band, i, x, bits, 0);
    DotsOfThree(g, band, i, x, bits, 3);
    DotsAreSix(g, band, i, x, 0);
  }

  lemma DotsOfThree(g: Grid, band: nat, i: nat, x: nat, bits: seq<bool>, n: nat)
    requires |g.slots| == g.w * g.h && x < g.w && |bits| == 6 && n <= 3
    requires forall r :: 0 <= r < 6 ==> bits[r] == Sets(g, band, i, x, r)
    ensures ColumnDots(g, band, i, x, n + 3) == ColumnDots(g, band, i, x, n)
      + Weight(n) * One(bits[n]) + Weight(n + 1) * One(bits[n + 1]) + Weight(n + 2) * One(bits[n + 2])
  {
    DotsAreSix(g, band, i, x, n + 1);
    DotsAreSix(g, band, i, x, n + 2);
    DotsAreSix(g, band, i, x, n + 3);
  }

  /** One unfolding. */
  lemma DotsAreSix(g: Grid, band: nat, i: nat, x: nat, n: nat)
    requires |g.slots| == g.w * g.h && x < g.w && n <= 6
    ensures ColumnDots(g, band, i, x, n) ==
      if n == 0 then 0 else ColumnDots(g, band, i, x, n - 1) + if Sets(g, band, i, x, n - 1) then Weight(n - 1) else 0
  {
  }

  function One(b: bool): nat {
    if b then 1 else 0
  }

  function Six(b: seq<bool>): nat
    requires |b| == 6
  {
    One(b[0]) + 2 * One(b[1]) + 4 * One(b[2]) + 8 * One(b[3]) + 16 * One(b[4]) + 32 * One(b[5])
  }

  lemma BitsOfSix(b: seq<bool>)
    requires |b| == 6
    ensures Six(b) < 64
    ensures forall r: nat | r < 6 :: Bit(Six(b), r) <==> b[r]
  {
    var d := Six(b);
    assert d / 2 == One(b[1]) + 2 * One(b[2]) + 4 * One(b[3]) + 8 * One(b[4]) + 16 * One(b[5]);
    assert d / 4 == One(b[2]) + 2 * One(b[3]) + 4 * One(b[4]) + 8 * One(b[5]);
    assert d / 8 == One(b[3]) + 2 * One(b[4]) + 4 * One(b[5]);
    assert d / 16 == One(b[4]) + 2 * One(b[5]);
    assert d / 32 == One(b[5]);
  }

  function Dotted(g: Grid, band: nat, i: nat, x: nat): Dots
    requires |g.slots| == g.w * g.h && x < g.w
  {
    DotsInRange(g, band, i, x);
    ColumnDots(g, band, i, x, 6)
  }

  /** The first `n` columns of slot `i`'s row. */
  function RowItems(g: Grid, band: nat, i: nat, n: nat): seq<Item>
    requires |g.slots| == g.w * g.h && n <= g.w
  {
    if n == 0 then [] else RowItems(g, band, i, n - 1) + [Column(Dotted(g, band, i, n - 1))]
  }

  predicate Occurs(g: Grid, band: nat, i: nat, n: nat)
    requires |g.slots| == g.w * g.h && n <= g.w
  {
    n > 0 && (Occurs(g, band, i, n - 1) || Dotted(g, band, i, n - 1) != 0)
  }

  /** The passes of the first `n` slots over one band. */
  function BandItems(g: Grid, band: nat, n: nat): seq<Item>
    requires |g.slots| == g.w * g.h
  {
    if n == 0 then []
    else
      var before := BandItems(g, band, n - 1);
      if !Occurs(g, band, n - 1, g.w) then before
      else before + (if before == [] then [] else [Return]) + [Select(n - 1)] + RowItems(g, band, n - 1, g.w)
  }

  function Bands(g: Grid, slots: nat, n: nat): seq<Item>
    requires |g.slots| == g.w * g.h
  {
    if n == 0 then [] else Bands(g, slots, n - 1) + BandItems(g, n - 1, slots) + [NextBand]
  }

  function BandCount(h: nat): nat {
    (h + 5) / 6
  }

  function Definitions(palette: seq<Rgb>, n: nat): seq<Item>
    requires n <= |palette|
  {
    if n == 0 then []
    else
      var c := Percent(palette[n - 1]);
      Definitions(palette, n - 1) + [Define(n - 1, c.r, c.g, c.b)]
  }

  function Items(palette: seq<Rgb>, g: Grid): seq<Item>
    requires |g.slots| == g.w * g.h
  {
    Definitions(palette, |palette|) + Bands(g, |palette|, BandCount(g.h))
  }

  /** Device control: aspect ratio parameters with unpainted dots left alone, then the raster attributes. */
  function Introducer(w: nat, h: nat): string {
    [ESC] + "P0;1;0q\"" + PrintParams([1, 1, w, h])
  }

  function SixelOf(palette: seq<Rgb>, g: Grid): string
    requires |g.slots| == g.w * g.h
  {
    Introducer(g.w, g.h) + (PrintItems(Items(palette, g)) + TERMINATOR)
  }

  // ---- the program ----

  method WriteColumn(g: Grid, band: nat, i: nat, x: nat) returns (bits: nat)
    requires |g.slots| == g.w * g.h && x < g.w
    ensures bits == Dotted(g, band, i, x)
  {
    bits := 0;
    for r := 0 to 6
      invariant bits == ColumnDots(g, band, i, x, r)
    {
      if band * 6 + r < g.h && g.At(x, band * 6 + r) == i {
        bits := bits + Weight(r);
      }
    }
  }

  method WriteRow(g: Grid, band: nat, i: nat) returns (row: string, any: bool)
    requires |g.slots| == g.w * g.h
    ensures row == PrintItems(RowItems(g, band, i, g.w)) && any == Occurs(g, band, i, g.w)
  {
    row, any := "", false;
    for x := 0 to g.w
      invariant row == PrintItems(RowItems(g, band, i, x)) && any == Occurs(g, band, i, x)
    {
      var bits := WriteColumn(g, band, i, x);
      any := any || bits != 0;
      PrintAfter(RowItems(g, band, i, x), Column(bits));
      row := row + [DataChar(bits)];
    }
  }

  lemma PrintAfter(items: seq<Item>, item: Item)
    ensures PrintItems(items + [item]) == PrintItems(items) + PrintItem(item)
  {
    PrintAppends(items, [item]);
    PrintOne(item);
  }

  method WriteBand(g: Grid, band: nat, slots: nat) returns (out: string)
    requires |g.slots| == g.w * g.h
    ensures out == PrintItems(BandItems(g, band, slots))
  {
    out := "";
    var wroteColour := false;
    for i := 0 to slots
      invariant out == PrintItems(BandItems(g, band, i)) && wroteColour == (BandItems(g, band, i) != [])
    {
      var row, any := WriteRow(g, band, i);
      if any {
        PrintPass(BandItems(g, band, i), wroteColour, i, RowItems(g, band, i, g.w));
        if wroteColour {
          out := out + "$";
        }
        out := out + ("#" + Print(i) + row);
        wroteColour := true;
      }
    }
  }

  lemma PrintPass(before: seq<Item>, wroteColour: bool, i: nat, row: seq<Item>)
    ensures PrintItems(before + (if wroteColour then [Return] else []) + [Select(i)] + row) ==
            PrintItems(before) + (if wroteColour then "$" else "") + ("#" + Print(i) + PrintItems(row))
  {
    var upto := before + (if wroteColour then [Return] else []);
    PrintReturn(before, wroteColour);
    PrintAfter(upto, Select(i));
    PrintAppends(upto + [Select(i)], row);
    SixelText.Regroup(PrintItems(upto), PrintItem(Select(i)), PrintItems(row));
    PrintSelect(i);
  }

  lemma PrintReturn(before: seq<Item>, wroteColour: bool)
    ensures PrintItems(before + if wroteColour then [Return] else []) ==
      PrintItems(before) + if wroteColour then "$" else ""
  {
    PrintAfter(before, Return);
    assert before + [] == before;
  }

  lemma PrintSelect(i: nat)
    ensures PrintItem(Select(i)) == "#" + Print(i)
  {
  }

  method WriteSixel(palette: seq<Rgb>, g: Grid) returns (out: string)
    requires |g.slots| == g.w * g.h
    ensures out == SixelOf(palette, g)
  {
    var definitions := "";
    for i := 0 to |palette|
      invariant definitions == PrintItems(Definitions(palette, i))
    {
      var c := Percent(palette[i]);
      PrintAfter(Definitions(palette, i), Define(i, c.r, c.g, c.b));
      definitions := definitions + PrintItem(Define(i, c.r, c.g, c.b));
    }
    var bands := "";
    var band := 0;
    while band * 6 < g.h
      invariant 0 <= band <= BandCount(g.h) && bands == PrintItems(Bands(g, |palette|, band))
      decreases BandCount(g.h) - band
    {
      var text := WriteBand(g, band, |palette|);
      PrintAppends(Bands(g, |palette|, band), BandItems(g, band, |palette|));
      PrintAfter(Bands(g, |palette|, band) + BandItems(g, band, |palette|), NextBand);
      bands := bands + text + "-";
      band := band + 1;
    }
    PrintAppends(Definitions(palette, |palette|), Bands(g, |palette|, band));
    out := Introducer(g.w, g.h) + (definitions + bands + TERMINATOR);
  }

  method EmitSixel(img: Image) returns (out: string)
    requires img.Valid()
    ensures exists slots ::
      AllPlaced(img, Pixels(img), slots, Slots(img, Pixels(img))) &&
      out == SixelOf(Slots(img, Pixels(img)), Grid(img.w, img.h, slots))
  {
    var palette, slots := BuildPalette(img);
    out := WriteSixel(palette, Grid(img.w, img.h, slots));
  }
}
