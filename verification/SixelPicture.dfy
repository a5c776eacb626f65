/**
 What a terminal shows for the emitter's output (Tools/TerminalImageAlphaProbe.cpp:267-335): every pixel
 with a slot in exactly its colour, every other pixel left as it was.
 */
module SixelPicture {
  import opened Common
  import opened Bytes
  import opened Png
  import opened SixelPalette
  import opened SixelText
  import opened Sixel

  datatype Picture = Picture(w: nat, h: nat, colours: map<nat, (nat, nat, nat)>, canvas: Canvas)

  const START: Pen := Pen(0, 0, 0, map[], map[])
  const LEAD: string := "\U{1b}P0;1;0q\""

  function ReadSixel(s: string): Option<Picture> {
    if !(LEAD <= s) then None
    else
      var (ns, rest) := TakeParams(s[|LEAD|..]);
      if |ns| != 4 || ns[0] != 1 || ns[1] != 1 then None
      else
        match ReadItems(rest)
        case None => None
        case Some(items) =>
          var pen := Paint(START, items);
          Some(Picture(ns[2], ns[3], pen.colours, pen.canvas))
  }

  lemma TextReadsBack(palette: seq<Rgb>, g: Grid)
    requires |g.slots| == g.w * g.h
    ensures var pen := Paint(START, Items(palette, g));
      ReadSixel(SixelOf(palette, g)) == Some(Picture(g.w, g.h, pen.colours, pen.canvas))
  {
    var body := PrintItems(Items(palette, g)) + TERMINATOR;
    Starts(Items(palette, g));
    ItemsReadBack(Items(palette, g));
    LeadReads(LEAD, [1, 1, g.w, g.h], body);
    IntroducerIs(g.w, g.h, body);
  }

  lemma IntroducerIs(w: nat, h: nat, body: string)
    ensures Introducer(w, h) + body == LEAD + PrintParams([1, 1, w, h]) + body
  {
    assert LEAD == [ESC] + "P0;1;0q\"";
  }

  lemma LeadReads(lead: string, ns: seq<nat>, body: string)
    requires ns != [] && Breaks(body)
    ensures var s := lead + PrintParams(ns) + body; lead <= s && TakeParams(s[|lead|..]) == (ns, body)
  {
    ParamsRead(ns, body);
    Behind(lead, PrintParams(ns), body);
  }

  // ---- the palette is defined ----

  function ColourMap(palette: seq<Rgb>, n: nat): map<nat, (nat, nat, nat)>
    requires n <= |palette|
  {
    map i: nat | i < n :: (Percent(palette[i]).r, Percent(palette[i]).g, Percent(palette[i]).b)
  }

  lemma ColourMapGrows(palette: seq<Rgb>, n: nat)
    requires 0 < n <= |palette|
    ensures var c := Percent(palette[n - 1]);
      ColourMap(palette, n) == ColourMap(palette, n - 1)[n - 1 := (c.r, c.g, c.b)]
  {
  }

  lemma {:induction false} DefinitionsDefine(palette: seq<Rgb>, n: nat)
    requires n <= |palette|
    ensures Paint(START, Definitions(palette, n)) == START.(colours := ColourMap(palette, n))
  {
    if n > 0 {
      DefinitionsDefine(palette, n - 1);
      var c := Percent(palette[n - 1]);
      var define := Define(n - 1, c.r, c.g, c.b);
      PaintAppends(START, Definitions(palette, n - 1), [define]);
      PaintOne(Paint(START, Definitions(palette, n - 1)), define);
      ColourMapGrows(palette, n);
    } else {
      assert ColourMap(palette, 0) == map[];
    }
  }

  // ---- the bands paint ----

  /** Pixel `p` is painted before column `x` of slot `i`'s pass over `band`. */
  predicate Before(g: Grid, p: (nat, nat), band: nat, i: nat, x: nat)
    requires |g.slots| == g.w * g.h
  {
    && p.0 < g.w && p.1 < g.h && g.At(p.0, p.1) >= 0
    && (p.1 / 6 < band || (p.1 / 6 == band && (g.At(p.0, p.1) < i || (g.At(p.0, p.1) == i && p.0 < x))))
  }

  predicate ShownAt(g: Grid, canvas: Canvas, band: nat, i: nat, x: nat, p: (nat, nat))
    requires |g.slots| == g.w * g.h
  {
    && (p in canvas <==> Before(g, p, band, i, x))
    && (p in canvas && p.0 < g.w && p.1 < g.h ==> canvas[p] == g.At(p.0, p.1))
  }

  /** The canvas holds exactly the pixels before that point, each in its own slot's colour. */
  ghost predicate Shown(g: Grid, canvas: Canvas, band: nat, i: nat, x: nat)
    requires |g.slots| == g.w * g.h
  {
    forall p :: ShownAt(g, canvas, band, i, x, p)
  }

  lemma ColumnShown(g: Grid, canvas: Canvas, band: nat, i: nat, x: nat)
    requires |g.slots| == g.w * g.h && x < g.w && Shown(g, canvas, band, i, x)
    ensures Shown(g, DotsUpTo(canvas, x, 6 * band, Dotted(g, band, i, x), i, 6), band, i, x + 1)
  {
    var bits := Dotted(g, band, i, x);
    var after := DotsUpTo(canvas, x, 6 * band, bits, i, 6);
    DotsInRange(g, band, i, x);
    var next := x + 1;
    forall p: (nat, nat) ensures ShownAt(g, after, band, i, next, p) {
      DotsPaint(canvas, x, 6 * band, bits, i, 6, p);
      assert ShownAt(g, canvas, band, i, x, p);
      if p.0 == x && 6 * band <= p.1 < 6 * band + 6 {
        InBand(p.1, band);
        assert Bit(bits, p.1 - 6 * band) <==> Sets(g, band, i, x, p.1 - 6 * band);
      } else {
        OutOfBand(p.1, band);
      }
    }
  }

  lemma InBand(y: nat, band: nat)
    requires 6 * band <= y < 6 * band + 6
    ensures y / 6 == band
  {
  }

  lemma OutOfBand(y: nat, band: nat)
    ensures y / 6 == band <==> 6 * band <= y < 6 * band + 6
  {
  }

  lemma {:induction false} RowShown(g: Grid, pen: Pen, i: nat, n: nat)
    requires |g.slots| == g.w * g.h && n <= g.w && pen.x == 0 && pen.colour == i && Shown(g, pen.canvas, pen.band, i, 0)
    ensures var after := Paint(pen, RowItems(g, pen.band, i, n));
      after == pen.(x := n, canvas := after.canvas) && Shown(g, after.canvas, pen.band, i, n)
  {
    if n > 0 {
      RowShown(g, pen, i, n - 1);
      var before := RowItems(g, pen.band, i, n - 1);
      var column := Column(Dotted(g, pen.band, i, n - 1));
      PaintAppends(pen, before, [column]);
      PaintOne(Paint(pen, before), column);
      ColumnShown(g, Paint(pen, before).canvas, pen.band, i, n - 1);
    }
  }

  /** A finished pass, and one left out because the slot does not occur, both lead to the next slot. */
  lemma PassShown(g: Grid, canvas: Canvas, band: nat, i: nat, x: nat)
    requires |g.slots| == g.w * g.h && Shown(g, canvas, band, i, x)
    requires x == g.w || (x == 0 && !Occurs(g, band, i, g.w))
    ensures Shown(g, canvas, band, i + 1, 0)
  {
    var next := i + 1;
    forall p: (nat, nat) ensures ShownAt(g, canvas, band, next, 0, p) {
      assert ShownAt(g, canvas, band, i, x, p);
      if x == 0 && p.0 < g.w && p.1 < g.h && p.1 / 6 == band && g.At(p.0, p.1) == i {
        MissesRow(g, band, i, g.w, p.0, p.1 - 6 * band);
      }
    }
  }

  lemma {:induction false} MissesRow(g: Grid, band: nat, i: nat, n: nat, x: nat, r: nat)
    requires |g.slots| == g.w * g.h && n <= g.w && !Occurs(g, band, i, n) && x < n && r < 6
    ensures !Sets(g, band, i, x, r)
  {
    if x < n - 1 {
      MissesRow(g, band, i, n - 1, x, r);
    } else {
      DotsInRange(g, band, i, x);
      assert !Bit(Dotted(g, band, i, x), r);
    }
  }

  lemma {:induction false} BandShown(g: Grid, pen: Pen, n: nat)
    requires |g.slots| == g.w * g.h && pen.x == 0 && Shown(g, pen.canvas, pen.band, 0, 0)
    ensures var items := BandItems(g, pen.band, n); var after := Paint(pen, items);
      && after == pen.(x := after.x, colour := after.colour, canvas := after.canvas)
      && (items == [] ==> after.x == 0)
      && Shown(g, after.canvas, pen.band, n, 0)
  {
    if n > 0 {
      BandShown(g, pen, n - 1);
      var before := BandItems(g, pen.band, n - 1);
      if Occurs(g, pen.band, n - 1, g.w) {
        SlotShown(g, pen, before, Paint(pen, before), n - 1);
      } else {
        PassShown(g, Paint(pen, before).canvas, pen.band, n - 1, 0);
      }
    }
  }

  /** One more pass, behind what has been shown of the band. */
  lemma SlotShown(g: Grid, pen: Pen, before: seq<Item>, now: Pen, i: nat)
    requires |g.slots| == g.w * g.h && now == Paint(pen, before) && (before == [] ==> pen.x == 0)
    requires Shown(g, now.canvas, now.band, i, 0)
    ensures
      var back := if before == [] then [] else [Return];
      var after := Paint(pen, before + back + [Select(i)] + RowItems(g, now.band, i, g.w));
      && after == now.(x := after.x, colour := after.colour, canvas := after.canvas)
      && Shown(g, after.canvas, now.band, i + 1, 0)
  {
    var row := RowItems(g, now.band, i, g.w);
    Selected(pen, before, i, row);
    RowShown(g, now.(x := 0, colour := i), i, g.w);
    PassShown(g, Paint(now.(x := 0, colour := i), row).canvas, now.band, i, g.w);
  }

  lemma Selected(pen: Pen, before: seq<Item>, i: nat, row: seq<Item>)
    requires before == [] ==> pen.x == 0
    ensures Paint(pen, before + (if before == [] then [] else [Return]) + [Select(i)] + row)
         == Paint(Paint(pen, before).(x := 0, colour := i), row)
  {
    var now := Paint(pen, before);
    var back := if before == [] then [] else [Return];
    PaintAppends(pen, before, back);
    PaintOne(now, Return);
    PaintAppends(pen, before + back, [Select(i)]);
    PaintOne(now.(x := 0), Select(i));
    PaintAppends(pen, before + back + [Select(i)], row);
  }

  lemma {:induction false} BandsShown(g: Grid, pen: Pen, slots: nat, n: nat)
    requires g.Valid(slots) && pen.x == 0 && pen.band == 0 && Shown(g, pen.canvas, 0, 0, 0)
    ensures var after := Paint(pen, Bands(g, slots, n));
      after == pen.(band := n, colour := after.colour, canvas := after.canvas) && Shown(g, after.canvas, n, 0, 0)
  {
    if n > 0 {
      BandsShown(g, pen, slots, n - 1);
      var before := Bands(g, slots, n - 1);
      var now := Paint(pen, before);
      BandPainted(pen, before, BandItems(g, n - 1, slots));
      OneBandShown(g, now, slots);
    }
  }

  lemma OneBandShown(g: Grid, now: Pen, slots: nat)
    requires g.Valid(slots) && now.x == 0 && Shown(g, now.canvas, now.band, 0, 0)
    ensures var after := Apply(Paint(now, BandItems(g, now.band, slots)), NextBand);
      && after == now.(band := now.band + 1, colour := after.colour, canvas := after.canvas)
      && Shown(g, after.canvas, now.band + 1, 0, 0)
  {
    BandShown(g, now, slots);
    NextBandShown(g, Paint(now, BandItems(g, now.band, slots)).canvas, now.band, slots);
  }

  lemma BandPainted(pen: Pen, before: seq<Item>, items: seq<Item>)
    ensures var after := Paint(Paint(pen, before), items);
      Paint(pen, before + items + [NextBand]) == Apply(after, NextBand)
  {
    PaintAppends(pen, before, items);
    PaintAppends(pen, before + items, [NextBand]);
    PaintOne(Paint(Paint(pen, before), items), NextBand);
  }

  lemma NextBandShown(g: Grid, canvas: Canvas, band: nat, slots: nat)
    requires g.Valid(slots) && Shown(g, canvas, band, slots, 0)
    ensures Shown(g, canvas, band + 1, 0, 0)
  {
    var next := band + 1;
    forall p: (nat, nat) ensures ShownAt(g, canvas, next, 0, 0, p) {
      assert ShownAt(g, canvas, band, slots, 0, p);
      if p.0 < g.w && p.1 < g.h {
        g.Inside(p.0, p.1);
      }
    }
  }

  // ---- the whole picture ----

  /** Reading the emitted text gives the palette, and a canvas that holds each pixel's slot and nothing else. */
  lemma SixelShowsGrid(palette: seq<Rgb>, g: Grid)
    requires g.Valid(|palette|)
    ensures var read := ReadSixel(SixelOf(palette, g));
      && read.Some? && read.value.w == g.w && read.value.h == g.h
      && read.value.colours == ColourMap(palette, |palette|)
      && (forall x: nat, y: nat | x < g.w && y < g.h ::
           if g.At(x, y) == -1 then (x, y) !in read.value.canvas
           else (x, y) in read.value.canvas && read.value.canvas[(x, y)] == g.At(x, y))
      && (forall p <- read.value.canvas :: p.0 < g.w && p.1 < g.h)
  {
    TextReadsBack(palette, g);
    DefinitionsDefine(palette, |palette|);
    var pen := START.(colours := ColourMap(palette, |palette|));
    PaintAppends(START, Definitions(palette, |palette|), Bands(g, |palette|, BandCount(g.h)));
    assert Shown(g, pen.canvas, 0, 0, 0);
    BandsShown(g, pen, |palette|, BandCount(g.h));
    var canvas := Paint(pen, Bands(g, |palette|, BandCount(g.h))).canvas;
    forall x: nat, y: nat | x < g.w && y < g.h
      ensures if g.At(x, y) == -1 then (x, y) !in canvas else (x, y) in canvas && canvas[(x, y)] == g.At(x, y)
    {
      g.Inside(x, y);
      assert ShownAt(g, canvas, BandCount(g.h), 0, 0, (x, y));
    }
    forall p | p in canvas ensures p.0 < g.w && p.1 < g.h {
      assert ShownAt(g, canvas, BandCount(g.h), 0, 0, p);
    }
  }

  /** What the terminal shows at a pixel, if the emitter painted it. */
  function Shows(picture: Picture, x: nat, y: nat): Option<(nat, nat, nat)> {
    if (x, y) in picture.canvas && picture.canvas[(x, y)] in picture.colours
    then Some(picture.colours[picture.canvas[(x, y)]]) else None
  }

  /** The number of the pixel in column `x` of row `y`. */
  function Number(img: Image, x: nat, y: nat): (k: nat)
    requires x < img.w && y < img.h
    ensures k < Pixels(img)
  {
    RowFits(img, y);
    y * img.w + x
  }

  function Seen(img: Image, x: nat, y: nat): Option<(nat, nat, nat)>
    requires img.Valid() && x < img.w && y < img.h
  {
    var k := Number(img, x, y);
    if Painted(img, k) && Reduced(img, k) in Slots(img, Pixels(img)) then
      var c := Percent(Reduced(img, k));
      Some((c.r, c.g, c.b))
    else None
  }

  lemma PixelShows(img: Image, slots: seq<int>, x: nat, y: nat, picture: Picture)
    requires img.Valid() && AllPlaced(img, Pixels(img), slots, Slots(img, Pixels(img)))
    requires x < img.w && y < img.h && picture.colours == ColourMap(Slots(img, Pixels(img)), |Slots(img, Pixels(img))|)
    requires
      var i := slots[Number(img, x, y)];
      if i == -1 then (x, y) !in picture.canvas else (x, y) in picture.canvas && picture.canvas[(x, y)] == i
    ensures Shows(picture, x, y) == Seen(img, x, y)
    ensures Shows(picture, x, y).None? ==> (x, y) !in picture.canvas
  {
    var k := Number(img, x, y);
    assert Placed(img, k, slots[k], Slots(img, Pixels(img)));
  }

  /**
   For every image: a pixel of half opacity or more whose reduced colour is among the first 250 shows that
   colour's percentages, and every other pixel is left untouched.
   */
  lemma SixelShowsImage(img: Image, slots: seq<int>, x: nat, y: nat)
    requires img.Valid() && AllPlaced(img, Pixels(img), slots, Slots(img, Pixels(img)))
    requires x < img.w && y < img.h
    ensures var read := ReadSixel(SixelOf(Slots(img, Pixels(img)), Grid(img.w, img.h, slots)));
      && read.Some?
      && Shows(read.value, x, y) == Seen(img, x, y)
      && (Shows(read.value, x, y).None? ==> (x, y) !in read.value.canvas)
  {
    var palette := Slots(img, Pixels(img));
    var g := Grid(img.w, img.h, slots);
    SlotsInPalette(img, slots, palette);
    SixelShowsGrid(palette, g);
    GridShowsImage(img, slots, palette, g, x, y, ReadSixel(SixelOf(palette, g)).value);
  }

  lemma GridShowsImage(img: Image, slots: seq<int>, palette: seq<Rgb>, g: Grid, x: nat, y: nat, picture: Picture)
    requires img.Valid() && palette == Slots(img, Pixels(img)) && AllPlaced(img, Pixels(img), slots, palette)
    requires g == Grid(img.w, img.h, slots) && g.Valid(|palette|) && x < img.w && y < img.h
    requires picture.colours == ColourMap(palette, |palette|)
    requires
      if g.At(x, y) == -1 then (x, y) !in picture.canvas
      else (x, y) in picture.canvas && picture.canvas[(x, y)] == g.At(x, y)
    ensures Shows(picture, x, y) == Seen(img, x, y)
    ensures Shows(picture, x, y).None? ==> (x, y) !in picture.canvas
  {
    assert g.At(x, y) == slots[Number(img, x, y)];
    PixelShows(img, slots, x, y, picture);
  }

  lemma SlotsInPalette(img: Image, slots: seq<int>, palette: seq<Rgb>)
    requires img.Valid() && palette == Slots(img, Pixels(img)) && AllPlaced(img, Pixels(img), slots, palette)
    ensures Grid(img.w, img.h, slots).Valid(|palette|)
  {
    forall k | 0 <= k < |slots| ensures -1 <= slots[k] < |palette| {
      assert Placed(img, k, slots[k], palette);
    }
  }
}
