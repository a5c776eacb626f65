/**
 The sixel emitter's palette (Tools/TerminalImageAlphaProbe.cpp:270-305): the first 250 distinct reduced
 colours that are painted at all, and for every pixel the slot it got.
 */
module SixelPalette {
  import opened Bytes
  import opened Png

  datatype Rgb = Rgb(r: nat, g: nat, b: nat)

  const SLOTS: nat := 250

  function Quantize(v: nat): nat {
    v / 8 * 8
  }

  function Pixels(img: Image): nat {
    img.w * img.h
  }

  /** Below half opacity a pixel is left alone. */
  predicate Painted(img: Image, k: nat)
    requires img.Valid() && k < Pixels(img)
  {
    img.px[4 * k + 3] >= 128
  }

  function Reduced(img: Image, k: nat): Rgb
    requires img.Valid() && k < Pixels(img)
  {
    Rgb(Quantize(img.px[4 * k]), Quantize(img.px[4 * k + 1]), Quantize(img.px[4 * k + 2]))
  }

  /** The different colours painted among the first `k` pixels, by first appearance. */
  function Distinct(img: Image, k: nat): seq<Rgb>
    requires img.Valid() && k <= Pixels(img)
  {
    if k == 0 then []
    else
      var before := Distinct(img, k - 1);
      if Painted(img, k - 1) && Reduced(img, k - 1) !in before then before + [Reduced(img, k - 1)] else before
  }

  function Slots(img: Image, k: nat): seq<Rgb>
    requires img.Valid() && k <= Pixels(img)
  {
    var all := Distinct(img, k);
    if |all| <= SLOTS then all else all[..SLOTS]
  }

  /** Slot `i` (-1 for none) is what pixel `k` gets from `palette`. */
  predicate Placed(img: Image, k: nat, i: int, palette: seq<Rgb>)
    requires img.Valid() && k < Pixels(img)
  {
    if !Painted(img, k) then i == -1
    else if i == -1 then Reduced(img, k) !in palette && |palette| == SLOTS
    else 0 <= i < |palette| && palette[i] == Reduced(img, k)
  }

  predicate NoTwoEqual(palette: seq<Rgb>) {
    forall i, j :: 0 <= i < j < |palette| ==> palette[i] != palette[j]
  }

  // ---- the program ----

  method FindSlot(palette: seq<Rgb>, colour: Rgb) returns (found: int)
    ensures -1 <= found < |palette|
    ensures found == -1 <==> colour !in palette
    ensures found >= 0 ==> palette[found] == colour
  {
    for i := 0 to |palette|
      invariant colour !in palette[..i]
    {
      if palette[i] == colour {
        return i;
      }
    }
    return -1;
  }

  method AssignSlot(img: Image, k: nat, palette: seq<Rgb>) returns (found: int, grown: seq<Rgb>)
    requires img.Valid() && k < Pixels(img) && palette == Slots(img, k)
    ensures grown == Slots(img, k + 1) && Placed(img, k, found, grown)
    ensures palette <= grown && (|palette| == SLOTS ==> grown == palette)
  {
    found, grown := -1, palette;
    if !Painted(img, k) {
      return;
    }
    found := FindSlot(palette, Reduced(img, k));
    if found < 0 && |palette| < SLOTS {
      found := |palette|;
      grown := palette + [Reduced(img, k)];
    }
  }

  ghost predicate AllPlaced(img: Image, n: nat, slots: seq<int>, palette: seq<Rgb>)
    requires img.Valid()
  {
    n <= |slots| == Pixels(img) && forall k :: 0 <= k < n ==> Placed(img, k, slots[k], palette)
  }

  method BuildPalette(img: Image) returns (palette: seq<Rgb>, slots: seq<int>)
    requires img.Valid()
    ensures palette == Slots(img, Pixels(img))
    ensures AllPlaced(img, Pixels(img), slots, palette)
  {
    var indices := new int[Pixels(img)](_ => -1);
    palette := [];
    for y := 0 to img.h
      invariant y * img.w <= Pixels(img)
      invariant palette == Slots(img, y * img.w)
      invariant AllPlaced(img, y * img.w, indices[..], palette)
    {
      RowFits(img, y);
      palette := PlaceRow(img, y * img.w, indices, palette);
    }
    slots := indices[..];
  }

  /** One row of the image, whose first pixel is number `from`. */
  method PlaceRow(img: Image, from: nat, indices: array<int>, given: seq<Rgb>) returns (palette: seq<Rgb>)
    requires img.Valid() && from + img.w <= Pixels(img)
    requires given == Slots(img, from) && AllPlaced(img, from, indices[..], given)
    modifies indices
    ensures palette == Slots(img, from + img.w)
    ensures AllPlaced(img, from + img.w, indices[..], palette)
  {
    palette := given;
    for x := 0 to img.w
      invariant palette == Slots(img, from + x)
      invariant AllPlaced(img, from + x, indices[..], palette)
    {
      ghost var before := indices[..];
      var found, grown := AssignSlot(img, from + x, palette);
      indices[from + x] := found;
      assert indices[..] == before[from + x := found];
      PlacedStay(img, from + x, before, palette, found, grown);
      palette := grown;
    }
  }

  lemma RowFits(img: Image, y: nat)
    requires y < img.h
    ensures y * img.w + img.w == (y + 1) * img.w <= Pixels(img)
  {
  }

  lemma PlacedStay(img: Image, n: nat, slots: seq<int>, palette: seq<Rgb>, found: int, grown: seq<Rgb>)
    requires img.Valid() && n < Pixels(img) && AllPlaced(img, n, slots, palette)
    requires palette <= grown && (|palette| == SLOTS ==> grown == palette) && Placed(img, n, found, grown)
    ensures AllPlaced(img, n + 1, slots[n := found], grown)
  {
    forall k | 0 <= k < n ensures Placed(img, k, slots[k], grown) {
      assert Placed(img, k, slots[k], palette);
    }
  }

  // ---- what the palette is ----

  /** At most 250 colours, no two equal, each one painted somewhere. */
  lemma {:induction false} PaletteIsDistinct(img: Image, k: nat)
    requires img.Valid() && k <= Pixels(img)
    ensures NoTwoEqual(Distinct(img, k)) && NoTwoEqual(Slots(img, k)) && |Slots(img, k)| <= SLOTS
    ensures forall c :: c in Distinct(img, k) <==> exists j :: 0 <= j < k && Painted(img, j) && Reduced(img, j) == c
  {
    if k > 0 {
      PaletteIsDistinct(img, k - 1);
      var before := Distinct(img, k - 1);
      forall c ensures c in Distinct(img, k) <==> c in before || (Painted(img, k - 1) && Reduced(img, k - 1) == c) {}
      DistinctStep(img, k, before);
    }
  }

  lemma DistinctStep(img: Image, k: nat, before: seq<Rgb>)
    requires img.Valid() && 0 < k <= Pixels(img)
    requires forall c :: c in before <==> exists j :: 0 <= j < k - 1 && Painted(img, j) && Reduced(img, j) == c
    ensures forall c :: (c in before || (Painted(img, k - 1) && Reduced(img, k - 1) == c)) <==>
                        exists j :: 0 <= j < k && Painted(img, j) && Reduced(img, j) == c
  {
  }

  /**
   A pixel goes unpainted exactly when it is transparent or its colour came after 250 others; up to 250
   colours only transparency leaves a pixel out.
   */
  lemma UnpaintedWhen(img: Image, k: nat, i: int)
    requires img.Valid() && k < Pixels(img) && Placed(img, k, i, Slots(img, Pixels(img)))
    ensures i == -1 <==> !Painted(img, k) || Reduced(img, k) !in Slots(img, Pixels(img))
    ensures |Distinct(img, Pixels(img))| <= SLOTS ==> (i == -1 <==> !Painted(img, k))
  {
    PaletteIsDistinct(img, Pixels(img));
    if Painted(img, k) {
      assert Reduced(img, k) in Distinct(img, Pixels(img));
    }
  }

  function Percent(c: Rgb): Rgb {
    Rgb(c.r * 100 / 255, c.g * 100 / 255, c.b * 100 / 255)
  }

  /** The coarser percentages sent to the terminal still tell all palette colours apart. */
  lemma PercentagesAreDistinct(img: Image, i: nat, j: nat)
    requires img.Valid() && i < j < |Slots(img, Pixels(img))|
    ensures Percent(Slots(img, Pixels(img))[i]) != Percent(Slots(img, Pixels(img))[j])
  {
    PaletteIsDistinct(img, Pixels(img));
    InEights(img, Slots(img, Pixels(img))[i]);
    InEights(img, Slots(img, Pixels(img))[j]);
    PercentKeepsApart(Slots(img, Pixels(img))[i], Slots(img, Pixels(img))[j]);
  }

  predicate Eights(c: Rgb) {
    c.r % 8 == 0 && c.g % 8 == 0 && c.b % 8 == 0
  }

  lemma InEights(img: Image, c: Rgb)
    requires img.Valid() && c in Slots(img, Pixels(img))
    ensures Eights(c)
  {
    PaletteIsDistinct(img, Pixels(img));
    assert c in Distinct(img, Pixels(img));
    var j :| 0 <= j < Pixels(img) && Painted(img, j) && Reduced(img, j) == c;
  }

  lemma PercentKeepsApart(c: Rgb, d: Rgb)
    requires Eights(c) && Eights(d)
    ensures Percent(c) == Percent(d) <==> c == d
  {
    ChannelKeepsApart(c.r, d.r);
    ChannelKeepsApart(c.g, d.g);
    ChannelKeepsApart(c.b, d.b);
  }

  lemma ChannelKeepsApart(a: nat, b: nat)
    requires a % 8 == 0 && b % 8 == 0
    ensures a * 100 / 255 == b * 100 / 255 <==> a == b
  {
    if a < b {
      assert a + 8 <= b;
    } else if b < a {
      assert b + 8 <= a;
    }
  }
}
