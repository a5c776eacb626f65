/**
 The terminal's picture in the bytes of the image (Tools/TerminalImageAlphaProbe.cpp:267-335): which colour is shown
 at each pixel, and at which ones none.
 */
module SixelPixels {
  import opened Common
  import opened Bytes
  import opened Png
  import opened SixelPalette
  import opened SixelText
  import opened Sixel
  import opened SixelPicture

  /** Red, green, blue and opacity of pixel `k`. */
  function PixelAt(img: Image, k: nat): (p: seq<Byte>)
    requires img.Valid() && k < img.w * img.h
    ensures |p| == 4
  {
    img.px[4 * k..4 * k + 4]
  }

  /** Its colour in steps of eight. */
  function Eighths(p: seq<Byte>): (int, int, int)
    requires |p| == 4
  {
    (p[0] / 8 * 8, p[1] / 8 * 8, p[2] / 8 * 8)
  }

  /** The different colours at half opacity or more among the first `k` pixels. */
  function ColoursBefore(img: Image, k: nat): set<(int, int, int)>
    requires img.Valid() && k <= img.w * img.h
  {
    set j | 0 <= j < k && PixelAt(img, j)[3] >= 128 :: Eighths(PixelAt(img, j))
  }

  /** The colour of pixel `k` came up when fewer than 250 others had. */
  predicate AmongTheFirst(img: Image, k: nat)
    requires img.Valid() && k < img.w * img.h
  {
    exists j :: 0 <= j < img.w * img.h && PixelAt(img, j)[3] >= 128
      && Eighths(PixelAt(img, j)) == Eighths(PixelAt(img, k)) && |ColoursBefore(img, j)| < 250
  }

  // ---- the palette in these terms ----

  function Triple(c: Rgb): (int, int, int) {
    (c.r, c.g, c.b)
  }

  lemma PixelIs(img: Image, k: nat)
    requires img.Valid() && k < img.w * img.h
    ensures Triple(Reduced(img, k)) == Eighths(PixelAt(img, k))
    ensures Painted(img, k) <==> PixelAt(img, k)[3] >= 128
  {
    var p := PixelAt(img, k);
    assert p[0] == img.px[4 * k] && p[1] == img.px[4 * k + 1] && p[2] == img.px[4 * k + 2] && p[3] == img.px[4 * k + 3];
  }

  lemma ColourIsBefore(img: Image, k: nat, c: Rgb)
    requires img.Valid() && k <= img.w * img.h
    ensures Triple(c) in ColoursBefore(img, k) <==> c in SixelPalette.Distinct(img, k)
  {
    PaletteIsDistinct(img, k);
    forall j | 0 <= j < k ensures Triple(Reduced(img, j)) == Eighths(PixelAt(img, j))
      && (Painted(img, j) <==> PixelAt(img, j)[3] >= 128) {
      PixelIs(img, j);
    }
    if c in SixelPalette.Distinct(img, k) {
      var j :| 0 <= j < k && Painted(img, j) && Reduced(img, j) == c;
      assert Eighths(PixelAt(img, j)) == Triple(c);
    }
    if Triple(c) in ColoursBefore(img, k) {
      var j :| 0 <= j < k && PixelAt(img, j)[3] >= 128 && Eighths(PixelAt(img, j)) == Triple(c);
      assert Reduced(img, j) == c;
    }
  }

  lemma {:induction false} AsManyColours(img: Image, k: nat)
    requires img.Valid() && k <= img.w * img.h
    ensures |ColoursBefore(img, k)| == |SixelPalette.Distinct(img, k)|
  {
    if k == 0 {
      assert ColoursBefore(img, k) == {};
    } else {
      AsManyColours(img, k - 1);
      NextColour(img, k - 1);
    }
  }

  lemma NextColour(img: Image, k: nat)
    requires img.Valid() && k < img.w * img.h
    requires |ColoursBefore(img, k)| == |SixelPalette.Distinct(img, k)|
    ensures |ColoursBefore(img, k + 1)| == |SixelPalette.Distinct(img, k + 1)|
  {
    PixelIs(img, k);
    ColourIsBefore(img, k, Reduced(img, k));
    OneMoreColour(img, k);
    OneMore(ColoursBefore(img, k), Eighths(PixelAt(img, k)));
  }

  lemma OneMore(colours: set<(int, int, int)>, t: (int, int, int))
    ensures |colours + {t}| == |colours| + if t in colours then 0 else 1
    ensures colours + {} == colours
  {
    if t in colours {
      assert colours + {t} == colours;
    }
  }

  lemma OneMoreColour(img: Image, k: nat)
    requires img.Valid() && k < img.w * img.h
    ensures ColoursBefore(img, k + 1) ==
      ColoursBefore(img, k) + if PixelAt(img, k)[3] >= 128 then {Eighths(PixelAt(img, k))} else {}
  {
    var more := ColoursBefore(img, k) + if PixelAt(img, k)[3] >= 128 then {Eighths(PixelAt(img, k))} else {};
    forall t ensures t in ColoursBefore(img, k + 1) <==> t in more {
      if t in more && t !in ColoursBefore(img, k) {
        assert t == Eighths(PixelAt(img, k));
      }
    }
  }

  lemma {:induction false} DistinctGrows(img: Image, j: nat, k: nat)
    requires img.Valid() && j <= k <= img.w * img.h
    ensures SixelPalette.Distinct(img, j) <= SixelPalette.Distinct(img, k)
    decreases k - j
  {
    if j < k {
      DistinctGrows(img, j, k - 1);
    }
  }

  /** Each colour of the list was added by a pixel that came with just the ones before it in the list. */
  lemma {:induction false} AddedBy(img: Image, k: nat, i: nat) returns (j: nat)
    requires img.Valid() && k <= img.w * img.h && i < |SixelPalette.Distinct(img, k)|
    ensures j < k && Painted(img, j) && Reduced(img, j) == SixelPalette.Distinct(img, k)[i]
    ensures |SixelPalette.Distinct(img, j)| == i
  {
    if i < |SixelPalette.Distinct(img, k - 1)| {
      j := AddedBy(img, k - 1, i);
    } else {
      j := k - 1;
    }
  }

  lemma InSlots(img: Image, k: nat)
    requires img.Valid() && k < img.w * img.h
    ensures Reduced(img, k) in Slots(img, img.w * img.h) <==> AmongTheFirst(img, k)
  {
    var n := img.w * img.h;
    var all, c := SixelPalette.Distinct(img, n), Reduced(img, k);
    PixelIs(img, k);
    if c in Slots(img, n) {
      var i :| 0 <= i < |Slots(img, n)| && Slots(img, n)[i] == c;
      var j := AddedBy(img, n, i);
      PixelIs(img, j);
      AsManyColours(img, j);
    }
    if AmongTheFirst(img, k) {
      var j :| 0 <= j < n && PixelAt(img, j)[3] >= 128
        && Eighths(PixelAt(img, j)) == Eighths(PixelAt(img, k)) && |ColoursBefore(img, j)| < 250;
      PixelIs(img, j);
      AsManyColours(img, j);
      AddedEarly(img, j, n, c);
    }
  }

  lemma AddedEarly(img: Image, j: nat, n: nat, c: Rgb)
    requires img.Valid() && j < n == img.w * img.h && Painted(img, j) && Reduced(img, j) == c
    requires |SixelPalette.Distinct(img, j)| < 250
    ensures c in Slots(img, n)
  {
    var next := SixelPalette.Distinct(img, j + 1);
    DistinctGrows(img, j + 1, n);
    assert c in next && |next| <= 250;
    var i :| 0 <= i < |next| && next[i] == c;
    assert Slots(img, n)[i] == c;
  }

  // ---- what is shown ----

  /** What a terminal makes of the emitter's text for an image whose pixels have these slots. */
  ghost function Screen(img: Image, slots: seq<int>): Option<Picture>
    requires img.Valid() && AllPlaced(img, Pixels(img), slots, Slots(img, Pixels(img)))
  {
    ReadSixel(SixelOf(Slots(img, Pixels(img)), Grid(img.w, img.h, slots)))
  }

  /** The percentages a pixel of these bytes is shown in, if it is shown. */
  function Percentages(p: seq<Byte>): (nat, nat, nat)
    requires |p| == 4
  {
    var r: nat, g: nat, b: nat := p[0], p[1], p[2];
    (r / 8 * 8 * 100 / 255, g / 8 * 8 * 100 / 255, b / 8 * 8 * 100 / 255)
  }

  /**
   For every image and pixel: at half opacity or more, and if its colour is among the first 250, the terminal shows
   the percentages of the colour in steps of eight; everywhere else it shows nothing of the image.
   */
  lemma SixelShowsPixels(img: Image, slots: seq<int>, x: nat, y: nat, k: nat, read: Option<Picture>)
    requires img.Valid() && AllPlaced(img, Pixels(img), slots, Slots(img, Pixels(img)))
    requires x < img.w && y < img.h && k == y * img.w + x && k < img.w * img.h
    requires read == Screen(img, slots)
    ensures read.Some? && read.value.w == img.w && read.value.h == img.h
    ensures Shows(read.value, x, y) ==
      if PixelAt(img, k)[3] >= 128 && AmongTheFirst(img, k) then Some(Percentages(PixelAt(img, k))) else None
    ensures Shows(read.value, x, y).None? ==> (x, y) !in read.value.canvas
  {
    SixelShowsImage(img, slots, x, y);
    SizeIsRead(img, slots);
    InSlots(img, k);
    PixelIs(img, k);
    SeenIs(img, x, y, k);
  }

  lemma SeenIs(img: Image, x: nat, y: nat, k: nat)
    requires img.Valid() && x < img.w && y < img.h && k == y * img.w + x && k < img.w * img.h
    ensures Seen(img, x, y) ==
      if PixelAt(img, k)[3] >= 128 && Reduced(img, k) in Slots(img, Pixels(img))
      then Some(Percentages(PixelAt(img, k))) else None
  {
    PixelIs(img, k);
  }

  lemma SizeIsRead(img: Image, slots: seq<int>)
    requires img.Valid() && AllPlaced(img, Pixels(img), slots, Slots(img, Pixels(img)))
    ensures var read := Screen(img, slots); read.Some? && read.value.w == img.w && read.value.h == img.h
  {
    SlotsInPalette(img, slots, Slots(img, Pixels(img)));
    SixelShowsGrid(Slots(img, Pixels(img)), Grid(img.w, img.h, slots));
  }
}
