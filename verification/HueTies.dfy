/**
 Exactly which 8-bit colours an hsl() with whole numbers shifts (Source/Editor/ColorLiteral.cpp:538-573): the
 bytes of every colour whose saturation is a tie, worked out in whole numbers.
 */
module HueTies {
  import opened ColorSpace
  import opened HueNotation

  // ---- what whole percentages read back as, in bytes ----

  /** Distance of a percentage of lightness from black or white, whichever is nearer. */
  function Room(l: int): int {
    if l <= 50 then l else 100 - l
  }

  function TopByte(l: int, p: int): int {
    (51 * (100 * l + p * Room(l)) + 1000) / 2000
  }

  function BottomByte(l: int, p: int): int {
    (51 * (100 * l - p * Room(l)) + 1000) / 2000
  }

  /** The middle channel at `j` sixtieths of the way up. */
  function MiddleByte(l: int, p: int, j: int): int {
    (17 * (3000 * l + p * Room(l) * (j - 30)) + 10000) / 20000
  }

  /** The whole percentage of lightness of a colour with these extremes. */
  function LightnessOf(top: int, bottom: int): int {
    (20 * (top + bottom) + 51) / 102
  }

  /** What the saturation is a share of. */
  function Whole(top: int, bottom: int): int {
    if top + bottom <= 255 then top + bottom else 510 - top - bottom
  }

  /** The saturation is `v` two-hundredths, and that is half a percent over an even one. */
  predicate EvenTie(top: int, bottom: int, v: int) {
    v * Whole(top, bottom) == 200 * (top - bottom) && v % 4 == 1
  }

  /** `j` is the nearest sixtieth to the place of the middle between the extremes. */
  predicate Nearest(top: int, bottom: int, middle: int, j: int) {
    && 0 <= j <= 60
    && -(top - bottom) <= 2 * (60 * (middle - bottom) - j * (top - bottom)) <= top - bottom
  }

  predicate ReadsAs(top: int, bottom: int, middle: int, l: int, p: int, j: int) {
    TopByte(l, p) == top && MiddleByte(l, p, j) == middle && BottomByte(l, p) == bottom
  }

  // ---- the colours that shift ----

  predicate AlwaysShifts(top: int, bottom: int) {
    (top == 104 && bottom == 24) || (top == 231 && bottom == 151)
  }

  predicate SometimesShifts(top: int, bottom: int, middle: int) {
    || (top == 91 && bottom == 21 && middle in {23, 24, 30, 31, 37, 38, 44, 45, 74, 81, 88})
    || (top == 234 && bottom == 164 && middle in {167, 174, 181, 210, 211, 217, 218, 224, 225, 231, 232})
  }

  // ---- which extremes can tie and pass ----

  /** In a tie the whole is a multiple of sixteen. */
  lemma TiesAreSixteenths(top: int, bottom: int, v: int) returns (w: int, half: int)
    requires 0 <= bottom < top <= 255 && EvenTie(top, bottom, v)
    ensures 0 < v <= 200 && 1 <= w <= 15 && Whole(top, bottom) == 16 * w
    ensures top - bottom == 2 * half && 25 * half == w * v
  {
    var whole, delta := Whole(top, bottom), top - bottom;
    assert delta <= whole && delta % 2 == whole % 2;
    TieSign(v, whole, delta);
    w, half := TieParity(v, v / 4, whole, delta);
  }

  lemma TieSign(v: int, whole: int, delta: int)
    requires v * whole == 200 * delta && 0 < delta <= whole
    ensures 0 < v <= 200
  {
    if v <= 0 {
      NoLess(v, 0, whole);
    } else if v > 200 {
      NoLess(201, v, whole);
    }
  }

  lemma NoLess(a: int, b: int, whole: int)
    requires a <= b && whole > 0
    ensures a * whole <= b * whole
  {
  }

  lemma TieParity(v: int, e: int, whole: int, delta: int) returns (w: int, half: int)
    requires v == 4 * e + 1 && v * whole == 200 * delta && delta % 2 == whole % 2
    ensures whole == 16 * w && delta == 2 * half && 25 * half == w * v
  {
    OddHalves(e, whole, 100 * delta);
    OddHalves(e, whole / 2, 50 * delta);
    OddHalves(e, whole / 2 / 2, 25 * delta);
    half := delta / 2;
    OddHalves(e, whole / 2 / 2 / 2, 25 * half);
    w := whole / 2 / 2 / 2 / 2;
  }

  lemma OddHalves(e: int, n: int, k: int)
    requires (4 * e + 1) * n == 2 * k
    ensures n % 2 == 0 && (4 * e + 1) * (n / 2) == k
  {
    var x, h := e * n, n / 2;
    assert (4 * e + 1) * n == 4 * x + n;
    assert n == 2 * h;
    assert e * (2 * h) == 2 * (e * h);
    assert (4 * e + 1) * h == 4 * (e * h) + h;
  }

  // ---- the extremes, one whole after another ----

  /** A saturation of `v` two-hundredths of a whole of `16 * w`, checked as `p` percent. */
  predicate Tied(w: int, v: int, p: int, half: int) {
    25 * half == w * v && v % 4 == 1 && 0 < v <= 200 && 2 * p == v + 1
  }

  /** Half above and half below the mean read back to the nearest byte from `l` percent away from black or white. */
  predicate Near(mean: int, half: int, l: int, p: int) {
    && -1000 <= 51 * l * (100 + p) - 2000 * (mean + half) <= 1000
    && -1000 <= 51 * l * (100 - p) - 2000 * (mean - half) <= 1000
  }

  lemma NearRows(w: int, l: int, v: int, p: int, half: int)
    requires 1 <= w <= 15 && l == (320 * w + 51) / 102
    requires Tied(w, v, p, half) && Near(8 * w, half, l, p)
    ensures (w == 1 && v == 25) || (w == 7 && (v == 25 || v == 125)) || (w == 8 && v == 125)
  {
    if w <= 5 {
      DarkestRows(w, l, v, p, half);
    } else if w <= 8 {
      DarkRows(w, l, v, p, half);
    } else if w <= 11 {
      DimRows(w, l, v, p, half);
    } else {
      MiddlingRows(w, l, v, p, half);
    }
  }

  lemma DarkestRows(w: int, l: int, v: int, p: int, half: int)
    requires 1 <= w <= 5 && l == (320 * w + 51) / 102 && Tied(w, v, p, half) && Near(8 * w, half, l, p)
    ensures w == 1 && v == 25
  {
    match w
    case 1 =>
    case 2 =>
    case 3 =>
    case 4 =>
    case _ =>
  }

  lemma DarkRows(w: int, l: int, v: int, p: int, half: int)
    requires 6 <= w <= 8 && l == (320 * w + 51) / 102 && Tied(w, v, p, half) && Near(8 * w, half, l, p)
    ensures (w == 7 && (v == 25 || v == 125)) || (w == 8 && v == 125)
  {
    TwoTies(w, v, half);
    if v == 25 {
      OneTie(w, l, half);
    } else {
      OtherTie(w, l, half);
    }
  }

  /** Where five does not divide the whole, only two saturations tie. */
  lemma TwoTies(w: int, v: int, half: int)
    requires 6 <= w <= 14 && w % 5 != 0 && 25 * half == w * v && v % 4 == 1 && 0 < v <= 200
    ensures v == 25 || v == 125
  {
    if w == 6 {
      Divides(w, 21, 5, v, half);
    } else if w == 7 {
      Divides(w, 18, 5, v, half);
    } else if w == 8 {
      Divides(w, 22, 7, v, half);
    } else if w == 9 {
      Divides(w, 14, 5, v, half);
    } else if w == 11 {
      Divides(w, 16, 7, v, half);
    } else if w == 12 {
      Divides(w, 23, 11, v, half);
    } else if w == 13 {
      Divides(w, 2, 1, v, half);
    } else {
      Divides(w, 9, 5, v, half);
    }
  }

  /** What has an inverse modulo twenty-five divides out. */
  lemma Divides(w: int, inverse: int, k: int, v: int, half: int)
    requires inverse * w == 1 + 25 * k && 25 * half == w * v
    ensures v % 25 == 0
  {
    var x, y := inverse * half, k * v;
    assert inverse * (w * v) == (inverse * w) * v;
    assert (1 + 25 * k) * v == v + 25 * y;
    assert inverse * (25 * half) == 25 * x;
    assert v == 25 * (x - y);
  }

  lemma OneTie(w: int, l: int, half: int)
    requires 6 <= w <= 14 && w % 5 != 0 && l == (320 * w + 51) / 102 && half == w && Near(8 * w, half, l, 13)
    ensures w == 7
  {
    match w
    case 6 =>
    case 8 =>
    case 9 =>
    case 11 =>
    case 12 =>
    case 13 =>
    case 14 =>
    case _ =>
  }

  lemma OtherTie(w: int, l: int, half: int)
    requires 6 <= w <= 14 && w % 5 != 0 && l == (320 * w + 51) / 102 && half == 5 * w && Near(8 * w, half, l, 63)
    ensures w == 7 || w == 8
  {
    match w
    case 6 =>
    case 9 =>
    case 11 =>
    case 12 =>
    case 13 =>
    case 14 =>
    case _ =>
  }

  lemma DimRows(w: int, l: int, v: int, p: int, half: int)
    requires 9 <= w <= 11 && l == (320 * w + 51) / 102 && Tied(w, v, p, half)
    ensures !Near(8 * w, half, l, p)
  {
    match w
    case 9 =>
    case 10 =>
    case _ =>
  }

  lemma MiddlingRows(w: int, l: int, v: int, p: int, half: int)
    requires 12 <= w <= 15 && l == (320 * w + 51) / 102 && Tied(w, v, p, half)
    ensures !Near(8 * w, half, l, p)
  {
    if w == 15 {
      LastRow(v, p, half);
    } else if Near(8 * w, half, l, p) {
      TwoTies(w, v, half);
      if v == 25 {
        OneTie(w, l, half);
      } else {
        OtherTie(w, l, half);
      }
    }
  }

  lemma LastRow(v: int, p: int, half: int)
    requires Tied(15, v, p, half)
    ensures !Near(120, half, 47, p)
  {
  }

  /** The extremes are read back as themselves from whole percentages. */
  predicate Passes(top: int, bottom: int, p: int) {
    var l := LightnessOf(top, bottom);
    TopByte(l, p) == top && BottomByte(l, p) == bottom
  }

  lemma DarkIsNear(w: int, half: int, p: int)
    requires 1 <= w <= 15 && Passes(8 * w + half, 8 * w - half, p)
    ensures Near(8 * w, half, (320 * w + 51) / 102, p)
  {
    var l := (320 * w + 51) / 102;
    assert l == LightnessOf(8 * w + half, 8 * w - half) && Room(l) == l;
    Products(l, p);
  }

  lemma LightIsNear(w: int, half: int, p: int)
    requires 1 <= w <= 15 && Passes(255 - 8 * w + half, 255 - 8 * w - half, p)
    ensures Near(8 * w, half, (320 * w + 51) / 102, p)
  {
    var l := (320 * w + 51) / 102;
    Mirrored(w);
    assert LightnessOf(255 - 8 * w + half, 255 - 8 * w - half) == 100 - l && Room(100 - l) == l;
    Products(l, p);
  }

  lemma Products(l: int, p: int)
    ensures l * (100 + p) == 100 * l + p * l && l * (100 - p) == 100 * l - p * l
  {
  }

  lemma Mirrored(w: int)
    ensures (20 * (510 - 16 * w) + 51) / 102 == 100 - (320 * w + 51) / 102
  {
    var q, r := (320 * w + 51) / 102, (320 * w + 51) % 102;
    assert 320 * w + 51 == 102 * q + r;
    assert r == 2 * (160 * w + 25 - 51 * q) + 1;
    assert 20 * (510 - 16 * w) + 51 == 102 * (100 - q) + (102 - r);
  }

  /** The rows that tied extremes can lie in if they pass. */
  lemma PassingRows(top: int, bottom: int, v: int, p: int, w: int, half: int)
    requires 1 <= w <= 15 && top - bottom == 2 * half && Tied(w, v, p, half)
    requires Passes(top, bottom, p) && (top + bottom == 16 * w || top + bottom == 510 - 16 * w)
    ensures (w == 1 && v == 25) || (w == 7 && (v == 25 || v == 125)) || (w == 8 && v == 125)
  {
    if top + bottom == 16 * w {
      assert top == 8 * w + half && bottom == 8 * w - half;
      DarkIsNear(w, half, p);
    } else {
      assert top == 255 - 8 * w + half && bottom == 255 - 8 * w - half;
      LightIsNear(w, half, p);
    }
    NearRows(w, (320 * w + 51) / 102, v, p, half);
  }

  /** One of the four pairs of extremes, dark or light, with its saturation. */
  predicate IsPair(top: int, bottom: int, v: int, mean: int, half: int, saturation: int) {
    && v == saturation && top - bottom == 2 * half
    && (top + bottom == 2 * mean || top + bottom == 510 - 2 * mean)
  }

  /** The extremes of every tie that passes the check. */
  lemma PassingTies(top: int, bottom: int, v: int, p: int)
    requires 0 <= bottom < top <= 255 && EvenTie(top, bottom, v) && 2 * p == v + 1 && Passes(top, bottom, p)
    ensures IsPair(top, bottom, v, 8, 1, 25) || IsPair(top, bottom, v, 56, 7, 25)
         || IsPair(top, bottom, v, 56, 35, 125) || IsPair(top, bottom, v, 64, 40, 125)
  {
    var w, half := TiesAreSixteenths(top, bottom, v);
    PassingRows(top, bottom, v, p, w, half);
    PairsOfRows(top, bottom, v, w, half);
  }

  lemma PairsOfRows(top: int, bottom: int, v: int, w: int, half: int)
    requires top - bottom == 2 * half && (top + bottom == 16 * w || top + bottom == 510 - 16 * w) && 25 * half == w * v
    requires (w == 1 && v == 25) || (w == 7 && (v == 25 || v == 125)) || (w == 8 && v == 125)
    ensures IsPair(top, bottom, v, 8, 1, 25) || IsPair(top, bottom, v, 56, 7, 25)
         || IsPair(top, bottom, v, 56, 35, 125) || IsPair(top, bottom, v, 64, 40, 125)
  {
    if v == 25 {
    } else {
    }
  }

  // ---- the middle of each ----

  /** The smallest ties have one byte, at most, between their extremes. */
  lemma SmallestTies(bottom: int, middle: int, j: int, l: int)
    requires (bottom == 7 && l == 3) || (bottom == 246 && l == 97)
    requires Nearest(bottom + 2, bottom, middle, j) && bottom <= middle <= bottom + 2
    ensures MiddleByte(l, 13, j) == MiddleByte(l, 12, j)
  {
    assert j == 30 * (middle - bottom);
    match middle - bottom
    case 0 =>
    case 1 =>
    case _ =>
  }

  /** The small ties lie fourteen apart. */
  lemma SmallTies(middle: int, j: int)
    ensures Nearest(63, 49, middle, j) && MiddleByte(22, 13, j) == middle ==> MiddleByte(22, 12, j) == middle
    ensures Nearest(206, 192, middle, j) && MiddleByte(78, 13, j) == middle ==> MiddleByte(78, 12, j) == middle
  {
  }

  /** The large ties lose an extreme. */
  lemma LargeTies()
    ensures TopByte(25, 62) == 103 && BottomByte(75, 62) == 152
  {
  }

  // The mixed ties keep their extremes; whether the middle is kept depends on where it is.

  lemma DarkMixedPlaces(m: int, n: int, j: int)
    requires 0 <= j <= 60 && -35 <= 60 * m - 70 * j <= 35
    requires 20000 * m <= 23562 * j + 5140 < 20000 * m + 20000
    requires 20000 * n <= 23188 * j + 16360 < 20000 * n + 20000
    ensures n == m <==> m !in {2, 3, 9, 10, 16, 17, 23, 24, 53, 60, 67}
  {
  }

  lemma DarkMixed(middle: int, j: int)
    requires Nearest(91, 21, middle, j) && MiddleByte(22, 63, j) == middle
    ensures MiddleByte(22, 62, j) == middle <==> !SometimesShifts(91, 21, middle)
  {
    DarkMixedPlaces(middle - 21, MiddleByte(22, 62, j) - 21, j);
  }

  lemma LightMixedPlaces(m: int, n: int, j: int)
    requires 0 <= j <= 60 && -35 <= 60 * m - 70 * j <= 35
    requires 20000 * m <= 23562 * j + 1140 < 20000 * m + 20000
    requires 20000 * n <= 23188 * j + 12360 < 20000 * n + 20000
    ensures n == m <==> m !in {3, 10, 17, 46, 47, 53, 54, 60, 61, 67, 68}
  {
  }

  lemma LightMixed(middle: int, j: int)
    requires Nearest(234, 164, middle, j) && MiddleByte(78, 63, j) == middle
    ensures MiddleByte(78, 62, j) == middle <==> !SometimesShifts(234, 164, middle)
  {
    LightMixedPlaces(middle - 164, MiddleByte(78, 62, j) - 164, j);
  }

  /** All other ties keep both extremes one percent lower. */
  lemma ExtremesStay()
    ensures TopByte(3, 12) == 9 && BottomByte(3, 12) == 7 && TopByte(97, 12) == 248 && BottomByte(97, 12) == 246
    ensures TopByte(22, 12) == 63 && BottomByte(22, 12) == 49 && TopByte(78, 12) == 206 && BottomByte(78, 12) == 192
    ensures TopByte(22, 62) == 91 && BottomByte(22, 62) == 21 && TopByte(78, 62) == 234 && BottomByte(78, 62) == 164
  {
  }

  lemma SmallestDecided(top: int, bottom: int, middle: int, l: int, j: int)
    requires (top == 9 && bottom == 7 && l == 3) || (top == 248 && bottom == 246 && l == 97)
    requires Nearest(top, bottom, middle, j) && bottom <= middle <= top && MiddleByte(l, 13, j) == middle
    ensures ReadsAs(top, bottom, middle, l, 12, j)
  {
    ExtremesStay();
    SmallestTies(bottom, middle, j, l);
  }

  lemma SmallDecided(top: int, bottom: int, middle: int, l: int, j: int)
    requires (top == 63 && bottom == 49 && l == 22) || (top == 206 && bottom == 192 && l == 78)
    requires Nearest(top, bottom, middle, j) && MiddleByte(l, 13, j) == middle
    ensures ReadsAs(top, bottom, middle, l, 12, j)
  {
    ExtremesStay();
    SmallTies(middle, j);
  }

  lemma MixedDecided(top: int, bottom: int, middle: int, l: int, j: int)
    requires (top == 91 && bottom == 21 && l == 22) || (top == 234 && bottom == 164 && l == 78)
    requires Nearest(top, bottom, middle, j) && MiddleByte(l, 63, j) == middle
    ensures ReadsAs(top, bottom, middle, l, 62, j) <==> !SometimesShifts(top, bottom, middle)
  {
    ExtremesStay();
    if top == 91 {
      DarkMixed(middle, j);
    } else {
      LightMixed(middle, j);
    }
  }

  lemma LargeDecided(top: int, bottom: int, middle: int, l: int, j: int)
    requires (top == 104 && bottom == 24 && l == 25) || (top == 231 && bottom == 151 && l == 75)
    ensures !ReadsAs(top, bottom, middle, l, 62, j)
  {
    LargeTies();
  }

  /** The four pairs of extremes with their lightness, dark or light. */
  lemma PairLightness(top: int, bottom: int, v: int, l: int)
    requires l == LightnessOf(top, bottom)
    ensures IsPair(top, bottom, v, 8, 1, 25) ==>
      (top == 9 && bottom == 7 && l == 3) || (top == 248 && bottom == 246 && l == 97)
    ensures IsPair(top, bottom, v, 56, 7, 25) ==>
      (top == 63 && bottom == 49 && l == 22) || (top == 206 && bottom == 192 && l == 78)
    ensures IsPair(top, bottom, v, 56, 35, 125) ==>
      (top == 91 && bottom == 21 && l == 22) || (top == 234 && bottom == 164 && l == 78)
    ensures IsPair(top, bottom, v, 64, 40, 125) ==>
      (top == 104 && bottom == 24 && l == 25) || (top == 231 && bottom == 151 && l == 75)
  {
  }

  /** One percent lower a tie that passes reads back as itself unless it is one of those that shift. */
  lemma TiesDecided(top: int, bottom: int, middle: int, l: int, v: int, p: int, j: int)
    requires 0 <= bottom <= middle <= top <= 255 && bottom < top && EvenTie(top, bottom, v) && 2 * p == v + 1
    requires l == LightnessOf(top, bottom) && Nearest(top, bottom, middle, j) && ReadsAs(top, bottom, middle, l, p, j)
    ensures ReadsAs(top, bottom, middle, l, p - 1, j) <==>
      !(AlwaysShifts(top, bottom) || SometimesShifts(top, bottom, middle))
  {
    PassingTies(top, bottom, v, p);
    PairLightness(top, bottom, v, l);
    DecidePair(top, bottom, middle, l, p, j);
  }

  lemma DecidePair(top: int, bottom: int, middle: int, l: int, p: int, j: int)
    requires bottom <= middle <= top && Nearest(top, bottom, middle, j) && MiddleByte(l, p, j) == middle
    requires
      || (p == 13 && ((top == 9 && bottom == 7 && l == 3) || (top == 248 && bottom == 246 && l == 97)))
      || (p == 13 && ((top == 63 && bottom == 49 && l == 22) || (top == 206 && bottom == 192 && l == 78)))
      || (p == 63 && ((top == 91 && bottom == 21 && l == 22) || (top == 234 && bottom == 164 && l == 78)))
      || (p == 63 && ((top == 104 && bottom == 24 && l == 25) || (top == 231 && bottom == 151 && l == 75)))
    ensures ReadsAs(top, bottom, middle, l, p - 1, j) <==>
      !(AlwaysShifts(top, bottom) || SometimesShifts(top, bottom, middle))
  {
    if p == 63 {
      if l == 25 || l == 75 {
        LargeDecided(top, bottom, middle, l, j);
      } else {
        MixedDecided(top, bottom, middle, l, j);
      }
    } else if l == 3 || l == 97 {
      SmallestDecided(top, bottom, middle, l, j);
    } else {
      SmallDecided(top, bottom, middle, l, j);
    }
  }
}
