/**
 Which 8-bit colours an hsl() shifts, over exact reals (Source/Editor/ColorLiteral.cpp:538-573): those the
 whole-number check passes and whose bytes are among the ties worked out in HueTies.
 */
module HueShifts {
  import opened ColorSpace
  import opened HueNotation
  import opened HueTies

  // ---- a colour's bytes in order ----

  function TopOf(c: ColorValue): int {
    ByteOf(Max3(c.red, c.green, c.blue))
  }

  function BottomOf(c: ColorValue): int {
    ByteOf(Min3(c.red, c.green, c.blue))
  }

  function MiddleOf(c: ColorValue): int {
    ByteOf(c.red) + ByteOf(c.green) + ByteOf(c.blue) - TopOf(c) - BottomOf(c)
  }

  /** The greatest and smallest byte of a colour that an hsl() may shift, and for two such pairs the middle one. */
  predicate OfShiftingBytes(c: ColorValue) {
    AlwaysShifts(TopOf(c), BottomOf(c)) || SometimesShifts(TopOf(c), BottomOf(c), MiddleOf(c))
  }

  // ---- rounding the hue keeps the order of the channels ----

  predicate TentsAre(x: real, red: real, green: real, blue: real) {
    Tent(x + 1.0 / 3.0) == red && Tent(x) == green && Tent(x - 1.0 / 3.0) == blue
  }

  /** At hue `x` the channels stand in the colour's own order, the middle one `t` of the way up. */
  predicate InOrder(c: ColorValue, x: real, t: real) {
    || (c.red >= c.green >= c.blue && TentsAre(x, 1.0, t, 0.0))
    || (c.red >= c.blue >= c.green && TentsAre(x, 1.0, 0.0, t))
    || (c.green >= c.red >= c.blue && TentsAre(x, t, 1.0, 0.0))
    || (c.green >= c.blue >= c.red && TentsAre(x, 0.0, 1.0, t))
    || (c.blue >= c.green >= c.red && TentsAre(x, 0.0, t, 1.0))
    || (c.blue >= c.red >= c.green && TentsAre(x, t, 0.0, 1.0))
  }

  function MiddleChannel(c: ColorValue): real {
    c.red + c.green + c.blue - Max3(c.red, c.green, c.blue) - Min3(c.red, c.green, c.blue)
  }

  /** `place` is how far up the middle of three channels stands between the lowest and the highest. */
  predicate IsPlace(place: real, high: real, middle: real, low: real) {
    0.0 <= place <= 1.0 && place * (high - low) == middle - low
  }

  /** A point of the hue circle, up an even sector or down an odd one, in turns. */
  function SectorPoint(sector: int, place: real): real {
    (if sector % 2 == 0 then sector as real + place else sector as real + 1.0 - place) / 6.0
  }

  predicate InSector(c: ColorValue, sector: int) {
    match sector
    case 0 => c.red >= c.green >= c.blue
    case 1 => c.green >= c.red >= c.blue
    case 2 => c.green >= c.blue >= c.red
    case 3 => c.blue >= c.green >= c.red
    case 4 => c.blue >= c.red >= c.green
    case _ => c.red >= c.blue >= c.green
  }

  predicate SectorTentsAre(sector: int, x: real, t: real) {
    match sector
    case 0 => TentsAre(x, 1.0, t, 0.0)
    case 1 => TentsAre(x, t, 1.0, 0.0)
    case 2 => TentsAre(x, 0.0, 1.0, t)
    case 3 => TentsAre(x, 0.0, t, 1.0)
    case 4 => TentsAre(x, t, 0.0, 1.0)
    case _ => TentsAre(x, 1.0, 0.0, t)
  }

  lemma HueOfPlace(c: ColorValue) returns (sector: int, place: real)
    requires InGamut(c) && Max3(c.red, c.green, c.blue) > Min3(c.red, c.green, c.blue)
    ensures 0 <= sector <= 5 && InSector(c, sector)
    ensures IsPlace(place, Max3(c.red, c.green, c.blue), MiddleChannel(c), Min3(c.red, c.green, c.blue))
    ensures RgbToHsl(c).hue == 360.0 * SectorPoint(sector, place)
  {
    var delta := Max3(c.red, c.green, c.blue) - Min3(c.red, c.green, c.blue);
    var part := MiddleChannel(c) - Min3(c.red, c.green, c.blue);
    PlaceOfMiddle(c, delta, part);
    place := part / delta;
    sector := SectorOf(c);
    SextantOfPlace(c, sector, delta, part);
    SextantIsHue(c, SectorPoint(sector, place));
  }

  lemma SextantIsHue(c: ColorValue, point: real)
    requires InGamut(c) && Max3(c.red, c.green, c.blue) > Min3(c.red, c.green, c.blue) && Sextant(c) == 6.0 * point
    ensures RgbToHsl(c).hue == 360.0 * point
  {
  }

  lemma PlaceOfMiddle(c: ColorValue, delta: real, part: real)
    requires delta == Max3(c.red, c.green, c.blue) - Min3(c.red, c.green, c.blue) > 0.0
    requires part == MiddleChannel(c) - Min3(c.red, c.green, c.blue)
    ensures IsPlace(part / delta, Max3(c.red, c.green, c.blue), MiddleChannel(c), Min3(c.red, c.green, c.blue))
  {
    assert 0.0 <= part <= delta;
    Share(part, delta);
  }

  /** The sector of the first channel that is greatest, in the order of RgbToHsl. */
  predicate IsSector(c: ColorValue, sector: int) {
    && 0 <= sector <= 5 && InSector(c, sector)
    && (sector == 5 ==> c.green < c.blue)
    && (sector == 1 || sector == 2 ==> c.green > c.red)
    && (sector == 3 || sector == 4 ==> c.blue > c.red && c.blue > c.green)
  }

  lemma SectorOf(c: ColorValue) returns (sector: int)
    ensures IsSector(c, sector)
  {
    sector :=
      if c.red >= c.green && c.red >= c.blue then if c.green >= c.blue then 0 else 5
      else if c.green >= c.blue then if c.blue <= c.red then 1 else 2
      else if c.red <= c.green then 3 else 4;
  }

  lemma SextantOfPlace(c: ColorValue, sector: int, delta: real, part: real)
    requires delta == Max3(c.red, c.green, c.blue) - Min3(c.red, c.green, c.blue) > 0.0
    requires part == MiddleChannel(c) - Min3(c.red, c.green, c.blue) && IsSector(c, sector)
    ensures Sextant(c) == 6.0 * SectorPoint(sector, part / delta)
  {
    Negated(part, delta);
    match sector
    case 0 => assert c.green - c.blue == part;
    case 1 => assert c.blue - c.red == -part;
    case 2 => assert c.blue - c.red == part;
    case 3 => assert c.red - c.green == -part;
    case 4 => assert c.red - c.green == part;
    case _ => assert c.green - c.blue == -part;
  }

  lemma Negated(part: real, delta: real)
    requires delta > 0.0
    ensures (-part) / delta == -(part / delta)
  {
  }

  lemma RoundShifted(base: int, y: real)
    requires base >= 0 && 0.0 <= y <= 60.0
    ensures Round(base as real + y) == base + Round(y) && 0 <= Round(y) <= 60
    ensures -0.5 <= Round(y) as real - y <= 0.5
  {
    assert (base as real + y + 0.5).Floor == base + (y + 0.5).Floor;
  }

  lemma SectorTents(sector: int, s: real)
    requires 0 <= sector <= 5 && 0.0 <= s <= 1.0
    ensures SectorTentsAre(sector, SectorPoint(sector, s), s)
  {
    match sector
    case 0 => Sector0(s);
    case 1 => Sector1(s);
    case 2 => Sector2(s);
    case 3 => Sector3(s);
    case 4 => Sector4(s);
    case _ => Sector5(s);
  }

  /** Rounding to whole degrees stays in the sector, since its ends are whole degrees. */
  lemma RoundedPoint(sector: int, place: real) returns (j: int)
    requires 0 <= sector <= 5 && 0.0 <= place <= 1.0
    ensures 0 <= j <= 60 && -0.5 <= j as real - 60.0 * place <= 0.5
    ensures Round(360.0 * SectorPoint(sector, place)) as real == 360.0 * SectorPoint(sector, j as real / 60.0)
  {
    var y := 60.0 * (if sector % 2 == 0 then place else 1.0 - place);
    assert 360.0 * SectorPoint(sector, place) == (60 * sector) as real + y;
    RoundShifted(60 * sector, y);
    j := if sector % 2 == 0 then Round(y) else 60 - Round(y);
  }

  /** The turn of a hue up to and including the full circle. */
  lemma TurnInSector(sector: int, s: real)
    requires 0 <= sector <= 5 && 0.0 <= s <= 1.0
    ensures SectorTentsAre(sector, Turn(360.0 * SectorPoint(sector, s)), s)
  {
    PointOnCircle(sector, s);
    if SectorPoint(sector, s) == 1.0 {
      FullCircle(sector, s);
    } else {
      SectorTents(sector, s);
      TurnOfPoint(SectorPoint(sector, s));
    }
  }

  lemma PointOnCircle(sector: int, s: real)
    requires 0 <= sector <= 5 && 0.0 <= s <= 1.0
    ensures 0.0 <= SectorPoint(sector, s) <= 1.0
    ensures SectorPoint(sector, s) == 1.0 <==> sector == 5 && s == 0.0
  {
  }

  lemma TurnOfPoint(x: real)
    requires 0.0 <= x < 1.0
    ensures Turn(360.0 * x) == x
  {
    TurnOfHue(360.0 * x);
  }

  lemma FullCircle(sector: int, s: real)
    requires sector == 5 && s == 0.0
    ensures SectorTentsAre(sector, Turn(360.0 * SectorPoint(sector, s)), s)
  {
    WholeTurn();
  }

  lemma WholeTurn()
    ensures Turn(360.0) == 0.0 && TentsAre(0.0, 1.0, 0.0, 0.0)
  {
    assert (360.0 / 360.0).Floor == 1;
  }

  lemma OrderInSector(c: ColorValue, sector: int, x: real, t: real)
    requires 0 <= sector <= 5 && InSector(c, sector) && SectorTentsAre(sector, x, t)
    ensures InOrder(c, x, t)
  {
  }

  /** The rounded hue keeps the channels in order, the middle one at the nearest sixtieth of its place. */
  lemma RoundedHue(c: ColorValue) returns (j: int, place: real)
    requires InGamut(c) && Max3(c.red, c.green, c.blue) > Min3(c.red, c.green, c.blue)
    ensures IsPlace(place, Max3(c.red, c.green, c.blue), MiddleChannel(c), Min3(c.red, c.green, c.blue))
    ensures 0 <= j <= 60 && -0.5 <= j as real - 60.0 * place <= 0.5
    ensures InOrder(c, Turn(Round(RgbToHsl(c).hue) as real), j as real / 60.0)
  {
    var sector: int;
    sector, place := HueOfPlace(c);
    j := RoundedPoint(sector, place);
    var t := j as real / 60.0;
    TurnInSector(sector, t);
    InSectorOrder(c, sector, Round(RgbToHsl(c).hue) as real, 360.0 * SectorPoint(sector, t), t);
  }

  lemma InSectorOrder(c: ColorValue, sector: int, rounded: real, hue: real, t: real)
    requires 0 <= sector <= 5 && InSector(c, sector) && rounded == hue && SectorTentsAre(sector, Turn(hue), t)
    ensures InOrder(c, Turn(rounded), t)
  {
    OrderInSector(c, sector, Turn(rounded), t);
  }

  // ---- what is read back, in bytes ----

  function ByteAt(l: real, m: real, tent: real): int {
    ByteOf(Channel(l, m, tent))
  }

  lemma TentBytes(c: ColorValue, x: real, l: real, m: real, alpha: real, red: real, green: real, blue: real)
    requires TentsAre(x, red, green, blue)
    ensures SameBytes(Tents(x, l, m, alpha), c) <==>
      ByteAt(l, m, red) == ByteOf(c.red) && ByteAt(l, m, green) == ByteOf(c.green)
        && ByteAt(l, m, blue) == ByteOf(c.blue)
  {
  }

  lemma BytesInOrder(c: ColorValue, high: real, middle: real, low: real)
    requires high >= middle >= low && Max3(c.red, c.green, c.blue) == high && Min3(c.red, c.green, c.blue) == low
    requires ByteOf(c.red) + ByteOf(c.green) + ByteOf(c.blue) == ByteOf(high) + ByteOf(middle) + ByteOf(low)
    ensures TopOf(c) == ByteOf(high) && MiddleOf(c) == ByteOf(middle) && BottomOf(c) == ByteOf(low)
  {
  }

  /** Channels in the colour's own order are its bytes if and only if top, middle and bottom are. */
  lemma OrderedBytes(c: ColorValue, x: real, t: real, l: real, m: real, alpha: real)
    requires InOrder(c, x, t)
    ensures SameBytes(Tents(x, l, m, alpha), c) <==>
      ByteAt(l, m, 1.0) == TopOf(c) && ByteAt(l, m, t) == MiddleOf(c) && ByteAt(l, m, 0.0) == BottomOf(c)
  {
    if c.red >= c.green >= c.blue && TentsAre(x, 1.0, t, 0.0) {
      BytesInOrder(c, c.red, c.green, c.blue);
      TentBytes(c, x, l, m, alpha, 1.0, t, 0.0);
    } else if c.red >= c.blue >= c.green && TentsAre(x, 1.0, 0.0, t) {
      BytesInOrder(c, c.red, c.blue, c.green);
      TentBytes(c, x, l, m, alpha, 1.0, 0.0, t);
    } else if c.green >= c.red >= c.blue && TentsAre(x, t, 1.0, 0.0) {
      BytesInOrder(c, c.green, c.red, c.blue);
      TentBytes(c, x, l, m, alpha, t, 1.0, 0.0);
    } else if c.green >= c.blue >= c.red && TentsAre(x, 0.0, 1.0, t) {
      BytesInOrder(c, c.green, c.blue, c.red);
      TentBytes(c, x, l, m, alpha, 0.0, 1.0, t);
    } else if c.blue >= c.green >= c.red && TentsAre(x, 0.0, t, 1.0) {
      BytesInOrder(c, c.blue, c.green, c.red);
      TentBytes(c, x, l, m, alpha, 0.0, t, 1.0);
    } else {
      BytesInOrder(c, c.blue, c.red, c.green);
      TentBytes(c, x, l, m, alpha, t, 0.0, 1.0);
    }
  }

  /** A non-negative number of ten-thousandths, or of three hundred-thousandths, in bytes. */
  lemma ByteOfShare(x: real, n: int)
    requires n >= 0
    ensures x == n as real / 10000.0 ==> ByteOf(x) == (51 * n + 1000) / 2000
    ensures x == n as real / 300000.0 ==> ByteOf(x) == (17 * n + 10000) / 20000
  {
    var a, b := (51 * n + 1000) / 2000, (17 * n + 10000) / 20000;
    if x == n as real / 10000.0 {
      assert a as real <= x * 255.0 + 0.5 < (a + 1) as real;
    }
    if x == n as real / 300000.0 {
      assert b as real <= x * 255.0 + 0.5 < (b + 1) as real;
    }
  }

  lemma SpreadOfPercentages(p: int, l: int)
    requires 0 <= p <= 100 && 0 <= l <= 100
    ensures Spread(p as real / 100.0, l as real / 100.0) == (p * Room(l)) as real / 10000.0
    ensures 0 <= p * Room(l) <= 100 * l
  {
    var room := Room(l);
    assert (if l as real / 100.0 < 0.5 then l as real / 100.0 else 1.0 - l as real / 100.0) == room as real / 100.0;
    IntProduct(p, room);
    Hundredths(p as real, room as real);
    AtMostHundred(p, room);
  }

  lemma Hundredths(a: real, b: real)
    ensures a / 100.0 * (b / 100.0) == a * b / 10000.0
  {
  }

  lemma AtMostHundred(p: int, room: int)
    requires 0 <= p <= 100 && 0 <= room
    ensures 0 <= p * room <= 100 * room
  {
    assert (100 - p) * room >= 0;
  }

  /** Whole percentages at a whole sixtieth, in bytes. */
  lemma BytesOfPercentages(p: int, l: int, j: int)
    requires 0 <= p <= 100 && 0 <= l <= 100 && 0 <= j <= 60
    ensures var light, spread := l as real / 100.0, Spread(p as real / 100.0, l as real / 100.0);
      && ByteAt(light, spread, 1.0) == TopByte(l, p) && ByteAt(light, spread, 0.0) == BottomByte(l, p)
      && ByteAt(light, spread, j as real / 60.0) == MiddleByte(l, p, j)
  {
    SpreadOfPercentages(p, l);
    ChannelsOfPercentages(l, p * Room(l), j);
  }

  lemma ChannelsOfPercentages(l: int, k: int, j: int)
    requires 0 <= k <= 100 * l && 0 <= j <= 60
    ensures var light, spread := l as real / 100.0, k as real / 10000.0;
      && ByteAt(light, spread, 1.0) == (51 * (100 * l + k) + 1000) / 2000
      && ByteAt(light, spread, 0.0) == (51 * (100 * l - k) + 1000) / 2000
      && ByteAt(light, spread, j as real / 60.0) == (17 * (3000 * l + k * (j - 30)) + 10000) / 20000
  {
    var light, spread := l as real / 100.0, k as real / 10000.0;
    ByteOfShare(Channel(light, spread, 1.0), 100 * l + k);
    ByteOfShare(Channel(light, spread, 0.0), 100 * l - k);
    MiddleShare(l, k, j);
    ByteOfShare(Channel(light, spread, j as real / 60.0), 3000 * l + k * (j - 30));
  }

  lemma MiddleShare(l: int, k: int, j: int)
    requires 0 <= k <= 100 * l && 0 <= j <= 60
    ensures 3000 * l + k * (j - 30) >= 0
    ensures Channel(l as real / 100.0, k as real / 10000.0, j as real / 60.0) ==
      (3000 * l + k * (j - 30)) as real / 300000.0
  {
    Least(k, j);
    var x := k * (j - 30);
    assert x as real == k as real * (j as real - 30.0);
    assert k as real / 10000.0 * (2.0 * (j as real / 60.0) - 1.0) == x as real / 300000.0;
  }

  lemma Least(k: int, j: int)
    requires k >= 0 && j >= 0
    ensures k * (j - 30) >= -30 * k
  {
    assert k * j >= 0;
  }

  /** Whole percentages at the rounded hue read back as a colour's bytes if and only if they do in whole numbers. */
  lemma PercentagesReadAs(c: ColorValue, p: int, l: int, j: int)
    requires InGamut(c) && 0 <= p <= 100 && 0 <= l <= 100 && 0 <= j <= 60
    requires InOrder(c, Turn(Round(RgbToHsl(c).hue) as real), j as real / 60.0)
    ensures
      var parts := HueComponents(Round(RgbToHsl(c).hue) as real, p as real / 100.0, l as real / 100.0);
      SameBytes(ReadBack(parts, false, c.alpha), c) <==> ReadsAs(TopOf(c), BottomOf(c), MiddleOf(c), l, p, j)
  {
    var hue := Round(RgbToHsl(c).hue) as real;
    BytesOfPercentages(p, l, j);
    ReadInOrder(c, hue, p as real / 100.0, l as real / 100.0, j as real / 60.0);
  }

  lemma ReadInOrder(c: ColorValue, hue: real, s: real, l: real, t: real)
    requires s >= 0.0 && InOrder(c, Turn(hue), t)
    ensures SameBytes(ReadBack(HueComponents(hue, s, l), false, c.alpha), c) <==>
      var m := Spread(s, l);
      ByteAt(l, m, 1.0) == TopOf(c) && ByteAt(l, m, t) == MiddleOf(c) && ByteAt(l, m, 0.0) == BottomOf(c)
  {
    HslIsTents(Turn(hue), s, l, c.alpha);
    OrderedBytes(c, Turn(hue), t, l, Spread(s, l), c.alpha);
  }

  // ---- an 8-bit colour in whole numbers ----

  predicate Colourful(c: ColorValue) {
    OnGrid(c) && Max3(c.red, c.green, c.blue) > Min3(c.red, c.green, c.blue)
  }

  lemma GridOrder(c: ColorValue)
    requires OnGrid(c)
    ensures Max3(c.red, c.green, c.blue) * 255.0 == TopOf(c) as real
      && Min3(c.red, c.green, c.blue) * 255.0 == BottomOf(c) as real
    ensures MiddleChannel(c) * 255.0 == MiddleOf(c) as real
    ensures 0 <= BottomOf(c) <= MiddleOf(c) <= TopOf(c) <= 255
  {
  }

  lemma NearestSixtieth(top: int, bottom: int, middle: int, j: int, place: real)
    requires bottom < top && 0 <= j <= 60 && -0.5 <= j as real - 60.0 * place <= 0.5
    requires place * (top - bottom) as real == (middle - bottom) as real
    ensures Nearest(top, bottom, middle, j)
  {
    IntProduct(j, top - bottom);
    ScaledDifference(j as real, place, (top - bottom) as real, (middle - bottom) as real);
  }

  lemma IntProduct(a: int, b: int)
    ensures (a * b) as real == a as real * b as real
  {
  }

  lemma ScaledDifference(x: real, place: real, delta: real, part: real)
    requires delta > 0.0 && place * delta == part && -0.5 <= x - 60.0 * place <= 0.5
    ensures -delta <= 2.0 * (60.0 * part - x * delta) <= delta
  {
    var y := x - 60.0 * place;
    assert y * delta == x * delta - 60.0 * part;
    ScaledBounds(y, delta);
  }

  lemma ScaledBounds(x: real, delta: real)
    requires -0.5 <= x <= 0.5 && delta > 0.0
    ensures -delta <= 2.0 * (x * delta) <= delta
  {
  }

  /** A share stays the same when part and whole are scaled. */
  lemma ShareScales(share: real, whole: real, part: real, scale: real)
    requires share * whole == part
    ensures share * (whole * scale) == part * scale
  {
    assert share * (whole * scale) == (share * whole) * scale;
  }

  lemma PlaceOfBytes(place: real, high: real, middle: real, low: real, top: int, mid: int, bottom: int)
    requires IsPlace(place, high, middle, low)
    requires high * 255.0 == top as real && middle * 255.0 == mid as real && low * 255.0 == bottom as real
    ensures place * (top - bottom) as real == (mid - bottom) as real
  {
    ShareScales(place, high - low, middle - low, 255.0);
  }

  lemma Divided(part: real, whole: real)
    requires whole > 0.0
    ensures part / whole * whole == part
  {
  }

  lemma LightnessInPercent(top: int, bottom: int, lightness: real)
    requires lightness * 510.0 == (top + bottom) as real && 0 <= bottom && 0 <= top
    ensures Round(lightness * 100.0) == LightnessOf(top, bottom)
  {
    var l := LightnessOf(top, bottom);
    assert l as real <= lightness * 100.0 + 0.5 < (l + 1) as real;
  }

  /** The saturation is the difference's share of the whole. */
  lemma SaturationInBytes(c: ColorValue, s: real, top: int, bottom: int)
    requires Colourful(c) && s == RgbToHsl(c).saturation && top == TopOf(c) && bottom == BottomOf(c)
    ensures s * Whole(top, bottom) as real == (top - bottom) as real
  {
    GridOrder(c);
    var max, min := SaturationOfExtremes(c, s);
    SaturationOfBytes(max, min, s, top, bottom);
  }

  lemma SaturationOfExtremes(c: ColorValue, s: real) returns (max: real, min: real)
    requires InGamut(c) && Max3(c.red, c.green, c.blue) > Min3(c.red, c.green, c.blue) && s == RgbToHsl(c).saturation
    ensures max == Max3(c.red, c.green, c.blue) && min == Min3(c.red, c.green, c.blue)
    ensures 0.0 <= min < max <= 1.0 && s == SaturationOf(max, min)
  {
    max, min := Max3(c.red, c.green, c.blue), Min3(c.red, c.green, c.blue);
  }

  lemma SaturationOfBytes(max: real, min: real, s: real, top: int, bottom: int)
    requires 0.0 <= min < max <= 1.0 && s == SaturationOf(max, min)
    requires max * 255.0 == top as real && min * 255.0 == bottom as real
    ensures s * Whole(top, bottom) as real == (top - bottom) as real
  {
    var whole := if max + min > 1.0 then 2.0 - max - min else max + min;
    assert whole * 255.0 == Whole(top, bottom) as real;
    Divided(max - min, whole);
    ShareScales(s, whole, max - min, 255.0);
  }

  /** A share is an even tie if and only if it is so many two-hundredths. */
  lemma TieIsEven(top: int, bottom: int, s: real, v: int)
    requires 0 <= bottom < top <= 255 && s * Whole(top, bottom) as real == (top - bottom) as real
    ensures EvenTie(top, bottom, v) <==> v % 4 == 1 && s * 200.0 == v as real
  {
    var whole := Whole(top, bottom) as real;
    assert (s * 200.0) * whole == 200.0 * (s * whole);
    assert v as real * whole == (v * Whole(top, bottom)) as real;
    SameFactor(s * 200.0, v as real, whole);
  }

  lemma SameFactor(a: real, b: real, whole: real)
    requires whole > 0.0
    ensures a * whole == b * whole <==> a == b
  {
    assert (a - b) * whole == a * whole - b * whole;
  }

  lemma OddHalf(percent: real, half: int)
    requires percent == half as real + 0.5 && half >= 0
    ensures Tie(percent) && percent.Floor == half && Round(percent) == half + 1
  {
    FloorIs(percent, half);
    FloorIs(percent + 0.5, half + 1);
  }

  lemma FloorIs(x: real, n: int)
    requires n as real <= x < (n + 1) as real
    ensures x.Floor == n
  {
  }

  lemma EvenHalf(percent: real, half: int)
    requires percent == half as real
    ensures !Tie(percent)
  {
  }

  /** Of so many half percents, the number decides whether they are a tie, and how it is rounded. */
  lemma TwoHundredths(percent: real, v: int)
    requires percent * 2.0 == v as real && 0 < v
    ensures (Tie(percent) && percent.Floor % 2 == 0) <==> v % 4 == 1
    ensures v % 4 == 1 ==> Round(percent) == (v + 1) / 2 && percent.Floor == (v - 1) / 2
  {
    var half := v / 2;
    if v % 2 == 1 {
      OddHalf(percent, half);
    } else {
      EvenHalf(percent, half);
    }
  }

  lemma GreyNeverTies(c: ColorValue)
    requires OnGrid(c) && Max3(c.red, c.green, c.blue) == Min3(c.red, c.green, c.blue)
    ensures !SaturationTies(c)
  {
    assert RgbToHsl(c).saturation == 0.0;
  }

  /** Only odd two-hundredths can be ties. */
  lemma TieNumber(c: ColorValue) returns (v: int, p: int)
    requires OnGrid(c) && SaturationTies(c)
    ensures Colourful(c) && v > 0 && v % 4 == 1 && RgbToHsl(c).saturation * 200.0 == v as real && 2 * p == v + 1
  {
    if !Colourful(c) {
      GreyNeverTies(c);
    }
    HslParts(c);
    v, p := NumberOfTie(RgbToHsl(c).saturation);
  }

  lemma NumberOfTie(s: real) returns (v: int, p: int)
    requires 0.0 <= s && Tie(s * 100.0) && (s * 100.0).Floor % 2 == 0
    ensures v > 0 && v % 4 == 1 && s * 200.0 == v as real && 2 * p == v + 1
  {
    p := (s * 100.0).Floor + 1;
    v := 2 * p - 1;
  }

  // ---- the colours that shift ----

  /** What is checked and what is printed of a tie: one percent of saturation less. */
  lemma TieParts(parts: HueComponents, v: int, p: int, l: int)
    requires parts.first * 200.0 == v as real && v > 0 && v % 4 == 1 && 2 * p == v + 1
    requires parts.second >= 0.0 && Round(parts.second * 100.0) == l && !Tie(parts.second * 100.0)
    ensures Checked(parts) == HueComponents(Round(parts.hue) as real, p as real / 100.0, l as real / 100.0)
    ensures PrintedWhole(parts) == HueComponents(Round(parts.hue) as real, (p - 1) as real / 100.0, l as real / 100.0)
  {
    TwoHundredths(parts.first * 100.0, v);
    TiesAreFloored(parts);
  }

  lemma PartsOfTie(c: ColorValue, v: int, p: int, l: int)
    requires OnGrid(c) && v > 0 && v % 4 == 1 && RgbToHsl(c).saturation * 200.0 == v as real && 2 * p == v + 1
    requires l == LightnessOf(TopOf(c), BottomOf(c))
    ensures var parts, hue := ComponentsOf(c, false), Round(RgbToHsl(c).hue) as real;
      && Checked(parts) == HueComponents(hue, p as real / 100.0, l as real / 100.0)
      && PrintedWhole(parts) == HueComponents(hue, (p - 1) as real / 100.0, l as real / 100.0)
    ensures 0 < p <= 100 && 0 <= l <= 100
  {
    HslParts(c);
    LightnessNeverTies(c);
    LightnessOfBytes(c);
    TieParts(ComponentsOf(c, false), v, p, l);
  }

  lemma LightnessOfBytes(c: ColorValue)
    requires OnGrid(c)
    ensures Round(RgbToHsl(c).lightness * 100.0) == LightnessOf(TopOf(c), BottomOf(c))
    ensures 0 <= LightnessOf(TopOf(c), BottomOf(c)) <= 100
  {
    GridOrder(c);
    LightnessInPercent(TopOf(c), BottomOf(c), RgbToHsl(c).lightness);
  }

  /** A tie is checked at one percentage and printed one percent lower. */
  lemma TieInWholeNumbers(c: ColorValue, checked: HueComponents, printed: HueComponents, v: int, l: int, p: int, j: int,
                          top: int, middle: int, bottom: int)
    requires OnGrid(c) && v > 0 && v % 4 == 1 && RgbToHsl(c).saturation * 200.0 == v as real && 2 * p == v + 1
    requires checked == Checked(ComponentsOf(c, false)) && printed == PrintedWhole(ComponentsOf(c, false))
    requires top == TopOf(c) && middle == MiddleOf(c) && bottom == BottomOf(c) && l == LightnessOf(top, bottom)
    requires 0 <= j <= 60 && InOrder(c, Turn(Round(RgbToHsl(c).hue) as real), j as real / 60.0)
    ensures SameBytes(ReadBack(checked, false, c.alpha), c) <==> ReadsAs(top, bottom, middle, l, p, j)
    ensures SameBytes(ReadBack(printed, false, c.alpha), c) <==> ReadsAs(top, bottom, middle, l, p - 1, j)
  {
    PartsOfTie(c, v, p, l);
    var hue := Round(RgbToHsl(c).hue) as real;
    PartsReadAs(c, checked, hue, p, l, j);
    PartsReadAs(c, printed, hue, p - 1, l, j);
  }

  lemma PartsReadAs(c: ColorValue, parts: HueComponents, hue: real, p: int, l: int, j: int)
    requires InGamut(c) && 0 <= p <= 100 && 0 <= l <= 100 && 0 <= j <= 60
    requires hue == Round(RgbToHsl(c).hue) as real && InOrder(c, Turn(hue), j as real / 60.0)
    requires parts == HueComponents(hue, p as real / 100.0, l as real / 100.0)
    ensures SameBytes(ReadBack(parts, false, c.alpha), c) <==> ReadsAs(TopOf(c), BottomOf(c), MiddleOf(c), l, p, j)
  {
    PercentagesReadAs(c, p, l, j);
  }

  lemma ShiftingBytesTie(top: int, bottom: int, middle: int)
    requires AlwaysShifts(top, bottom) || SometimesShifts(top, bottom, middle)
    ensures EvenTie(top, bottom, 125) && bottom < top
  {
  }

  /**
   Over exact reals, an hsl() shifts an 8-bit colour if and only if the whole-number check passes and the
   colour's bytes are 104 over 24 or 231 over 151, whatever is between, or 91 over 21 or 234 over 164 with
   one of eleven bytes between. In binary floating point only 104 over 24 has exactly this saturation; the
   others lie beside it.
   */
  lemma HslShiftsExactly(c: ColorValue)
    requires OnGrid(c)
    ensures KeepsColor(c, false) <==>
      !(RoundTripsAtWholeNumbers(c, ComponentsOf(c, false), false) && OfShiftingBytes(c))
  {
    HslParts(c);
    GridOrder(c);
    LightnessNeverTies(c);
    if !SaturationTies(c) {
      CheckedIsPrinted(ComponentsOf(c, false));
      KeptWhenRoundingsAgree(c, false);
      NoTieNoShift(c);
    } else if !RoundTripsAtWholeNumbers(c, ComponentsOf(c, false), false) {
      FineKeepsColor(c, false);
    } else {
      var v, p := TieNumber(c);
      TieShifts(c, v, p);
    }
  }

  lemma NoTieNoShift(c: ColorValue)
    requires OnGrid(c) && !SaturationTies(c)
    ensures !OfShiftingBytes(c)
  {
    if OfShiftingBytes(c) {
      GridOrder(c);
      ShiftingBytesTie(TopOf(c), BottomOf(c), MiddleOf(c));
      SaturationInBytes(c, RgbToHsl(c).saturation, TopOf(c), BottomOf(c));
      TieIsEven(TopOf(c), BottomOf(c), RgbToHsl(c).saturation, 125);
      TwoHundredths(RgbToHsl(c).saturation * 100.0, 125);
    }
  }

  lemma TieShifts(c: ColorValue, v: int, p: int)
    requires Colourful(c) && v > 0 && v % 4 == 1 && RgbToHsl(c).saturation * 200.0 == v as real && 2 * p == v + 1
    requires RoundTripsAtWholeNumbers(c, ComponentsOf(c, false), false)
    ensures KeepsColor(c, false) <==> !OfShiftingBytes(c)
  {
    var top, middle, bottom := TopOf(c), MiddleOf(c), BottomOf(c);
    var checked, printed := Checked(ComponentsOf(c, false)), PrintedWhole(ComponentsOf(c, false));
    TieVerdict(c, checked, printed, v, p, top, middle, bottom);
  }

  lemma TieVerdict(c: ColorValue, checked: HueComponents, printed: HueComponents, v: int, p: int, top: int,
                   middle: int, bottom: int)
    requires Colourful(c) && v > 0 && v % 4 == 1 && RgbToHsl(c).saturation * 200.0 == v as real && 2 * p == v + 1
    requires checked == Checked(ComponentsOf(c, false)) && printed == PrintedWhole(ComponentsOf(c, false))
    requires top == TopOf(c) && middle == MiddleOf(c) && bottom == BottomOf(c)
    requires SameBytes(ReadBack(checked, false, c.alpha), c)
    ensures SameBytes(ReadBack(printed, false, c.alpha), c) <==>
      !(AlwaysShifts(top, bottom) || SometimesShifts(top, bottom, middle))
  {
    var l := LightnessOf(top, bottom);
    var j := TieFacts(c, checked, printed, v, l, p, top, middle, bottom);
    TiesDecided(top, bottom, middle, l, v, p, j);
  }

  lemma TieFacts(c: ColorValue, checked: HueComponents, printed: HueComponents, v: int, l: int, p: int,
                 top: int, middle: int, bottom: int) returns (j: int)
    requires Colourful(c) && v > 0 && v % 4 == 1 && RgbToHsl(c).saturation * 200.0 == v as real && 2 * p == v + 1
    requires checked == Checked(ComponentsOf(c, false)) && printed == PrintedWhole(ComponentsOf(c, false))
    requires top == TopOf(c) && middle == MiddleOf(c) && bottom == BottomOf(c) && l == LightnessOf(top, bottom)
    ensures 0 <= bottom <= middle <= top <= 255 && bottom < top
    ensures EvenTie(top, bottom, v) && Nearest(top, bottom, middle, j)
    ensures SameBytes(ReadBack(checked, false, c.alpha), c) <==> ReadsAs(top, bottom, middle, l, p, j)
    ensures SameBytes(ReadBack(printed, false, c.alpha), c) <==> ReadsAs(top, bottom, middle, l, p - 1, j)
  {
    var place: real;
    j, place := RoundedHue(c);
    TieInWholeNumbers(c, checked, printed, v, l, p, j, top, middle, bottom);
    EvenTieOfBytes(c, RgbToHsl(c).saturation, v, top, bottom);
    NearestOfBytes(c, j, place, top, middle, bottom);
  }

  lemma EvenTieOfBytes(c: ColorValue, s: real, v: int, top: int, bottom: int)
    requires Colourful(c) && s == RgbToHsl(c).saturation && v % 4 == 1 && s * 200.0 == v as real
    requires top == TopOf(c) && bottom == BottomOf(c)
    ensures 0 <= bottom < top <= 255 && EvenTie(top, bottom, v)
  {
    GridOrder(c);
    SaturationInBytes(c, s, top, bottom);
    TieIsEven(top, bottom, s, v);
  }

  lemma NearestOfBytes(c: ColorValue, j: int, place: real, top: int, middle: int, bottom: int)
    requires Colourful(c) && top == TopOf(c) && middle == MiddleOf(c) && bottom == BottomOf(c)
    requires IsPlace(place, Max3(c.red, c.green, c.blue), MiddleChannel(c), Min3(c.red, c.green, c.blue))
    requires 0 <= j <= 60 && -0.5 <= j as real - 60.0 * place <= 0.5
    ensures 0 <= bottom <= middle <= top <= 255 && Nearest(top, bottom, middle, j)
  {
    GridOrder(c);
    NearestInBytes(place, Max3(c.red, c.green, c.blue), MiddleChannel(c), Min3(c.red, c.green, c.blue), top, middle,
      bottom, j);
  }

  lemma NearestInBytes(place: real, high: real, middle: real, low: real, top: int, mid: int, bottom: int, j: int)
    requires IsPlace(place, high, middle, low) && bottom < top
    requires high * 255.0 == top as real && middle * 255.0 == mid as real && low * 255.0 == bottom as real
    requires 0 <= j <= 60 && -0.5 <= j as real - 60.0 * place <= 0.5
    ensures Nearest(top, bottom, mid, j)
  {
    PlaceOfBytes(place, high, middle, low, top, mid, bottom);
    NearestSixtieth(top, bottom, mid, j, place);
  }

  // ---- one of them ----

  const INDIGO: ColorValue := ColorValue(24.0 / 255.0, 24.0 / 255.0, 104.0 / 255.0, 1.0)

  /**
   rgb(24, 24, 104) shifts: the check reads back hsl(240, 63%, 25%), the text says hsl(240, 62%, 25%), and
   that is rgb(24, 24, 103). Its saturation, 0.625, and its hue are also exact in binary floating point.
   */
  lemma IndigoShifts()
    ensures OnGrid(INDIGO) && !KeepsColor(INDIGO, false)
    ensures RgbToHsl(INDIGO).hue == 240.0 && RgbToHsl(INDIGO).saturation == 0.625
    ensures Printed(INDIGO, ComponentsOf(INDIGO, false), false) == HueComponents(240.0, 0.62, 0.25)
    ensures ByteOf(INDIGO.blue) == 104 && ByteOf(ReadBack(HueComponents(240.0, 0.62, 0.25), false, 1.0).blue) == 103
  {
    IndigoParts();
    IndigoPasses(INDIGO);
    HslShiftsExactly(INDIGO);
    IndigoBytes();
    IndigoReadsBack(0.62, 0.25);
  }

  lemma IndigoBytes()
    ensures ByteOf(INDIGO.red) == 24 && ByteOf(INDIGO.green) == 24 && ByteOf(INDIGO.blue) == 104
    ensures Max3(INDIGO.red, INDIGO.green, INDIGO.blue) == INDIGO.blue
      && Min3(INDIGO.red, INDIGO.green, INDIGO.blue) == INDIGO.red
    ensures OfShiftingBytes(INDIGO)
  {
  }

  lemma IndigoPasses(c: ColorValue)
    requires c == INDIGO
    ensures RoundTripsAtWholeNumbers(c, ComponentsOf(c, false), false)
  {
    IndigoParts();
    IndigoBytes();
    IndigoReadsBack(0.63, 0.25);
  }

  lemma IndigoParts()
    ensures OnGrid(INDIGO) && RgbToHsl(INDIGO).hue == 240.0 && RgbToHsl(INDIGO).saturation == 0.625
    ensures var parts := ComponentsOf(INDIGO, false);
      && Checked(parts) == HueComponents(240.0, 0.63, 0.25)
      && PrintedWhole(parts) == HueComponents(240.0, 0.62, 0.25)
  {
    var hsl := RgbToHsl(INDIGO);
    assert hsl.lightness == 64.0 / 255.0;
    assert hsl.saturation == 0.625;
    assert hsl.hue == 4.0 * 60.0;
  }

  lemma IndigoReadsBack(s: real, l: real)
    requires 0.0 < s <= 1.0 && 0.0 < l < 0.5
    ensures var c := HslToRgb(HslColor(240.0, s, l, 1.0));
      c.red == l - s * l && c.green == l - s * l && c.blue == l + s * l
  {
    TurnOfHue(240.0);
    HslIsTents(240.0 / 360.0, s, l, 1.0);
    var t := 240.0 / 360.0;
    assert Tent(t + 1.0 / 3.0) == 0.0 && Tent(t) == 0.0 && Tent(t - 1.0 / 3.0) == 1.0;
  }
}
