/**
 Which alpha values keep their byte when they are printed with the first of one to four decimals that reads
 back as it (Source/Editor/ColorLiteral.cpp:498-511).
 */
module AlphaShifts {
  import opened Common
  import opened ColorSpace
  import opened HueNotation
  import opened DecimalText
  import opened ColorTokens
  import opened ColorFormat
  import opened PrintedNumbers

  // ---- the condition ----

  /** Byte `n` ends, and the next begins, at alpha (2 * n + 1) / 510: the first number of ten-thousandths from there. */
  function FirstFrom(n: int): int {
    (1000 * (2 * n + 1) + 50) / 51
  }

  /** The last number of ten-thousandths up to there. */
  function LastUpTo(n: int): int {
    1000 * (2 * n + 1) / 51
  }

  /** Close before the end of byte `n`, all four precisions round past it. */
  predicate IsLifted(n: int) {
    n % 51 == 1 || n % 51 == 14 || n % 51 == 25 || n % 51 == 29 || n % 51 == 42
  }

  /** Close after the start of byte `n + 1`, all four round back before it. */
  predicate IsLowered(n: int) {
    n % 51 == 8 || n % 51 == 21 || n % 51 == 36 || n % 51 == 49
  }

  /** Alpha is at least halfway up to the first number past the end of its byte; halfway counts if that is even. */
  predicate NearEnd(alpha: real, n: int) {
    var halfway := 2 * FirstFrom(n) - 1;
    halfway as real < 20000.0 * alpha || (n % 51 == 25 && halfway as real == 20000.0 * alpha)
  }

  /** Alpha is less than halfway up from the last number before its byte begins. */
  predicate NearStart(alpha: real, n: int) {
    20000.0 * alpha < (2 * LastUpTo(n) + 1) as real
  }

  predicate AlphaShifts(alpha: real) {
    var byte := ByteOf(alpha);
    (IsLifted(byte) && NearEnd(alpha, byte)) || (IsLowered(byte - 1) && NearStart(alpha, byte - 1))
  }

  // ---- the four roundings ----

  lemma TensUpTo4(k: nat)
    requires 1 <= k <= 4
    ensures Tens(k) == if k == 1 then 10.0 else if k == 2 then 100.0 else if k == 3 then 1000.0 else 10000.0
  {
    if k > 1 {
      TensUpTo4(k - 1);
    } else {
      assert Tens(k - 1) == 1.0;
    }
  }

  predicate KeptAt(alpha: real, decimals: nat)
    requires Unit(alpha)
  {
    ByteOf(Rounded(alpha, decimals)) == ByteOf(alpha)
  }

  /** The byte of `units` of 1 / (2 * half). */
  function ByteAt(units: int, half: int): int
    requires half > 0
  {
    (255 * units + half) / (2 * half)
  }

  lemma KeptByUnits(alpha: real, decimals: nat)
    requires Unit(alpha) && 1 <= decimals <= 4
    ensures decimals == 1 ==> (KeptAt(alpha, 1) <==> ByteAt(HalfEven(alpha * 10.0), 5) == ByteOf(alpha))
    ensures decimals == 2 ==> (KeptAt(alpha, 2) <==> ByteAt(HalfEven(alpha * 100.0), 50) == ByteOf(alpha))
    ensures decimals == 3 ==> (KeptAt(alpha, 3) <==> ByteAt(HalfEven(alpha * 1000.0), 500) == ByteOf(alpha))
    ensures decimals == 4 ==> (KeptAt(alpha, 4) <==> ByteAt(HalfEven(alpha * 10000.0), 5000) == ByteOf(alpha))
  {
    TensUpTo4(decimals);
    var units := Units(alpha, decimals);
    if decimals == 1 {
      UnitsByte(units, 5, Rounded(alpha, decimals));
    } else if decimals == 2 {
      UnitsByte(units, 50, Rounded(alpha, decimals));
    } else if decimals == 3 {
      UnitsByte(units, 500, Rounded(alpha, decimals));
    } else {
      UnitsByte(units, 5000, Rounded(alpha, decimals));
    }
  }

  lemma UnitsByte(units: int, half: int, value: real)
    requires units >= 0 && (half == 5 || half == 50 || half == 500 || half == 5000)
    requires value == units as real / (2 * half) as real
    ensures ByteOf(value) == ByteAt(units, half)
  {
    var byte := ByteAt(units, half);
    if half == 5 {
      RoundsTo(value * 255.0, byte, 255.0 * (units as real / 10.0));
    } else if half == 50 {
      RoundsTo(value * 255.0, byte, 255.0 * (units as real / 100.0));
    } else if half == 500 {
      RoundsTo(value * 255.0, byte, 255.0 * (units as real / 1000.0));
    } else {
      RoundsTo(value * 255.0, byte, 255.0 * (units as real / 10000.0));
    }
  }

  lemma RoundsTo(x: real, byte: int, y: real)
    requires x == y >= 0.0 && byte as real - 0.5 <= y < byte as real + 0.5
    ensures Round(x) == byte
  {
  }

  lemma HalfEvenIs(x: real, n: int)
    requires n as real - 0.5 < x < n as real + 0.5
    ensures HalfEven(x) == n
  {
  }

  // ---- rounding over a boundary ----

  /** Less than half of a ten-thousandth below `c` of them: rounded by fewer decimals as `c` is, less a half. */
  lemma RoundedBelow(alpha: real, c: int)
    requires (2 * c - 1) as real <= 20000.0 * alpha < (2 * c) as real
    ensures HalfEven(alpha * 1000.0) == (c + 4) / 10
    ensures HalfEven(alpha * 100.0) == (c + 49) / 100
    ensures HalfEven(alpha * 10.0) == (c + 499) / 1000
  {
    var n3, n2, n1 := (c + 4) / 10, (c + 49) / 100, (c + 499) / 1000;
    assert 10 * n3 - 4 <= c <= 10 * n3 + 5;
    HalfEvenIs(alpha * 1000.0, n3);
    assert 100 * n2 - 49 <= c <= 100 * n2 + 50;
    HalfEvenIs(alpha * 100.0, n2);
    assert 1000 * n1 - 499 <= c <= 1000 * n1 + 500;
    HalfEvenIs(alpha * 10.0, n1);
  }

  /** At most half of one above `f` of them. */
  lemma RoundedAbove(alpha: real, f: int)
    requires (2 * f) as real < 20000.0 * alpha <= (2 * f + 1) as real
    ensures HalfEven(alpha * 1000.0) == (f + 5) / 10
    ensures HalfEven(alpha * 100.0) == (f + 50) / 100
    ensures HalfEven(alpha * 10.0) == (f + 500) / 1000
  {
    var n3, n2, n1 := (f + 5) / 10, (f + 50) / 100, (f + 500) / 1000;
    assert 10 * n3 - 5 <= f <= 10 * n3 + 4;
    HalfEvenIs(alpha * 1000.0, n3);
    assert 100 * n2 - 50 <= f <= 100 * n2 + 49;
    HalfEvenIs(alpha * 100.0, n2);
    assert 1000 * n1 - 500 <= f <= 1000 * n1 + 499;
    HalfEvenIs(alpha * 10.0, n1);
  }

  // ---- which boundaries no precision avoids ----

  predicate AllMiss(n3: int, n2: int, n1: int, byte: int) {
    ByteAt(n3, 500) != byte && ByteAt(n2, 50) != byte && ByteAt(n1, 5) != byte
  }

  /** Fifty-one bytes further the boundary is 2000 ten-thousandths further. */
  lemma MissesRepeat(n3: int, n2: int, n1: int, byte: int, q: int)
    ensures AllMiss(200 * q + n3, 20 * q + n2, 2 * q + n1, 51 * q + byte) <==> AllMiss(n3, n2, n1, byte)
  {
    BytesRepeat(n3, n2, n1, q);
  }

  lemma BytesRepeat(n3: int, n2: int, n1: int, q: int)
    ensures ByteAt(200 * q + n3, 500) == 51 * q + ByteAt(n3, 500)
    ensures ByteAt(20 * q + n2, 50) == 51 * q + ByteAt(n2, 50)
    ensures ByteAt(2 * q + n1, 5) == 51 * q + ByteAt(n1, 5)
  {
  }

  lemma BoundariesRepeat(q: int, r: int)
    ensures FirstFrom(51 * q + r) == 2000 * q + FirstFrom(r) && LastUpTo(51 * q + r) == 2000 * q + LastUpTo(r)
  {
  }

  /** The boundary is more than half of a ten-thousandth past `c - 1` of them. */
  predicate HalfBelow(n: int, c: int) {
    51 * (2 * c - 1) < 2000 * (2 * n + 1)
  }

  /** It is no more than half of one past `f`. */
  predicate HalfAbove(n: int, f: int) {
    2000 * (2 * n + 1) <= 51 * (2 * f + 1)
  }

  lemma HalvesRepeat(q: int, r: int, d: int)
    ensures HalfBelow(51 * q + r, 2000 * q + d) <==> HalfBelow(r, d)
    ensures HalfAbove(51 * q + r, 2000 * q + d) <==> HalfAbove(r, d)
  {
  }

  lemma ResiduesRepeat(q: int, r: int)
    requires 0 <= r < 51
    ensures IsLifted(51 * q + r) <==> IsLifted(r)
    ensures IsLowered(51 * q + r) <==> IsLowered(r)
  {
    assert (51 * q + r) % 51 == r;
  }

  lemma QuotientsRepeat(q: int, d: int, a: int, b: int, c: int)
    ensures (2000 * q + d + a) / 10 == 200 * q + (d + a) / 10
    ensures (2000 * q + d + b) / 100 == 20 * q + (d + b) / 100
    ensures (2000 * q + d + c) / 1000 == 2 * q + (d + c) / 1000
  {
  }

  lemma LiftedBoundaries(n: int)
    ensures var c := FirstFrom(n);
      AllMiss((c + 4) / 10, (c + 49) / 100, (c + 499) / 1000, n) && HalfBelow(n, c) <==> IsLifted(n)
  {
    var q, r := n / 51, n % 51;
    LiftedAt(q, r, FirstFrom(r));
    assert n == 51 * q + r;
  }

  lemma LiftedAt(q: int, r: int, d: int)
    requires 0 <= r < 51 && d == FirstFrom(r)
    ensures var c := FirstFrom(51 * q + r);
      AllMiss((c + 4) / 10, (c + 49) / 100, (c + 499) / 1000, 51 * q + r) && HalfBelow(51 * q + r, c) <==>
        IsLifted(51 * q + r)
  {
    BoundariesRepeat(q, r);
    HalvesRepeat(q, r, d);
    ResiduesRepeat(q, r);
    QuotientsRepeat(q, d, 4, 49, 499);
    MissesRepeat((d + 4) / 10, (d + 49) / 100, (d + 499) / 1000, r, q);
    LiftedResidues(r, d);
  }

  lemma LoweredBoundaries(n: int)
    requires n % 51 != 25
    ensures var f := LastUpTo(n);
      AllMiss((f + 5) / 10, (f + 50) / 100, (f + 500) / 1000, n + 1) && HalfAbove(n, f) <==> IsLowered(n)
  {
    var q, r := n / 51, n % 51;
    LoweredAt(q, r, LastUpTo(r));
    assert n == 51 * q + r;
  }

  lemma LoweredAt(q: int, r: int, d: int)
    requires 0 <= r < 51 && r != 25 && d == LastUpTo(r)
    ensures var f := LastUpTo(51 * q + r);
      AllMiss((f + 5) / 10, (f + 50) / 100, (f + 500) / 1000, 51 * q + r + 1) && HalfAbove(51 * q + r, f) <==>
        IsLowered(51 * q + r)
  {
    BoundariesRepeat(q, r);
    HalvesRepeat(q, r, d);
    ResiduesRepeat(q, r);
    QuotientsRepeat(q, d, 5, 50, 500);
    MissesRepeat((d + 5) / 10, (d + 50) / 100, (d + 500) / 1000, r + 1, q);
    LoweredResidues(r, d);
  }

  /** Dividing less. */
  predicate Misses(units: int, half: int, byte: int) {
    255 * units + half < 2 * half * byte || 2 * half * (byte + 1) <= 255 * units + half
  }

  lemma MissesAre(units: int, byte: int)
    ensures ByteAt(units, 5) != byte <==> Misses(units, 5, byte)
    ensures ByteAt(units, 50) != byte <==> Misses(units, 50, byte)
    ensures ByteAt(units, 500) != byte <==> Misses(units, 500, byte)
  {
  }

  lemma AllMissIs(n3: int, n2: int, n1: int, byte: int)
    ensures AllMiss(n3, n2, n1, byte) <==> Misses(n3, 500, byte) && Misses(n2, 50, byte) && Misses(n1, 5, byte)
  {
    MissesAre(n3, byte);
    MissesAre(n2, byte);
    MissesAre(n1, byte);
  }

  lemma LiftedResidues(r: int, d: int)
    requires 0 <= r < 51 && d == FirstFrom(r)
    ensures AllMiss((d + 4) / 10, (d + 49) / 100, (d + 499) / 1000, r) && HalfBelow(r, d) <==> IsLifted(r)
  {
    var n3, n2, n1 := (d + 4) / 10, (d + 49) / 100, (d + 499) / 1000;
    AllMissIs(n3, n2, n1, r);
    LiftedOneByOne(r, d, n3, n2, n1);
  }

  lemma LiftedOneByOne(r: int, d: int, n3: int, n2: int, n1: int)
    requires 0 <= r < 51 && 1000 * (2 * r + 1) <= 51 * d < 1000 * (2 * r + 1) + 51
    requires 10 * n3 <= d + 4 < 10 * n3 + 10 && 100 * n2 <= d + 49 < 100 * n2 + 100
      && 1000 * n1 <= d + 499 < 1000 * n1 + 1000
    ensures Misses(n3, 500, r) && Misses(n2, 50, r) && Misses(n1, 5, r) && HalfBelow(r, d) <==>
      r == 1 || r == 14 || r == 25 || r == 29 || r == 42
  {
    match r
    case 0 => assert d == 20;
    case 1 => assert d == 59;
    case 2 => assert d == 99;
    case 3 => assert d == 138;
    case 4 => assert d == 177;
    case 5 => assert d == 216;
    case 6 => assert d == 255;
    case 7 => assert d == 295;
    case 8 => assert d == 334;
    case 9 => assert d == 373;
    case 10 => assert d == 412;
    case 11 => assert d == 451;
    case 12 => assert d == 491;
    case 13 => assert d == 530;
    case 14 => assert d == 569;
    case 15 => assert d == 608;
    case 16 => assert d == 648;
    case 17 => assert d == 687;
    case 18 => assert d == 726;
    case 19 => assert d == 765;
    case 20 => assert d == 804;
    case 21 => assert d == 844;
    case 22 => assert d == 883;
    case 23 => assert d == 922;
    case 24 => assert d == 961;
    case 25 => assert d == 1000;
    case 26 => assert d == 1040;
    case 27 => assert d == 1079;
    case 28 => assert d == 1118;
    case 29 => assert d == 1157;
    case 30 => assert d == 1197;
    case 31 => assert d == 1236;
    case 32 => assert d == 1275;
    case 33 => assert d == 1314;
    case 34 => assert d == 1353;
    case 35 => assert d == 1393;
    case 36 => assert d == 1432;
    case 37 => assert d == 1471;
    case 38 => assert d == 1510;
    case 39 => assert d == 1550;
    case 40 => assert d == 1589;
    case 41 => assert d == 1628;
    case 42 => assert d == 1667;
    case 43 => assert d == 1706;
    case 44 => assert d == 1746;
    case 45 => assert d == 1785;
    case 46 => assert d == 1824;
    case 47 => assert d == 1863;
    case 48 => assert d == 1902;
    case 49 => assert d == 1942;
    case 50 => assert d == 1981;
  }

  lemma LoweredResidues(r: int, d: int)
    requires 0 <= r < 51 && d == LastUpTo(r)
    ensures r == 25 ||
      (AllMiss((d + 5) / 10, (d + 50) / 100, (d + 500) / 1000, r + 1) && HalfAbove(r, d) <==> IsLowered(r))
  {
    var n3, n2, n1 := (d + 5) / 10, (d + 50) / 100, (d + 500) / 1000;
    AllMissIs(n3, n2, n1, r + 1);
    if r < 25 {
      LoweredBelow(r, d, n3, n2, n1);
    } else if r > 25 {
      LoweredAbove(r, d, n3, n2, n1);
    }
  }

  lemma LoweredBelow(r: int, d: int, n3: int, n2: int, n1: int)
    requires 0 <= r < 25 && 1000 * (2 * r + 1) - 50 <= 51 * d < 1000 * (2 * r + 1) - 50 + 51
    requires 10 * n3 <= d + 5 < 10 * n3 + 10 && 100 * n2 <= d + 50 < 100 * n2 + 100
      && 1000 * n1 <= d + 500 < 1000 * n1 + 1000
    ensures Misses(n3, 500, r + 1) && Misses(n2, 50, r + 1) && Misses(n1, 5, r + 1) && HalfAbove(r, d) <==>
      r == 8 || r == 21
  {
    match r
    case 0 => assert d == 19;
    case 1 => assert d == 58;
    case 2 => assert d == 98;
    case 3 => assert d == 137;
    case 4 => assert d == 176;
    case 5 => assert d == 215;
    case 6 => assert d == 254;
    case 7 => assert d == 294;
    case 8 => assert d == 333;
    case 9 => assert d == 372;
    case 10 => assert d == 411;
    case 11 => assert d == 450;
    case 12 => assert d == 490;
    case 13 => assert d == 529;
    case 14 => assert d == 568;
    case 15 => assert d == 607;
    case 16 => assert d == 647;
    case 17 => assert d == 686;
    case 18 => assert d == 725;
    case 19 => assert d == 764;
    case 20 => assert d == 803;
    case 21 => assert d == 843;
    case 22 => assert d == 882;
    case 23 => assert d == 921;
    case 24 => assert d == 960;
  }

  lemma LoweredAbove(r: int, d: int, n3: int, n2: int, n1: int)
    requires 25 < r < 51 && 1000 * (2 * r + 1) - 50 <= 51 * d < 1000 * (2 * r + 1) - 50 + 51
    requires 10 * n3 <= d + 5 < 10 * n3 + 10 && 100 * n2 <= d + 50 < 100 * n2 + 100
      && 1000 * n1 <= d + 500 < 1000 * n1 + 1000
    ensures Misses(n3, 500, r + 1) && Misses(n2, 50, r + 1) && Misses(n1, 5, r + 1) && HalfAbove(r, d) <==>
      r == 36 || r == 49
  {
    match r
    case 26 => assert d == 1039;
    case 27 => assert d == 1078;
    case 28 => assert d == 1117;
    case 29 => assert d == 1156;
    case 30 => assert d == 1196;
    case 31 => assert d == 1235;
    case 32 => assert d == 1274;
    case 33 => assert d == 1313;
    case 34 => assert d == 1352;
    case 35 => assert d == 1392;
    case 36 => assert d == 1431;
    case 37 => assert d == 1470;
    case 38 => assert d == 1509;
    case 39 => assert d == 1549;
    case 40 => assert d == 1588;
    case 41 => assert d == 1627;
    case 42 => assert d == 1666;
    case 43 => assert d == 1705;
    case 44 => assert d == 1745;
    case 45 => assert d == 1784;
    case 46 => assert d == 1823;
    case 47 => assert d == 1862;
    case 48 => assert d == 1901;
    case 49 => assert d == 1941;
    case 50 => assert d == 1980;
  }

  // ---- rounded to four decimals ----

  /** Alpha's place among half ten-thousandths: its byte, and the ten-thousandths it rounds to. */
  ghost predicate Placed(alpha: real, byte: int, units: int) {
    && (2000 * (2 * byte - 1)) as real <= 51.0 * (20000.0 * alpha) < (2000 * (2 * byte + 1)) as real
    && (2 * units - 1) as real <= 20000.0 * alpha <= (2 * units + 1) as real
    && (20000.0 * alpha == (2 * units - 1) as real || 20000.0 * alpha == (2 * units + 1) as real ==> units % 2 == 0)
  }

  lemma IsPlaced(alpha: real)
    requires Unit(alpha)
    ensures Placed(alpha, ByteOf(alpha), HalfEven(alpha * 10000.0))
  {
    var byte := ByteOf(alpha);
    assert byte as real - 0.5 <= alpha * 255.0 < byte as real + 0.5;
    var units := HalfEven(alpha * 10000.0);
    assert units as real - 0.5 <= alpha * 10000.0 <= units as real + 0.5;
  }

  lemma ByteAtFour(units: int, byte: int)
    ensures ByteAt(units, 5000) > byte <==> FirstFrom(byte) <= units
    ensures ByteAt(units, 5000) < byte <==> units < FirstFrom(byte - 1)
  {
    assert ByteAt(units, 5000) == (51 * units + 1000) / 2000;
  }

  /** The boundary after byte `n`, with the numbers of ten-thousandths around it. */
  predicate Around(n: int, f: int, c: int) {
    && 51 * f <= 1000 * (2 * n + 1) < 51 * f + 51 && 51 * c - 51 < 1000 * (2 * n + 1) <= 51 * c
    && c == if n % 51 == 25 then f else f + 1
  }

  lemma Neighbours(n: int)
    ensures Around(n, LastUpTo(n), FirstFrom(n))
  {
    var f, c := LastUpTo(n), FirstFrom(n);
    assert 51 * c - 51 < 1000 * (2 * n + 1) <= 51 * c;
    if 1000 * (2 * n + 1) == 51 * f {
      Meets(n, f);
    } else if n % 51 == 25 {
      Met(n, n / 51);
    }
  }

  /** 1000 is invertible modulo 51: 28 * 1000 == 549 * 51 + 1. */
  lemma Meets(n: int, t: int)
    requires 1000 * (2 * n + 1) == 51 * t
    ensures n % 51 == 25
  {
    var w := 28 * t - 549 * (2 * n + 1);
    assert 2 * n + 1 == 51 * w;
    assert n == 51 * (w / 2) + 25;
  }

  lemma Met(n: int, q: int)
    requires n == 51 * q + 25
    ensures LastUpTo(n) == FirstFrom(n)
  {
    BoundariesRepeat(q, 25);
    assert FirstFrom(25) == 1000 && LastUpTo(25) == 1000;
  }

  lemma EvenBoundaries(n: int)
    requires IsLifted(n)
    ensures FirstFrom(n) % 2 == 0 <==> n % 51 == 25
  {
    var q, r := n / 51, n % 51;
    assert n == 51 * q + r;
    BoundariesRepeat(q, r);
    EvenFirst(r, FirstFrom(r));
    SameParity(q, FirstFrom(r));
  }

  lemma EvenFirst(r: int, c: int)
    requires 1000 * (2 * r + 1) <= 51 * c < 1000 * (2 * r + 1) + 51
    requires r == 1 || r == 14 || r == 25 || r == 29 || r == 42
    ensures c % 2 == 0 <==> r == 25
  {
    assert c ==
      if r == 1 then 59 else if r == 14 then 569 else if r == 25 then 1000 else if r == 29 then 1157 else 1667;
  }

  lemma OddBoundaries(n: int)
    requires IsLowered(n)
    ensures LastUpTo(n) % 2 == 1
  {
    var q, r := n / 51, n % 51;
    assert n == 51 * q + r;
    BoundariesRepeat(q, r);
    OddLast(r, LastUpTo(r));
    SameParity(q, LastUpTo(r));
  }

  lemma OddLast(r: int, f: int)
    requires 51 * f <= 1000 * (2 * r + 1) < 51 * f + 51
    requires r == 8 || r == 21 || r == 36 || r == 49
    ensures f % 2 == 1
  {
    assert f == if r == 8 then 333 else if r == 21 then 843 else if r == 36 then 1431 else 1941;
  }

  lemma SameParity(q: int, d: int)
    ensures (2000 * q + d) % 2 == d % 2
  {
  }

  /** Whether alpha shifts, by what is known of the two boundaries of its byte. */
  predicate ShiftsAt(alpha: real, lifted: bool, central: bool, c: int, lowered: bool, f: int) {
    || (lifted && ((2 * c - 1) as real < 20000.0 * alpha || (central && (2 * c - 1) as real == 20000.0 * alpha)))
    || (lowered && 20000.0 * alpha < (2 * f + 1) as real)
  }

  lemma AlphaShiftsAt(alpha: real, byte: int)
    requires byte == ByteOf(alpha)
    ensures AlphaShifts(alpha) <==>
      ShiftsAt(alpha, IsLifted(byte), byte % 51 == 25, FirstFrom(byte), IsLowered(byte - 1), LastUpTo(byte - 1))
  {
  }

  lemma NotNear(alpha: real, byte: int, units: int, lifted: bool, central: bool, c: int, lowered: bool, f: int)
    requires Placed(alpha, byte, units) && f <= units < c && (units == f ==> !lowered)
    requires lowered ==> f % 2 == 1
    requires lifted ==> (c % 2 == 0 <==> central)
    ensures !ShiftsAt(alpha, lifted, central, c, lowered, f)
  {
  }

  lemma RoundedOver(alpha: real, byte: int, units: int, lifted: bool, central: bool, c: int, lowered: bool, f: int)
    requires Placed(alpha, byte, units) && c <= units && 51 * c - 51 < 1000 * (2 * byte + 1) <= 51 * c && f < c
    requires lifted ==> (c % 2 == 0 <==> central)
    ensures units == c && (2 * c - 1) as real <= 20000.0 * alpha < (2 * c) as real && HalfBelow(byte, c)
    ensures ShiftsAt(alpha, lifted, central, c, lowered, f) <==> lifted
  {
    assert 20000.0 * alpha < (2 * c) as real;
  }

  lemma RoundedUnder(alpha: real, byte: int, units: int, lifted: bool, central: bool, c: int, lowered: bool, f: int,
                     g: int)
    requires Placed(alpha, byte, units) && units < g <= f + 1 && f + 1 < c && (lowered ==> f % 2 == 1)
    requires 51 * f <= 1000 * (2 * byte - 1) <= 51 * g && 51 * g - 51 < 1000 * (2 * byte - 1)
    ensures g == f + 1 && units == f && (2 * f) as real < 20000.0 * alpha <= (2 * f + 1) as real
      && HalfAbove(byte - 1, f)
    ensures ShiftsAt(alpha, lifted, central, c, lowered, f) <==> lowered
  {
    assert (2 * f) as real <= 20000.0 * alpha;
    assert f <= units;
    assert g == f + 1 && units == f;
    assert 51 * f < 1000 * (2 * byte - 1);
  }

  lemma KeptUnlessShifting(alpha: real)
    requires Unit(alpha)
    ensures KeptAt(alpha, 1) || KeptAt(alpha, 2) || KeptAt(alpha, 3) || KeptAt(alpha, 4) <==> !AlphaShifts(alpha)
  {
    var byte, units := ByteOf(alpha), HalfEven(alpha * 10000.0);
    IsPlaced(alpha);
    KeptByUnits(alpha, 1);
    KeptByUnits(alpha, 2);
    KeptByUnits(alpha, 3);
    KeptByUnits(alpha, 4);
    ShortOfFour(alpha, byte, units);
  }

  lemma LiftedMisses(alpha: real, n: int, c: int)
    requires c == FirstFrom(n) && (2 * c - 1) as real <= 20000.0 * alpha < (2 * c) as real && HalfBelow(n, c)
    ensures AllMiss(HalfEven(alpha * 1000.0), HalfEven(alpha * 100.0), HalfEven(alpha * 10.0), n) <==> IsLifted(n)
  {
    RoundedBelow(alpha, c);
    LiftedBoundaries(n);
  }

  lemma LoweredMisses(alpha: real, n: int, f: int)
    requires f == LastUpTo(n) && n % 51 != 25 && HalfAbove(n, f)
    requires (2 * f) as real < 20000.0 * alpha <= (2 * f + 1) as real
    ensures AllMiss(HalfEven(alpha * 1000.0), HalfEven(alpha * 100.0), HalfEven(alpha * 10.0), n + 1) <==> IsLowered(n)
  {
    RoundedAbove(alpha, f);
    LoweredBoundaries(n);
  }

  lemma ShortOfFour(alpha: real, byte: int, units: int)
    requires Placed(alpha, byte, units) && byte == ByteOf(alpha)
    ensures ByteAt(units, 5000) == byte ==> !AlphaShifts(alpha)
    ensures ByteAt(units, 5000) != byte ==>
      (AllMiss(HalfEven(alpha * 1000.0), HalfEven(alpha * 100.0), HalfEven(alpha * 10.0), byte) <==> AlphaShifts(alpha))
  {
    var lifted, central, lowered := IsLifted(byte), byte % 51 == 25, IsLowered(byte - 1);
    AlphaShiftsAt(alpha, byte);
    Neighbours(byte);
    Neighbours(byte - 1);
    ByteAtFour(units, byte);
    if lifted {
      EvenBoundaries(byte);
    }
    if lowered {
      OddBoundaries(byte - 1);
    }
    BetweenBoundaries(alpha, byte, units, lifted, central, FirstFrom(byte), lowered, LastUpTo(byte - 1),
      FirstFrom(byte - 1));
  }

  lemma BetweenBoundaries(alpha: real, byte: int, units: int, lifted: bool, central: bool, c: int, lowered: bool,
                          f: int, g: int)
    requires Placed(alpha, byte, units) && c == FirstFrom(byte) && f == LastUpTo(byte - 1) && g == FirstFrom(byte - 1)
    requires Around(byte - 1, f, g) && 51 * c - 51 < 1000 * (2 * byte + 1) <= 51 * c
    requires lifted == IsLifted(byte) && lowered == IsLowered(byte - 1)
    requires (lifted ==> (c % 2 == 0 <==> central)) && (lowered ==> f % 2 == 1)
    ensures g <= units < c ==> !ShiftsAt(alpha, lifted, central, c, lowered, f)
    ensures units < g || c <= units ==>
      (AllMiss(HalfEven(alpha * 1000.0), HalfEven(alpha * 100.0), HalfEven(alpha * 10.0), byte)
       <==> ShiftsAt(alpha, lifted, central, c, lowered, f))
  {
    if c <= units {
      RoundedOver(alpha, byte, units, lifted, central, c, lowered, f);
      LiftedMisses(alpha, byte, c);
    } else if units < g {
      RoundedUnder(alpha, byte, units, lifted, central, c, lowered, f, g);
      LoweredMisses(alpha, byte - 1, f);
    } else {
      NotNear(alpha, byte, units, lifted, central, c, lowered, f);
    }
  }

  // ---- the loop over precisions ----

  lemma ReadsAsRounded(alpha: real, d: nat, number: NumberReader)
    requires Unit(alpha) && Faithful(number)
    ensures ReadsAsByte(FormatDouble(alpha, d), ByteOf(alpha), number) <==> KeptAt(alpha, d)
  {
    ReadsAlone(number, Units(alpha, d), d);
  }

  /** The loop finds a precision that keeps the byte if there is one. */
  lemma {:induction false} PlacesKeep(alpha: real, d: nat, last: nat, k: nat, number: NumberReader)
    requires Unit(alpha) && Faithful(number) && d <= k <= last && KeptAt(alpha, k)
    ensures KeptAt(alpha, PlacesFrom(alpha, d, last, number))
    decreases last - d
  {
    ReadsAsRounded(alpha, d, number);
    if d < last && !ReadsAsByte(FormatDouble(alpha, d), ByteOf(alpha), number) {
      PlacesKeep(alpha, d + 1, last, k, number);
    }
  }

  /**
   Over exact reals, an alpha in range reads back as another byte exactly if it stands before the end of a byte
   numbered 1, 14, 25, 29 or 42 modulo 51, or after the start of one numbered 9, 22, 37 or 50, nearer to the
   number of ten-thousandths across that boundary than to the one on its own side.
   */
  lemma AlphaSurvivesExactly(alpha: real, number: NumberReader)
    requires Unit(alpha) && Faithful(number)
    ensures ByteOf(ReadAlpha(alpha, number)) == ByteOf(alpha) <==> !AlphaShifts(alpha)
  {
    KeptUnlessShifting(alpha);
    forall k: nat | 1 <= k <= 4 && KeptAt(alpha, k) ensures KeptAt(alpha, AlphaPlaces(alpha, number)) {
      PlacesKeep(alpha, 1, 4, k, number);
    }
    assert KeptAt(alpha, AlphaPlaces(alpha, number)) <==> ByteOf(ReadAlpha(alpha, number)) == ByteOf(alpha);
  }

  // ---- what that spares, and one it does not ----

  lemma NotNearEither(alpha: real)
    requires (2 * LastUpTo(ByteOf(alpha) - 1) + 1) as real <= 20000.0 * alpha <
      (2 * FirstFrom(ByteOf(alpha)) - 1) as real
    ensures !AlphaShifts(alpha)
  {
    AlphaShiftsAt(alpha, ByteOf(alpha));
  }

  /** An alpha that is exactly a byte is printed so that it reads back as that byte. */
  lemma AlphaByteSurvives(alpha: real, number: NumberReader)
    requires Unit(alpha) && GridChannel(alpha) && Faithful(number)
    ensures ByteOf(ReadAlpha(alpha, number)) == ByteOf(alpha)
  {
    AlphaSurvivesExactly(alpha, number);
    var byte := ByteOf(alpha);
    Neighbours(byte);
    Neighbours(byte - 1);
    ByteInside(alpha, byte, LastUpTo(byte - 1), FirstFrom(byte));
    NotNearEither(alpha);
  }

  lemma ByteInside(alpha: real, byte: int, f: int, c: int)
    requires alpha * 255.0 == byte as real && 51 * f <= 1000 * (2 * byte - 1) && 1000 * (2 * byte + 1) <= 51 * c
    ensures (2 * f + 1) as real <= 20000.0 * alpha < (2 * c - 1) as real
  {
  }

  /** So is one with at most four decimals. */
  lemma FourDecimalsSurvive(alpha: real, units: nat, number: NumberReader)
    requires Unit(alpha) && alpha * 10000.0 == units as real && Faithful(number)
    ensures ByteOf(ReadAlpha(alpha, number)) == ByteOf(alpha)
  {
    AlphaSurvivesExactly(alpha, number);
    IsPlaced(alpha);
    HalfEvenIs(alpha * 10000.0, units);
    FourDecimalsByte(alpha, units);
    ShortOfFour(alpha, ByteOf(alpha), units);
  }

  lemma FourDecimalsByte(alpha: real, units: nat)
    requires alpha * 10000.0 == units as real
    ensures ByteOf(alpha) == ByteAt(units, 5000)
  {
    assert alpha == units as real / 10000.0;
    UnitsByte(units, 5000, alpha);
  }

  const NEARLY_HALF: real := 0.49999

  /** This one is byte 127, and every precision prints 0.5, which is 128. */
  lemma NearlyHalfShifts(number: NumberReader)
    requires Faithful(number)
    ensures ByteOf(NEARLY_HALF) == 127 && ByteOf(ReadAlpha(NEARLY_HALF, number)) != 127
  {
    AlphaSurvivesExactly(NEARLY_HALF, number);
    assert FirstFrom(127) == 5000;
    AlphaShiftsAt(NEARLY_HALF, 127);
  }
}
