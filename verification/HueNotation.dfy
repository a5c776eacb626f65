/**
 The numbers hsl() and hwb() presentations print (Source/Editor/ColorLiteral.cpp:528-573, 736-754), and
 whether accepting one keeps the colour it was offered for. `double` is an exact real here.
 */
module HueNotation {
  import opened ColorSpace

  // ---- rounding ----

  /** std::round and std::lround: halves go away from zero. */
  function Round(x: real): int {
    if x >= 0.0 then (x + 0.5).Floor else -(0.5 - x).Floor
  }

  /** printf's %.0f of an exactly represented value: halves go to the even neighbour. */
  function HalfEven(x: real): int {
    var below := x.Floor;
    var past := x - below as real;
    if past < 0.5 || (past == 0.5 && below % 2 == 0) then below else below + 1
  }

  /** printf's %.2f. */
  function TwoDecimals(x: real): real {
    HalfEven(x * 100.0) as real / 100.0
  }

  function ByteOf(channel: real): int {
    Round(channel * 255.0)
  }

  predicate SameBytes(a: ColorValue, b: ColorValue) {
    ByteOf(a.red) == ByteOf(b.red) && ByteOf(a.green) == ByteOf(b.green) && ByteOf(a.blue) == ByteOf(b.blue)
  }

  /** Exactly an 8-bit colour. */
  predicate OnGrid(c: ColorValue) {
    InGamut(c) && GridChannel(c.red) && GridChannel(c.green) && GridChannel(c.blue)
  }

  predicate GridChannel(x: real) {
    x * 255.0 == ByteOf(x) as real
  }

  // ---- what is printed ----

  /** Hue in degrees, and saturation and lightness, or whiteness and blackness, as fractions. */
  datatype HueComponents = HueComponents(hue: real, first: real, second: real)

  function ComponentsOf(c: ColorValue, isHwb: bool): HueComponents
    requires InGamut(c)
  {
    var hsl := RgbToHsl(c);
    if isHwb then HueComponents(hsl.hue, Min3(c.red, c.green, c.blue), 1.0 - Max3(c.red, c.green, c.blue))
    else HueComponents(hsl.hue, hsl.saturation, hsl.lightness)
  }

  /** The colour a reader of these components sees. */
  function ReadBack(parts: HueComponents, isHwb: bool, alpha: real): ColorValue {
    if isHwb then HwbToRgb(parts.hue, parts.first, parts.second, alpha)
    else HslToRgb(HslColor(parts.hue, parts.first, parts.second, alpha))
  }

  /** The whole-number components the check reads back. */
  function Checked(parts: HueComponents): HueComponents {
    HueComponents(Round(parts.hue) as real, Round(parts.first * 100.0) as real / 100.0,
      Round(parts.second * 100.0) as real / 100.0)
  }

  predicate RoundTripsAtWholeNumbers(c: ColorValue, parts: HueComponents, isHwb: bool) {
    SameBytes(ReadBack(Checked(parts), isHwb, c.alpha), c)
  }

  /** The components the text carries: whole numbers when the check passed, two decimals when it did not. */
  function Printed(c: ColorValue, parts: HueComponents, isHwb: bool): HueComponents {
    if RoundTripsAtWholeNumbers(c, parts, isHwb) then PrintedWhole(parts) else PrintedFine(parts)
  }

  function PrintedWhole(parts: HueComponents): HueComponents {
    HueComponents(Round(parts.hue) as real, HalfEven(parts.first * 100.0) as real / 100.0,
      HalfEven(parts.second * 100.0) as real / 100.0)
  }

  function PrintedFine(parts: HueComponents): HueComponents {
    HueComponents(TwoDecimals(parts.hue), TwoDecimals(parts.first * 100.0) / 100.0,
      TwoDecimals(parts.second * 100.0) / 100.0)
  }

  /** The presentation reads back as the same 8-bit colour. */
  predicate KeepsColor(c: ColorValue, isHwb: bool)
    requires InGamut(c)
  {
    SameBytes(ReadBack(Printed(c, ComponentsOf(c, isHwb), isHwb), isHwb, c.alpha), c)
  }

  // ---- how far two decimals can be off ----

  predicate Within(x: real, e: real) {
    -e <= x <= e
  }

  predicate Close(x: real, y: real, e: real) {
    Within(x - y, e)
  }

  predicate ChannelsClose(a: ColorValue, b: ColorValue, e: real) {
    Close(a.red, b.red, e) && Close(a.green, b.green, e) && Close(a.blue, b.blue, e)
  }

  lemma HalfEvenIsClose(x: real)
    ensures Close(HalfEven(x) as real, x, 0.5)
  {
  }

  lemma HalfEvenInRange(x: real, n: nat)
    requires 0.0 <= x <= n as real
    ensures 0 <= HalfEven(x) <= n
  {
  }

  lemma TwoDecimalsAreClose(x: real)
    ensures Close(TwoDecimals(x), x, 0.005)
  {
    HalfEvenIsClose(x * 100.0);
  }

  /** The tent rises and falls by at most six per turn, over the range the channels look at. */
  lemma TentIsSteepBySix(a: real, b: real)
    requires -1.0 / 3.0 <= a <= 4.0 / 3.0 && -1.0 / 3.0 <= b <= 4.0 / 3.0
    ensures a <= b ==> Within(Tent(a) - Tent(b), 6.0 * (b - a))
    ensures 0.0 <= Tent(a) <= 1.0
  {
  }

  /** A printed hue of 360 degrees reads as 0, where the tents agree. */
  lemma TentsOfPrintedHue(hue: real)
    requires 0.0 <= hue <= 360.0
    ensures PureHue(Turn(hue), 1.0) == PureHue(hue / 360.0, 1.0)
  {
    if hue < 360.0 {
      TurnOfHue(hue);
    } else {
      assert Turn(360.0) == 0.0;
    }
  }

  lemma SpreadIsClose(s: real, l: real, s': real, l': real)
    requires Unit(s) && Unit(l) && Unit(s') && Unit(l')
    requires Close(s', s, 0.00005) && Close(l', l, 0.00005)
    ensures Close(Spread(s', l'), Spread(s, l), 0.000075) && 0.0 <= Spread(s, l) <= 0.5
  {
    ReachOf(l, l');
    ProductsClose(s, Reach(l), s', Reach(l'));
  }

  function Reach(l: real): real {
    if l < 0.5 then l else 1.0 - l
  }

  lemma ReachOf(l: real, l': real)
    requires Unit(l) && Unit(l') && Close(l', l, 0.00005)
    ensures 0.0 <= Reach(l) <= 0.5 && 0.0 <= Reach(l') <= 0.5 && Close(Reach(l'), Reach(l), 0.00005)
  {
  }

  lemma ProductsClose(x: real, y: real, x': real, y': real)
    requires Unit(x) && 0.0 <= y <= 0.5 && 0.0 <= y' <= 0.5
    requires Close(x', x, 0.00005) && Close(y', y, 0.00005)
    ensures Close(x' * y', x * y, 0.000075) && 0.0 <= x * y <= 0.5
  {
    Bounded(x' - x, y', 0.00005, 0.5);
    Bounded(y' - y, x, 0.00005, 1.0);
    Bounded(y, x, 0.5, 1.0);
    Regrouped(x, y, x', y');
    AbsOfSum(x' * y' - x * y, (x' - x) * y', (y' - y) * x, 0.000025, 0.00005);
    NonNegative(x, y);
  }

  /** A product moves by what its factors move. */
  lemma Regrouped(x: real, y: real, x': real, y': real)
    ensures x' * y' - x * y == (x' - x) * y' + (y' - y) * x
  {
  }

  lemma AbsOfSum(sum: real, a: real, b: real, ea: real, eb: real)
    requires sum == a + b && Within(a, ea) && Within(b, eb)
    ensures Within(sum, ea + eb)
  {
  }

  lemma NonNegative(x: real, y: real)
    requires x >= 0.0 && y >= 0.0
    ensures x * y >= 0.0 && x * y == y * x
  {
  }

  lemma Monotone(a: real, b: real, factor: real)
    requires a <= b && factor >= 0.0
    ensures a * factor <= b * factor
  {
    NonNegative(b - a, factor);
    assert (b - a) * factor == b * factor - a * factor;
  }

  lemma Bounded(d: real, factor: real, e: real, top: real)
    requires Within(d, e) && 0.0 <= factor <= top
    ensures Within(d * factor, e * top)
  {
    Monotone(d, e, factor);
    Monotone(-e, d, factor);
    Monotone(factor, top, e);
    assert (-e) * factor == -(e * factor);
  }

  lemma ChannelIsClose(l: real, m: real, t: real, l': real, m': real, t': real)
    requires 0.0 <= m <= 0.5 && 0.0 <= t <= 1.0 && 0.0 <= t' <= 1.0
    requires Close(l', l, 0.00005) && Close(m', m, 0.000075) && Close(t', t, 1.0 / 12000.0)
    ensures Close(Channel(l', m', t'), Channel(l, m, t), 0.001)
  {
    SwingsClose(m, 2.0 * t - 1.0, m', 2.0 * t' - 1.0);
    AbsOfSum(Channel(l', m', t') - Channel(l, m, t), l' - l, m' * (2.0 * t' - 1.0) - m * (2.0 * t - 1.0), 0.00005,
      0.00016);
  }

  lemma SwingsClose(m: real, u: real, m': real, u': real)
    requires 0.0 <= m <= 0.5 && Within(u, 1.0) && Within(u', 1.0)
    requires Close(m', m, 0.000075) && Close(u', u, 1.0 / 6000.0)
    ensures Within(m' * u' - m * u, 0.00016)
  {
    Signed(m' - m, u', 0.000075);
    Bounded(u' - u, m, 1.0 / 6000.0, 0.5);
    Regrouped(m, u, m', u');
    AbsOfSum(m' * u' - m * u, (m' - m) * u', (u' - u) * m, 0.000075, 1.0 / 12000.0);
  }

  lemma Signed(d: real, u: real, e: real)
    requires Within(d, e) && Within(u, 1.0)
    ensures Within(d * u, e)
  {
    if u >= 0.0 {
      Bounded(d, u, e, 1.0);
    } else {
      Bounded(d, 0.0 - u, e, 1.0);
      assert d * (0.0 - u) == 0.0 - d * u;
    }
  }

  lemma TentIsClose(hue: real, hue': real, offset: real)
    requires 0.0 <= hue <= 360.0 && 0.0 <= hue' <= 360.0 && Close(hue', hue, 0.005)
    requires -1.0 / 3.0 <= offset <= 1.0 / 3.0
    ensures Close(Tent(hue' / 360.0 + offset), Tent(hue / 360.0 + offset), 1.0 / 12000.0)
    ensures 0.0 <= Tent(hue / 360.0 + offset) <= 1.0 && 0.0 <= Tent(hue' / 360.0 + offset) <= 1.0
  {
    var a, b := hue' / 360.0 + offset, hue / 360.0 + offset;
    TentIsSteepBySix(a, b);
    TentIsSteepBySix(b, a);
  }

  lemma TentsAreClose(hue: real, l: real, m: real, hue': real, l': real, m': real, alpha: real)
    requires 0.0 <= hue <= 360.0 && 0.0 <= hue' <= 360.0 && Close(hue', hue, 0.005)
    requires 0.0 <= m <= 0.5 && Close(l', l, 0.00005) && Close(m', m, 0.000075)
    ensures ChannelsClose(Tents(hue' / 360.0, l', m', alpha), Tents(hue / 360.0, l, m, alpha), 0.001)
  {
    TentIsClose(hue, hue', 1.0 / 3.0);
    TentIsClose(hue, hue', 0.0);
    TentIsClose(hue, hue', -1.0 / 3.0);
    ChannelIsClose(l, m, Tent(hue / 360.0 + 1.0 / 3.0), l', m', Tent(hue' / 360.0 + 1.0 / 3.0));
    ChannelIsClose(l, m, Tent(hue / 360.0 + 0.0), l', m', Tent(hue' / 360.0 + 0.0));
    ChannelIsClose(l, m, Tent(hue / 360.0 + -1.0 / 3.0), l', m', Tent(hue' / 360.0 + -1.0 / 3.0));
  }

  /** What two decimals leave of a fraction and of a hue. */
  lemma FineParts(parts: HueComponents)
    requires 0.0 <= parts.hue <= 360.0 && Unit(parts.first) && Unit(parts.second)
    ensures var fine := PrintedFine(parts);
      && 0.0 <= fine.hue <= 360.0 && Close(fine.hue, parts.hue, 0.005)
      && Unit(fine.first) && Close(fine.first, parts.first, 0.00005)
      && Unit(fine.second) && Close(fine.second, parts.second, 0.00005)
  {
    TwoDecimalsAreClose(parts.hue);
    TwoDecimalsAreClose(parts.first * 100.0);
    TwoDecimalsAreClose(parts.second * 100.0);
    HalfEvenInRange(parts.hue * 100.0, 36000);
    HalfEvenInRange(parts.first * 100.0 * 100.0, 10000);
    HalfEvenInRange(parts.second * 100.0 * 100.0, 10000);
  }

  lemma HslParts(c: ColorValue)
    requires InGamut(c)
    ensures var hsl := RgbToHsl(c);
      && 0.0 <= hsl.hue < 360.0 && Unit(hsl.saturation) && Unit(hsl.lightness)
      && c == Tents(hsl.hue / 360.0, hsl.lightness, Spread(hsl.saturation, hsl.lightness), c.alpha)
  {
    var max, min := Max3(c.red, c.green, c.blue), Min3(c.red, c.green, c.blue);
    var hsl := RgbToHsl(c);
    if max > min {
      HueIsTurn(c);
      SpreadOfChannels(max, min);
    }
    TurnOfHue(hsl.hue);
    HslRoundTrip(c);
    HslIsTents(hsl.hue / 360.0, hsl.saturation, hsl.lightness, c.alpha);
  }

  /** An hsl() with two decimals reads back within a thousandth of the colour, channel by channel. */
  lemma FineHslIsClose(c: ColorValue)
    requires InGamut(c)
    ensures ChannelsClose(ReadBack(PrintedFine(ComponentsOf(c, false)), false, c.alpha), c, 0.001)
  {
    var hsl, parts := RgbToHsl(c), ComponentsOf(c, false);
    HslParts(c);
    FineParts(parts);
    var fine := PrintedFine(parts);
    TentsOfPrintedHue(fine.hue);
    HslIsTents(Turn(fine.hue), fine.first, fine.second, c.alpha);
    PrintedTents(fine, c.alpha);
    SpreadIsClose(hsl.saturation, hsl.lightness, fine.first, fine.second);
    TentsAreClose(hsl.hue, hsl.lightness, Spread(hsl.saturation, hsl.lightness),
                  fine.hue, fine.second, Spread(fine.first, fine.second), c.alpha);
  }

  lemma PrintedTents(fine: HueComponents, alpha: real)
    requires PureHue(Turn(fine.hue), 1.0) == PureHue(fine.hue / 360.0, 1.0)
    ensures Tents(Turn(fine.hue), fine.second, Spread(fine.first, fine.second), alpha)
         == Tents(fine.hue / 360.0, fine.second, Spread(fine.first, fine.second), alpha)
  {
    PureTents(Turn(fine.hue), fine.second, Spread(fine.first, fine.second), alpha);
    PureTents(fine.hue / 360.0, fine.second, Spread(fine.first, fine.second), alpha);
  }

  lemma PureTents(t: real, l: real, m: real, alpha: real)
    ensures var pure := PureHue(t, 1.0);
      Tents(t, l, m, alpha) ==
        ColorValue(Channel(l, m, pure.red), Channel(l, m, pure.green), Channel(l, m, pure.blue), alpha)
  {
  }

  /** Within a thousandth of a colour on the 8-bit grid, every channel rounds to the same byte. */
  lemma GridIsKept(c: ColorValue, c': ColorValue)
    requires OnGrid(c) && ChannelsClose(c', c, 0.001)
    ensures SameBytes(c', c)
  {
    GridChannelIsKept(c.red, c'.red);
    GridChannelIsKept(c.green, c'.green);
    GridChannelIsKept(c.blue, c'.blue);
  }

  lemma GridChannelIsKept(x: real, x': real)
    requires GridChannel(x) && x >= 0.0 && Close(x', x, 0.001)
    ensures ByteOf(x') == ByteOf(x)
  {
    var k := ByteOf(x);
    assert k as real - 0.5 < x' * 255.0 < k as real + 0.5;
  }

  // ---- the same for hwb() ----

  lemma HwbParts(c: ColorValue)
    requires InGamut(c)
    ensures var max, min, hue := Max3(c.red, c.green, c.blue), Min3(c.red, c.green, c.blue), RgbToHsl(c).hue;
      && 0.0 <= hue < 360.0 && c == ScaledTents(hue / 360.0, min, max - min, c.alpha)
  {
    var max, min := Max3(c.red, c.green, c.blue), Min3(c.red, c.green, c.blue);
    if max > min {
      TentsOfSextant(c);
      HueIsTurn(c);
      TurnOfHue(RgbToHsl(c).hue);
      ScaledTentsAreChannels(c, max, min, Sextant(c) / 6.0);
    } else {
      ScaledIs(c, PureHue(0.0, c.alpha), 0.0, min);
    }
  }

  lemma ScaledChannelIsClose(w: real, scale: real, t: real, w': real, scale': real, t': real)
    requires Unit(scale') && Unit(t)
    requires Close(w', w, 0.00005) && Close(scale', scale, 0.0001) && Close(t', t, 1.0 / 12000.0)
    ensures Close(t' * scale' + w', t * scale + w, 0.001)
  {
    SharesClose(t, scale, t', scale', 1.0 / 12000.0, 0.0001);
    AbsOfSum((t' * scale' + w') - (t * scale + w), t' * scale' - t * scale, w' - w, 1.0 / 12000.0 + 0.0001, 0.00005);
  }

  lemma SharesClose(t: real, scale: real, t': real, scale': real, e: real, e': real)
    requires Unit(scale') && Unit(t)
    requires Within(t' - t, e) && Within(scale' - scale, e')
    ensures Within(t' * scale' - t * scale, e + e')
  {
    Signed(t' - t, scale', e);
    Signed(scale' - scale, t, e');
    Regrouped(t, scale, t', scale');
    AbsOfSum(t' * scale' - t * scale, (t' - t) * scale', (scale' - scale) * t, e, e');
  }

  lemma ScaledTentsAreClose(hue: real, w: real, scale: real, hue': real, w': real, scale': real, alpha: real)
    requires 0.0 <= hue <= 360.0 && 0.0 <= hue' <= 360.0 && Close(hue', hue, 0.005)
    requires Unit(scale') && Close(w', w, 0.00005) && Close(scale', scale, 0.0001)
    ensures ChannelsClose(ScaledTents(hue' / 360.0, w', scale', alpha), ScaledTents(hue / 360.0, w, scale, alpha),
      0.001)
  {
    TentIsClose(hue, hue', 1.0 / 3.0);
    TentIsClose(hue, hue', 0.0);
    TentIsClose(hue, hue', -1.0 / 3.0);
    ScaledIsClose(PureHue(hue / 360.0, alpha), w, scale, PureHue(hue' / 360.0, alpha), w', scale');
  }

  lemma ScaledIsClose(pure: ColorValue, w: real, scale: real, pure': ColorValue, w': real, scale': real)
    requires InGamut(pure) && ChannelsClose(pure', pure, 1.0 / 12000.0)
    requires Unit(scale') && Close(w', w, 0.00005) && Close(scale', scale, 0.0001)
    ensures ChannelsClose(Scaled(pure', scale', w'), Scaled(pure, scale, w), 0.001)
  {
    forall t, t' | Unit(t) && Close(t', t, 1.0 / 12000.0)
      ensures Close(Scaler(scale', w')(t'), Scaler(scale, w)(t), 0.001) {
      ScaledChannelIsClose(w, scale, t, w', scale', t');
    }
    OnChannelsClose(pure, Scaler(scale, w), pure', Scaler(scale', w'));
  }

  lemma OnChannelsClose(c: ColorValue, f: real -> real, c': ColorValue, f': real -> real)
    requires forall t, t' :: Unit(t) && Close(t', t, 1.0 / 12000.0) ==> Close(f'(t'), f(t), 0.001)
    requires InGamut(c) && ChannelsClose(c', c, 1.0 / 12000.0)
    ensures ChannelsClose(OnChannels(c', f'), OnChannels(c, f), 0.001)
  {
  }

  /** Rounding may push a colour that is almost grey over the edge; it reads back as a grey next to it. */
  lemma NearlyGreyIsClose(w: real, b: real, channel: real, w': real, b': real)
    requires Unit(w') && Close(w', w, 0.00005) && Close(b', b, 0.00005)
    requires w' + b' >= 1.0 && w <= channel <= 1.0 - b
    ensures Close(w' / (w' + b'), channel, 0.001)
  {
    var s := w' + b';
    var grey := w' / s;
    assert grey * s == w';
    if grey < 0.0 {
      NegativeProduct(grey, s);
    } else if grey > 1.0 {
      NegativeProduct(1.0 - grey, s);
      assert (1.0 - grey) * s == s - w';
    }
    Signed(s - 1.0, grey, 0.0001);
    GreyBetween(w, b, channel, w', s, grey, (s - 1.0) * grey);
  }

  lemma GreyBetween(w: real, b: real, channel: real, w': real, s: real, grey: real, gap: real)
    requires Close(w', w, 0.00005) && 1.0 <= s <= 1.0001 && Close(s - w', b, 0.00005)
    requires w <= channel <= 1.0 - b
    requires Within(gap, 0.0001) && w' - grey == gap
    ensures Close(grey, channel, 0.001)
  {
  }

  lemma NegativeProduct(x: real, y: real)
    requires x < 0.0 && y > 0.0
    ensures x * y < 0.0
  {
  }

  /** An hwb() with two decimals reads back within a thousandth of the colour, channel by channel. */
  lemma FineHwbIsClose(c: ColorValue)
    requires InGamut(c)
    ensures ChannelsClose(ReadBack(PrintedFine(ComponentsOf(c, true)), true, c.alpha), c, 0.001)
  {
    HwbParts(c);
    FineParts(ComponentsOf(c, true));
    GreyedOrColored(c, ComponentsOf(c, true), PrintedFine(ComponentsOf(c, true)));
  }

  lemma GreyedOrColored(c: ColorValue, parts: HueComponents, fine: HueComponents)
    requires 0.0 <= parts.hue <= 360.0 && 0.0 <= fine.hue <= 360.0 && Close(fine.hue, parts.hue, 0.005)
    requires Unit(fine.first) && Unit(fine.second)
    requires Close(fine.first, parts.first, 0.00005) && Close(fine.second, parts.second, 0.00005)
    requires parts.first <= c.red <= 1.0 - parts.second && parts.first <= c.green <= 1.0 - parts.second
    requires parts.first <= c.blue <= 1.0 - parts.second
    requires c == ScaledTents(parts.hue / 360.0, parts.first, 1.0 - parts.second - parts.first, c.alpha)
    ensures ChannelsClose(HwbToRgb(fine.hue, fine.first, fine.second, c.alpha), c, 0.001)
  {
    if fine.first + fine.second >= 1.0 {
      GreyedIsClose(c, parts, fine);
    } else {
      ColoredIsClose(c, parts, fine);
    }
  }

  lemma GreyedIsClose(c: ColorValue, parts: HueComponents, fine: HueComponents)
    requires Unit(fine.first) && fine.first + fine.second >= 1.0
    requires Close(fine.first, parts.first, 0.00005) && Close(fine.second, parts.second, 0.00005)
    requires parts.first <= c.red <= 1.0 - parts.second && parts.first <= c.green <= 1.0 - parts.second
    requires parts.first <= c.blue <= 1.0 - parts.second
    ensures ChannelsClose(HwbToRgb(fine.hue, fine.first, fine.second, c.alpha), c, 0.001)
  {
    NearlyGreyIsClose(parts.first, parts.second, c.red, fine.first, fine.second);
    NearlyGreyIsClose(parts.first, parts.second, c.green, fine.first, fine.second);
    NearlyGreyIsClose(parts.first, parts.second, c.blue, fine.first, fine.second);
  }

  lemma ColoredIsClose(c: ColorValue, parts: HueComponents, fine: HueComponents)
    requires 0.0 <= parts.hue <= 360.0 && 0.0 <= fine.hue <= 360.0 && Close(fine.hue, parts.hue, 0.005)
    requires Unit(fine.first) && Unit(fine.second) && fine.first + fine.second < 1.0
    requires Close(fine.first, parts.first, 0.00005) && Close(fine.second, parts.second, 0.00005)
    requires c == ScaledTents(parts.hue / 360.0, parts.first, 1.0 - parts.second - parts.first, c.alpha)
    ensures ChannelsClose(HwbToRgb(fine.hue, fine.first, fine.second, c.alpha), c, 0.001)
  {
    TentsOfPrintedHue(fine.hue);
    HwbIsTents(fine.hue, fine.first, fine.second, c.alpha);
    PureScaled(Turn(fine.hue), fine.hue / 360.0, fine.first, 1.0 - fine.first - fine.second, c.alpha);
    ScaledTentsAreClose(parts.hue, parts.first, 1.0 - parts.second - parts.first,
                        fine.hue, fine.first, 1.0 - fine.first - fine.second, c.alpha);
  }

  lemma PureScaled(t: real, t': real, w: real, scale: real, alpha: real)
    requires PureHue(t, 1.0) == PureHue(t', 1.0)
    ensures ScaledTents(t, w, scale, alpha) == ScaledTents(t', w, scale, alpha)
  {
    assert PureHue(t, alpha) == PureHue(t, 1.0).(alpha := alpha);
    assert PureHue(t', alpha) == PureHue(t', 1.0).(alpha := alpha);
  }

  // ---- the promise: accepting a presentation never shifts the colour ----

  /** With two decimals it holds for every 8-bit colour, in both notations. */
  lemma FineKeepsColor(c: ColorValue, isHwb: bool)
    requires OnGrid(c)
    ensures SameBytes(ReadBack(PrintedFine(ComponentsOf(c, isHwb)), isHwb, c.alpha), c)
  {
    FineIsClose(c, isHwb);
    GridIsKept(c, ReadBack(PrintedFine(ComponentsOf(c, isHwb)), isHwb, c.alpha));
  }

  /** `x` lies exactly between two whole numbers. */
  predicate Tie(x: real) {
    x - x.Floor as real == 0.5
  }

  /** Only a tie over an even number is printed differently from how it was checked. */
  lemma RoundingsAgree(x: real)
    requires x >= 0.0
    ensures HalfEven(x) == Round(x) <==> !(Tie(x) && x.Floor % 2 == 0)
    ensures HalfEven(x) != Round(x) ==> HalfEven(x) == x.Floor && Round(x) == x.Floor + 1
  {
    if x - x.Floor as real < 0.5 {
      assert (x + 0.5).Floor == x.Floor;
    } else {
      assert (x + 0.5).Floor == x.Floor + 1;
    }
  }

  /** On the 8-bit grid no percentage of a channel, nor of the mean of two, is a tie. */
  lemma NoGridTies(n: nat, x: real)
    requires x * 255.0 == n as real * 100.0 || x * 510.0 == n as real * 100.0
    ensures !Tie(x)
  {
    OddIsNotEven(x.Floor, n);
    assert Tie(x) ==> x * 510.0 == (510 * x.Floor + 255) as real;
  }

  lemma OddIsNotEven(k: int, n: nat)
    ensures 510 * k + 255 != 200 * n && 510 * k + 255 != 100 * n
  {
  }

  /** Where no component is an even tie, the text carries what was checked. */
  lemma KeptWhenRoundingsAgree(c: ColorValue, isHwb: bool)
    requires OnGrid(c)
    requires PrintedWhole(ComponentsOf(c, isHwb)) == Checked(ComponentsOf(c, isHwb))
    ensures KeepsColor(c, isHwb)
  {
    var parts := ComponentsOf(c, isHwb);
    if !RoundTripsAtWholeNumbers(c, parts, isHwb) {
      FineKeepsColor(c, isHwb);
    }
  }

  predicate NoEvenTie(x: real) {
    !(Tie(x) && x.Floor % 2 == 0)
  }

  lemma CheckedIsPrinted(parts: HueComponents)
    requires parts.first >= 0.0 && parts.second >= 0.0
    requires NoEvenTie(parts.first * 100.0) && NoEvenTie(parts.second * 100.0)
    ensures PrintedWhole(parts) == Checked(parts)
  {
    RoundingsAgree(parts.first * 100.0);
    RoundingsAgree(parts.second * 100.0);
  }

  /** hwb() keeps its promise for every 8-bit colour: none of its percentages can be a tie. */
  lemma HwbNeverShifts(c: ColorValue)
    requires OnGrid(c)
    ensures KeepsColor(c, true)
  {
    GridPercent(Min3(c.red, c.green, c.blue));
    GridPercent(Max3(c.red, c.green, c.blue));
    CheckedIsPrinted(ComponentsOf(c, true));
    KeptWhenRoundingsAgree(c, true);
  }

  lemma GridPercent(x: real)
    requires Unit(x) && GridChannel(x)
    ensures !Tie(x * 100.0) && !Tie((1.0 - x) * 100.0)
  {
    var n := ByteOf(x);
    NoGridTies(n, x * 100.0);
    NoGridTies(255 - n, (1.0 - x) * 100.0);
  }

  /** The one case the check and the text disagree on: a saturation exactly half a percent over an even number. */
  predicate SaturationTies(c: ColorValue)
    requires InGamut(c)
  {
    var percent := RgbToHsl(c).saturation * 100.0;
    Tie(percent) && percent.Floor % 2 == 0
  }

  function Floored(parts: HueComponents): HueComponents {
    Checked(parts).(first := (parts.first * 100.0).Floor as real / 100.0)
  }

  lemma TiesAreFloored(parts: HueComponents)
    requires parts.first >= 0.0 && parts.second >= 0.0
    requires Tie(parts.first * 100.0) && (parts.first * 100.0).Floor % 2 == 0 && !Tie(parts.second * 100.0)
    ensures PrintedWhole(parts) == Floored(parts)
  {
    RoundingsAgree(parts.first * 100.0);
    RoundingsAgree(parts.second * 100.0);
  }

  lemma LightnessNeverTies(c: ColorValue)
    requires OnGrid(c)
    ensures !Tie(RgbToHsl(c).lightness * 100.0)
  {
    var max, min := Max3(c.red, c.green, c.blue), Min3(c.red, c.green, c.blue);
    NoGridTies(ByteOf(max) + ByteOf(min), RgbToHsl(c).lightness * 100.0);
  }

  // ---- colours between the bytes ----

  /** Farther than a thousandth from where its byte ends. */
  predicate Interior(x: real) {
    ByteOf(x - 0.001) == ByteOf(x) == ByteOf(x + 0.001)
  }

  predicate AllInterior(c: ColorValue) {
    Interior(c.red) && Interior(c.green) && Interior(c.blue)
  }

  lemma InteriorIsKept(x: real, x': real)
    requires Interior(x) && Close(x', x, 0.001)
    ensures ByteOf(x') == ByteOf(x)
  {
    RoundIsMonotone((x - 0.001) * 255.0, x' * 255.0);
    RoundIsMonotone(x' * 255.0, (x + 0.001) * 255.0);
  }

  lemma RoundIsMonotone(x: real, y: real)
    requires x <= y
    ensures Round(x) <= Round(y)
  {
  }

  /**
   Whatever the colour: in the whole-number branch it is kept unless a percentage is a tie over an even number,
   in the two-decimal branch unless a channel is within a thousandth of its byte's end.
   */
  lemma KeepsAnyColor(c: ColorValue, isHwb: bool)
    requires InGamut(c)
    requires var parts := ComponentsOf(c, isHwb);
      if RoundTripsAtWholeNumbers(c, parts, isHwb)
      then NoEvenTie(parts.first * 100.0) && NoEvenTie(parts.second * 100.0)
      else AllInterior(c)
    ensures KeepsColor(c, isHwb)
  {
    var parts := ComponentsOf(c, isHwb);
    if RoundTripsAtWholeNumbers(c, parts, isHwb) {
      PartsNotNegative(c, isHwb);
      CheckedIsPrinted(parts);
    } else {
      FineIsClose(c, isHwb);
      InteriorsAreKept(c, ReadBack(PrintedFine(parts), isHwb, c.alpha));
    }
  }

  lemma InteriorsAreKept(c: ColorValue, c': ColorValue)
    requires AllInterior(c) && ChannelsClose(c', c, 0.001)
    ensures SameBytes(c', c)
  {
    InteriorIsKept(c.red, c'.red);
    InteriorIsKept(c.green, c'.green);
    InteriorIsKept(c.blue, c'.blue);
  }

  lemma PartsNotNegative(c: ColorValue, isHwb: bool)
    requires InGamut(c)
    ensures ComponentsOf(c, isHwb).first >= 0.0 && ComponentsOf(c, isHwb).second >= 0.0
  {
    HslParts(c);
    HwbParts(c);
  }

  lemma FineIsClose(c: ColorValue, isHwb: bool)
    requires InGamut(c)
    ensures ChannelsClose(ReadBack(PrintedFine(ComponentsOf(c, isHwb)), isHwb, c.alpha), c, 0.001)
  {
    if isHwb {
      FineHwbIsClose(c);
    } else {
      FineHslIsClose(c);
    }
  }

  /** Close to its byte's end a colour can shift: this grey is byte 127, and is printed as 50 %, which is 128. */
  lemma NearlyHalfGreyShifts(c: ColorValue, isHwb: bool)
    requires c.red == c.green == c.blue == 0.49999
    ensures InGamut(c) && ByteOf(c.red) == 127 && !KeepsColor(c, isHwb)
  {
    NearlyHalfIs127(c.red);
    NearlyHalfIsPrinted(c, isHwb);
    HalfShifts(c, isHwb, HueComponents(0.0, if isHwb then 0.5 else 0.0, 0.5));
  }

  lemma NearlyHalfIsPrinted(c: ColorValue, isHwb: bool)
    requires c.red == c.green == c.blue == 0.49999
    ensures InGamut(c)
    ensures Printed(c, ComponentsOf(c, isHwb), isHwb) == HueComponents(0.0, if isHwb then 0.5 else 0.0, 0.5)
  {
    GreyParts(c, isHwb, 0.49999);
    HalfIsPrinted(ComponentsOf(c, isHwb), HueComponents(0.0, if isHwb then 0.5 else 0.0, 0.5));
  }

  lemma NearlyHalfIs127(x: real)
    requires x == 0.49999
    ensures ByteOf(x) == 127 && ByteOf(0.5) == 128
  {
  }

  lemma GreyParts(c: ColorValue, isHwb: bool, x: real)
    requires c.red == c.green == c.blue == x && Unit(x)
    ensures ComponentsOf(c, isHwb) == HueComponents(0.0, if isHwb then x else 0.0, if isHwb then 1.0 - x else x)
  {
    assert Max3(c.red, c.green, c.blue) == x == Min3(c.red, c.green, c.blue);
  }

  lemma HalfIsPrinted(parts: HueComponents, half: HueComponents)
    requires parts.hue == half.hue == 0.0 && half.second == 0.5
    requires (parts.first == 0.0 == half.first && parts.second == 0.49999)
      || (parts.first == 0.49999 && half.first == 0.5 && parts.second == 0.50001)
    ensures PrintedWhole(parts) == half == PrintedFine(parts)
  {
    assert HalfEven(49.999) == 50 == HalfEven(50.001) && HalfEven(0.0) == 0;
    assert TwoDecimals(49.999) == 50.0 == TwoDecimals(50.001) && TwoDecimals(0.0) == 0.0;
  }

  lemma HalfReadsBack(half: HueComponents, isHwb: bool, alpha: real)
    requires half == HueComponents(0.0, if isHwb then 0.5 else 0.0, 0.5)
    ensures ReadBack(half, isHwb, alpha).red == 0.5
  {
  }

  lemma HalfShifts(c: ColorValue, isHwb: bool, half: HueComponents)
    requires InGamut(c) && ByteOf(c.red) == 127 && half == HueComponents(0.0, if isHwb then 0.5 else 0.0, 0.5)
    requires Printed(c, ComponentsOf(c, isHwb), isHwb) == half
    ensures !KeepsColor(c, isHwb)
  {
    HalfReadsBack(half, isHwb, c.alpha);
    OtherByte(ReadBack(half, isHwb, c.alpha), c);
  }

  lemma OtherByte(seen: ColorValue, c: ColorValue)
    requires seen.red == 0.5 && ByteOf(c.red) == 127
    ensures !SameBytes(seen, c)
  {
    NearlyHalfIs127(0.49999);
  }
}
