/**
 sRGB, HSL and HWB (Source/Editor/ColorLiteral.cpp:245-278, 581-583, 811-850), over exact reals.
 */
module ColorSpace {
  datatype ColorValue = ColorValue(red: real, green: real, blue: real, alpha: real)

  datatype HslColor = HslColor(hue: real, saturation: real, lightness: real, alpha: real)

  function Max3(a: real, b: real, c: real): real {
    var m := if a < b then b else a;
    if m < c then c else m
  }

  function Min3(a: real, b: real, c: real): real {
    var m := if b < a then b else a;
    if c < m then c else m
  }

  predicate Unit(x: real) {
    0.0 <= x <= 1.0
  }

  predicate InGamut(c: ColorValue) {
    Unit(c.red) && Unit(c.green) && Unit(c.blue)
  }

  /** C's fmod: the remainder takes the sign of `x`. */
  function Fmod(x: real, m: real): real
    requires m > 0.0
  {
    if x >= 0.0 then x - m * (x / m).Floor as real else x + m * (-x / m).Floor as real
  }

  function HueToChannel(p: real, q: real, t0: real): real {
    var t1 := if t0 < 0.0 then t0 + 1.0 else t0;
    var t := if t1 > 1.0 then t1 - 1.0 else t1;
    if t < 1.0 / 6.0 then p + (q - p) * 6.0 * t
    else if t < 0.5 then q
    else if t < 2.0 / 3.0 then p + (q - p) * (2.0 / 3.0 - t) * 6.0
    else p
  }

  /** The hue as a fraction of a turn. */
  function Turn(hue: real): real {
    Fmod(Fmod(hue, 360.0) + 360.0, 360.0) / 360.0
  }

  function HslToRgb(hsl: HslColor): ColorValue {
    HslAt(Turn(hsl.hue), hsl.saturation, hsl.lightness, hsl.alpha)
  }

  function HslAt(hue: real, saturation: real, lightness: real, alpha: real): ColorValue {
    if saturation <= 0.0 then ColorValue(lightness, lightness, lightness, alpha)
    else
      var q := TopChannel(saturation, lightness);
      var p := 2.0 * lightness - q;
      ColorValue(HueToChannel(p, q, hue + 1.0 / 3.0), HueToChannel(p, q, hue), HueToChannel(p, q, hue - 1.0 / 3.0),
        alpha)
  }

  /** The strongest channel of a colour of this saturation and lightness. */
  function TopChannel(saturation: real, lightness: real): real {
    if lightness < 0.5 then lightness * (1.0 + saturation) else lightness + saturation - lightness * saturation
  }

  /** No division by zero: a colour that is not grey is neither black nor white. */
  function RgbToHsl(c: ColorValue): HslColor
    requires InGamut(c)
  {
    var max, min := Max3(c.red, c.green, c.blue), Min3(c.red, c.green, c.blue);
    var delta := max - min;
    var lightness := (max + min) / 2.0;
    if delta <= 0.0 then HslColor(0.0, 0.0, lightness, c.alpha)
    else
      HslColor(Sextant(c) * 60.0, SaturationOf(max, min), lightness, c.alpha)
  }

  function SaturationOf(max: real, min: real): real
    requires 0.0 <= min < max <= 1.0
  {
    if (max + min) / 2.0 > 0.5 then (max - min) / (2.0 - max - min) else (max - min) / (max + min)
  }

  /** The hue in sixths of a turn. */
  function Sextant(c: ColorValue): real
    requires Max3(c.red, c.green, c.blue) > Min3(c.red, c.green, c.blue)
  {
    var max := Max3(c.red, c.green, c.blue);
    var delta := max - Min3(c.red, c.green, c.blue);
    if max == c.red then (c.green - c.blue) / delta + (if c.green < c.blue then 6.0 else 0.0)
    else if max == c.green then (c.blue - c.red) / delta + 2.0
    else (c.red - c.green) / delta + 4.0
  }

  /** CSS Color 4: whiteness and blackness scale the saturated hue, and a pair past 1 collapses to grey. */
  function HwbToRgb(hue: real, whiteness: real, blackness: real, alpha: real): ColorValue {
    if whiteness + blackness >= 1.0 then
      var grey := whiteness / (whiteness + blackness);
      ColorValue(grey, grey, grey, alpha)
    else
      Scaled(HslToRgb(HslColor(hue, 1.0, 0.5, alpha)), 1.0 - whiteness - blackness, whiteness)
  }

  function Scaled(rgb: ColorValue, scale: real, whiteness: real): ColorValue {
    OnChannels(rgb, Scaler(scale, whiteness))
  }

  /** What happens to each channel in turn. */
  function Scaler(scale: real, whiteness: real): real -> real {
    channel => channel * scale + whiteness
  }

  function OnChannels(rgb: ColorValue, f: real -> real): ColorValue {
    ColorValue(f(rgb.red), f(rgb.green), f(rgb.blue), rgb.alpha)
  }

  // ---- every channel is a point on a tent over the hue circle ----

  /** 0 to 1 over the first sixth of a turn, 1 for two sixths, down again, then 0. */
  function Tent(t0: real): real {
    var t1 := if t0 < 0.0 then t0 + 1.0 else t0;
    var t := if t1 > 1.0 then t1 - 1.0 else t1;
    if t < 1.0 / 6.0 then 6.0 * t
    else if t < 0.5 then 1.0
    else if t < 2.0 / 3.0 then 4.0 - 6.0 * t
    else 0.0
  }

  lemma ChannelIsTent(p: real, q: real, t: real)
    ensures HueToChannel(p, q, t) == p + (q - p) * Tent(t)
  {
  }

  /** Half the distance between the strongest and the weakest channel. */
  function Spread(saturation: real, lightness: real): real {
    saturation * (if lightness < 0.5 then lightness else 1.0 - lightness)
  }

  function Channel(lightness: real, spread: real, tent: real): real {
    lightness + spread * (2.0 * tent - 1.0)
  }

  lemma HslIsTents(t: real, saturation: real, lightness: real, alpha: real)
    requires saturation >= 0.0
    ensures HslAt(t, saturation, lightness, alpha) == Tents(t, lightness, Spread(saturation, lightness), alpha)
  {
    var q, m := TopChannel(saturation, lightness), Spread(saturation, lightness);
    TopIsAbove(saturation, lightness);
    if saturation > 0.0 {
      var p := 2.0 * lightness - q;
      ChannelOfTent(p, q, lightness, m, t + 1.0 / 3.0);
      ChannelOfTent(p, q, lightness, m, t);
      ChannelOfTent(p, q, lightness, m, t - 1.0 / 3.0);
    } else {
      assert m == 0.0;
    }
  }

  function Tents(t: real, lightness: real, spread: real, alpha: real): ColorValue {
    ColorValue(Channel(lightness, spread, Tent(t + 1.0 / 3.0)), Channel(lightness, spread, Tent(t)),
               Channel(lightness, spread, Tent(t - 1.0 / 3.0)), alpha)
  }

  lemma TopIsAbove(saturation: real, lightness: real)
    ensures TopChannel(saturation, lightness) == lightness + Spread(saturation, lightness)
  {
  }

  lemma ChannelOfTent(p: real, q: real, l: real, m: real, t: real)
    requires q == l + m && p == l - m
    ensures HueToChannel(p, q, t) == Channel(l, m, Tent(t))
  {
    ChannelIsTent(p, q, t);
    assert q - p == 2.0 * m;
    assert (2.0 * m) * Tent(t) == m * (2.0 * Tent(t));
  }

  /** A hue within one turn is its own remainder. */
  lemma TurnOfHue(hue: real)
    requires 0.0 <= hue < 360.0
    ensures Turn(hue) == hue / 360.0
  {
    assert (hue / 360.0).Floor == 0;
    assert ((hue + 360.0) / 360.0).Floor == 1;
  }

  // ---- RGB to HSL and back ----

  /** How far above the weakest channel each one stands, as a share of the distance to the strongest. */
  ghost predicate Fits(c: ColorValue, max: real, min: real, x: real) {
    && 0.0 <= x < 1.0
    && (max - min) * Tent(x + 1.0 / 3.0) == c.red - min
    && (max - min) * Tent(x) == c.green - min
    && (max - min) * Tent(x - 1.0 / 3.0) == c.blue - min
  }

  lemma TentsOfSextant(c: ColorValue)
    requires Max3(c.red, c.green, c.blue) > Min3(c.red, c.green, c.blue)
    ensures Fits(c, Max3(c.red, c.green, c.blue), Min3(c.red, c.green, c.blue), Sextant(c) / 6.0)
  {
    if c.red >= c.green && c.red >= c.blue {
      if c.green >= c.blue { RedGreenBlue(c); } else { RedBlueGreen(c); }
    } else if c.green >= c.blue {
      if c.blue <= c.red { GreenRedBlue(c); } else { GreenBlueRed(c); }
    } else {
      if c.red <= c.green { BlueGreenRed(c); } else { BlueRedGreen(c); }
    }
  }

  lemma RedGreenBlue(c: ColorValue)
    requires c.red >= c.green >= c.blue && c.red > c.blue
    ensures Fits(c, c.red, c.blue, Sextant(c) / 6.0)
  {
    var delta := c.red - c.blue;
    Share(c.green - c.blue, delta);
    Sector0((c.green - c.blue) / delta);
  }

  lemma RedBlueGreen(c: ColorValue)
    requires c.red >= c.blue > c.green
    ensures Fits(c, c.red, c.green, Sextant(c) / 6.0)
  {
    var delta := c.red - c.green;
    Share(c.blue - c.green, delta);
    Sector5((c.blue - c.green) / delta);
  }

  lemma GreenRedBlue(c: ColorValue)
    requires c.green > c.red >= c.blue
    ensures Fits(c, c.green, c.blue, Sextant(c) / 6.0)
  {
    var delta := c.green - c.blue;
    Share(c.red - c.blue, delta);
    Sector1((c.red - c.blue) / delta);
  }

  lemma GreenBlueRed(c: ColorValue)
    requires c.green >= c.blue > c.red
    ensures Fits(c, c.green, c.red, Sextant(c) / 6.0)
  {
    var delta := c.green - c.red;
    Share(c.blue - c.red, delta);
    Sector2((c.blue - c.red) / delta);
  }

  lemma BlueGreenRed(c: ColorValue)
    requires c.blue > c.green >= c.red
    ensures Fits(c, c.blue, c.red, Sextant(c) / 6.0)
  {
    var delta := c.blue - c.red;
    Share(c.green - c.red, delta);
    Sector3((c.green - c.red) / delta);
  }

  lemma BlueRedGreen(c: ColorValue)
    requires c.blue > c.red > c.green
    ensures Fits(c, c.blue, c.green, Sextant(c) / 6.0)
  {
    var delta := c.blue - c.green;
    Share(c.red - c.green, delta);
    Sector4((c.red - c.green) / delta);
  }

  lemma Share(part: real, delta: real)
    requires 0.0 <= part <= delta && 0.0 < delta
    ensures 0.0 <= part / delta <= 1.0 && delta * (part / delta) == part && (part < delta ==> part / delta < 1.0)
    ensures (0.0 - part) / delta == 0.0 - part / delta
    ensures 0.0 < part ==> 0.0 < part / delta
  {
    var negative := (0.0 - part) / delta;
    assert negative * delta == 0.0 - part;
    assert (negative + part / delta) * delta == 0.0;
  }

  // The six sectors of the hue circle, `s` being the share of the middle channel.

  lemma Sector0(s: real)
    requires 0.0 <= s <= 1.0
    ensures Tent(s / 6.0 + 1.0 / 3.0) == 1.0 && Tent(s / 6.0) == s && Tent(s / 6.0 - 1.0 / 3.0) == 0.0
  {
  }

  lemma Sector1(s: real)
    requires 0.0 <= s <= 1.0
    ensures var x := (2.0 - s) / 6.0; Tent(x + 1.0 / 3.0) == s && Tent(x) == 1.0 && Tent(x - 1.0 / 3.0) == 0.0
  {
  }

  lemma Sector2(s: real)
    requires 0.0 <= s <= 1.0
    ensures var x := (2.0 + s) / 6.0; Tent(x + 1.0 / 3.0) == 0.0 && Tent(x) == 1.0 && Tent(x - 1.0 / 3.0) == s
  {
  }

  lemma Sector3(s: real)
    requires 0.0 <= s <= 1.0
    ensures var x := (4.0 - s) / 6.0; Tent(x + 1.0 / 3.0) == 0.0 && Tent(x) == s && Tent(x - 1.0 / 3.0) == 1.0
  {
  }

  lemma Sector4(s: real)
    requires 0.0 <= s <= 1.0
    ensures var x := (4.0 + s) / 6.0; Tent(x + 1.0 / 3.0) == s && Tent(x) == 0.0 && Tent(x - 1.0 / 3.0) == 1.0
  {
  }

  lemma Sector5(s: real)
    requires 0.0 <= s <= 1.0
    ensures var x := (6.0 - s) / 6.0; Tent(x + 1.0 / 3.0) == 1.0 && Tent(x) == 0.0 && Tent(x - 1.0 / 3.0) == s
  {
  }

  /** The spread of a colour's own saturation is half the distance between its channels. */
  lemma SpreadOfChannels(max: real, min: real)
    requires 0.0 <= min < max <= 1.0
    ensures var s, l := SaturationOf(max, min), (max + min) / 2.0;
      Spread(s, l) == (max - min) / 2.0 && 0.0 < s <= 1.0
  {
    if max + min > 1.0 {
      HalfShare(max - min, 2.0 - max - min, 1.0 - (max + min) / 2.0);
    } else {
      HalfShare(max - min, max + min, (max + min) / 2.0);
    }
  }

  lemma HalfShare(delta: real, whole: real, half: real)
    requires 0.0 < delta <= whole && whole == 2.0 * half
    ensures delta / whole * half == delta / 2.0 && 0.0 < delta / whole <= 1.0
  {
    assert delta / whole * whole == delta;
    assert delta / whole * (2.0 * half) == 2.0 * (delta / whole * half);
  }

  lemma Midpoint(min: real, max: real, channel: real, tent: real)
    requires (max - min) * tent == channel - min
    ensures Channel((max + min) / 2.0, (max - min) / 2.0, tent) == channel
  {
    var half := (max - min) / 2.0;
    assert half * (2.0 * tent - 1.0) == (max - min) * tent - half;
  }

  lemma TentsAreChannels(c: ColorValue, max: real, min: real, x: real)
    requires Fits(c, max, min, x)
    ensures Tents(x, (max + min) / 2.0, (max - min) / 2.0, c.alpha) == c
  {
    Midpoint(min, max, c.red, Tent(x + 1.0 / 3.0));
    Midpoint(min, max, c.green, Tent(x));
    Midpoint(min, max, c.blue, Tent(x - 1.0 / 3.0));
  }

  /** RGB to HSL and back is the identity on every colour, in every sector and for greys. */
  lemma HslRoundTrip(c: ColorValue)
    requires InGamut(c)
    ensures HslToRgb(RgbToHsl(c)) == c
  {
    var max, min := Max3(c.red, c.green, c.blue), Min3(c.red, c.green, c.blue);
    if max > min {
      TentsOfSextant(c);
      HueIsTurn(c);
      SpreadOfChannels(max, min);
      HslIsTents(Sextant(c) / 6.0, SaturationOf(max, min), (max + min) / 2.0, c.alpha);
      TentsAreChannels(c, max, min, Sextant(c) / 6.0);
    }
  }

  lemma HueIsTurn(c: ColorValue)
    requires InGamut(c) && Max3(c.red, c.green, c.blue) > Min3(c.red, c.green, c.blue)
    ensures Turn(RgbToHsl(c).hue) == Sextant(c) / 6.0 && 0.0 <= RgbToHsl(c).hue < 360.0
  {
    TentsOfSextant(c);
    TurnOfHue(Sextant(c) * 60.0);
  }

  /** The saturated hue at `t` of a turn. */
  function PureHue(t: real, alpha: real): ColorValue {
    ColorValue(Tent(t + 1.0 / 3.0), Tent(t), Tent(t - 1.0 / 3.0), alpha)
  }

  function ScaledTents(t: real, whiteness: real, scale: real, alpha: real): ColorValue {
    Scaled(PureHue(t, alpha), scale, whiteness)
  }

  lemma HwbIsTents(hue: real, whiteness: real, blackness: real, alpha: real)
    requires whiteness + blackness < 1.0
    ensures HwbToRgb(hue, whiteness, blackness, alpha) ==
            ScaledTents(Turn(hue), whiteness, 1.0 - whiteness - blackness, alpha)
  {
    SaturatedHue(hue, alpha);
  }

  lemma ScaledTentsAreChannels(c: ColorValue, max: real, min: real, x: real)
    requires Fits(c, max, min, x)
    ensures ScaledTents(x, min, max - min, c.alpha) == c
  {
    ScaledIs(c, PureHue(x, c.alpha), max - min, min);
  }

  lemma ScaledIs(c: ColorValue, pure: ColorValue, scale: real, min: real)
    requires scale * pure.red == c.red - min && scale * pure.green == c.green - min && scale * pure.blue == c.blue - min
    requires pure.alpha == c.alpha
    ensures Scaled(pure, scale, min) == c
  {
  }

  /** The same hue with the weakest channel as whiteness and the strongest's complement as blackness. */
  lemma HwbRoundTrip(c: ColorValue)
    requires InGamut(c)
    ensures var max, min := Max3(c.red, c.green, c.blue), Min3(c.red, c.green, c.blue);
      HwbToRgb(RgbToHsl(c).hue, min, 1.0 - max, c.alpha) == c
  {
    var max, min := Max3(c.red, c.green, c.blue), Min3(c.red, c.green, c.blue);
    if max > min {
      TentsOfSextant(c);
      HueIsTurn(c);
      HwbIsTents(RgbToHsl(c).hue, min, 1.0 - max, c.alpha);
      ScaledTentsAreChannels(c, max, min, Sextant(c) / 6.0);
      assert 1.0 - min - (1.0 - max) == max - min;
    } else {
      Grey(c);
    }
  }

  lemma Grey(c: ColorValue)
    requires Max3(c.red, c.green, c.blue) == Min3(c.red, c.green, c.blue)
    ensures HwbToRgb(0.0, c.red, 1.0 - c.red, c.alpha) == c
  {
    assert c.red / 1.0 == c.red;
  }

  /** A fully saturated hue is the three tents themselves. */
  lemma SaturatedHue(hue: real, alpha: real)
    ensures HslToRgb(HslColor(hue, 1.0, 0.5, alpha)) == PureHue(Turn(hue), alpha)
  {
    HslIsTents(Turn(hue), 1.0, 0.5, alpha);
  }
}
