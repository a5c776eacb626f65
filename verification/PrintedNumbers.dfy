/**
 Printed numbers as components of a colour call: short, free of separators and parentheses, and read back as
 what was rounded (Source/Editor/ColorLiteral.cpp:282-345, 485-573).
 */
module PrintedNumbers {
  import opened Common
  import opened Decimal
  import opened ColorSpace
  import opened HueNotation
  import opened DecimalText
  import opened ColorTokens
  import opened ColorScan
  import opened ColorFormat

  /** The reader takes a printed number for what it says. */
  ghost predicate Faithful(number: NumberReader) {
    forall n: nat, decimals: nat, unit: string ::
      Unitlike(unit) ==> number(PrintUnits(n, decimals) + unit) == Some(Number(n as real / Tens(decimals), unit))
  }

  /** A reader of plain decimal notation does. */
  lemma ParseNumberIsFaithful()
    ensures Faithful(token => ParseNumber(token))
  {
    forall n: nat, decimals: nat, unit: string | Unitlike(unit)
      ensures ParseNumber(PrintUnits(n, decimals) + unit) == Some(Number(n as real / Tens(decimals), unit))
    {
      UnitsRead(n, decimals, unit);
    }
  }

  predicate NoParens(s: string) {
    forall i :: 0 <= i < |s| ==> !IsParen(s[i])
  }

  /** What may stand between the separators of a call, so long. */
  predicate Component(s: string) {
    |s| <= 9 && IsToken(s) && NoParens(s)
  }

  lemma NumericIsComponent(s: string)
    requires Numeric(s) && |s| <= 8
    ensures Component(s) && Component(s + "%")
  {
  }

  // ---- lengths ----

  lemma Thousand()
    ensures Power10(3) == 1000
  {
    assert Power10(1) == 10 && Power10(2) == 100;
  }

  lemma WholePartBelow(n: nat, decimals: nat, bound: nat)
    requires n < bound * Power10(decimals)
    ensures WholePart(n, decimals) < bound
  {
    var whole, p := WholePart(n, decimals), Power10(decimals);
    assert whole * p <= n;
    if whole >= bound {
      Times(bound, whole, p);
    }
  }

  lemma Times(a: nat, b: nat, p: nat)
    requires a <= b
    ensures a * p <= b * p
  {
  }

  lemma TimesStrict(a: nat, b: nat, p: nat)
    requires a < b && p > 0
    ensures a * p < b * p
  {
  }

  lemma TrimIsShort(whole: string, part: string)
    ensures |Trim(whole + "." + part)| <= |whole| + 1 + |part|
  {
  }

  lemma UnitsAreShort(n: nat, decimals: nat)
    requires n < 1000 * Power10(decimals) && decimals <= 4
    ensures |PrintUnits(n, decimals)| <= 4 + decimals
  {
    Thousand();
    if decimals == 0 {
      assert Power10(decimals) == 1;
      PrintLength(n, 3);
    } else {
      WholePartBelow(n, decimals, 1000);
      PrintLength(WholePart(n, decimals), 3);
      TrimIsShort(Print(WholePart(n, decimals)), Pad(LastDigits(n, decimals), decimals));
    }
  }

  /** A printed number below a thousand, with at most four decimals. */
  lemma UnitsAreComponent(n: nat, decimals: nat, most: nat)
    requires n <= most * Power10(decimals) && most < 1000 && decimals <= 4
    ensures Component(PrintUnits(n, decimals)) && Component(PrintUnits(n, decimals) + "%")
  {
    TimesStrict(most, 1000, Power10(decimals));
    UnitsAreShort(n, decimals);
    UnitsAreNumeric(n, decimals);
    NumericIsComponent(PrintUnits(n, decimals));
  }

  // ---- bounds ----

  lemma ScaleWithin(value: real, most: nat, p: nat)
    requires 0.0 <= value <= most as real && p > 0
    ensures 0.0 <= value * p as real <= (most * p) as real
  {
    Monotone(value, most as real, p as real);
  }

  lemma Monotone(a: real, b: real, t: real)
    requires 0.0 <= a <= b && t > 0.0
    ensures 0.0 <= a * t <= b * t
  {
    assert b * t - a * t == (b - a) * t;
  }

  lemma UnitsOfScale(value: real, t: real, p: nat, most: nat)
    requires 0.0 <= value <= most as real && p > 0 && t == p as real
    ensures UnitsAt(value, t) <= most * p
  {
    ScaleWithin(value, most, p);
    var scaled := value * p as real;
    assert scaled == value * t;
    HalfEvenInRange(scaled, most * p);
  }

  /** Rounding does not carry a value past a whole bound. */
  lemma UnitsWithin(value: real, decimals: nat, most: nat)
    requires 0.0 <= value <= most as real
    ensures Units(value, decimals) <= most * Power10(decimals)
  {
    PowerIsTens(decimals);
    UnitsOfScale(value, Tens(decimals), Power10(decimals), most);
  }

  lemma QuotientWithin(n: nat, decimals: nat, most: nat)
    requires n <= most * Power10(decimals)
    ensures 0.0 <= n as real / Tens(decimals) <= most as real
  {
    PowerIsTens(decimals);
    Share(n as real, Tens(decimals), most as real, (most * Power10(decimals)) as real);
  }

  lemma Share(x: real, t: real, most: real, product: real)
    requires t > 0.0 && 0.0 <= x <= product && product == most * t
    ensures 0.0 <= x / t <= most
  {
    var q := x / t;
    assert q * t == x;
    NotAbove(q, most, t);
  }

  lemma NotAbove(q: real, most: real, t: real)
    requires t > 0.0 && 0.0 <= q * t <= most * t
    ensures 0.0 <= q <= most
  {
    if q > most {
      Strict(most, q, t);
    }
    if q < 0.0 {
      Strict(q, 0.0, t);
    }
  }

  lemma Strict(a: real, b: real, t: real)
    requires t > 0.0 && a < b
    ensures a * t < b * t
  {
  }

  // ---- reading ----

  lemma Reads(number: NumberReader, n: nat, decimals: nat, unit: string)
    requires Faithful(number) && Unitlike(unit)
    ensures number(PrintUnits(n, decimals) + unit) == Some(Number(n as real / Tens(decimals), unit))
  {
  }

  lemma ReadsAlone(number: NumberReader, n: nat, decimals: nat)
    requires Faithful(number)
    ensures number(PrintUnits(n, decimals)) == Some(Number(n as real / Tens(decimals), ""))
  {
    Reads(number, n, decimals, "");
    assert PrintUnits(n, decimals) + "" == PrintUnits(n, decimals);
  }

  lemma ScaledRead(token: string, v: real, scale: real, number: NumberReader)
    requires number(token) == Some(Number(v, "")) && scale > 0.0 && 0.0 <= v / scale <= 1.0
    ensures ParseScaledComponent(token, scale, number) == Some(v / scale)
  {
  }

  lemma BytePrints(b: ColorFormat.Byte, number: NumberReader)
    requires Faithful(number)
    ensures Component(Print(b)) && ParseScaledComponent(Print(b), 255.0, number) == Some(b as real / 255.0)
  {
    UnitsAreComponent(b, 0, 255);
    ReadsAlone(number, b, 0);
    assert PrintUnits(b, 0) == Print(b);
    ScaledRead(Print(b), b as real, 255.0, number);
  }

  lemma AlphaPrints(alpha: real, number: NumberReader)
    requires Unit(alpha) && Faithful(number)
    ensures Component(FormatAlpha(alpha, number))
    ensures ParseScaledComponent(FormatAlpha(alpha, number), 1.0, number) == Some(ReadAlpha(alpha, number))
  {
    var decimals := AlphaPlaces(alpha, number);
    PlacesPrint(alpha, decimals, number);
  }

  lemma PlacesPrint(alpha: real, decimals: nat, number: NumberReader)
    requires Unit(alpha) && Faithful(number) && decimals <= 4
    ensures Component(FormatDouble(alpha, decimals))
    ensures ParseScaledComponent(FormatDouble(alpha, decimals), 1.0, number) ==
      Some(Units(alpha, decimals) as real / Tens(decimals))
  {
    UnitsWithin(alpha, decimals, 1);
    FractionReads(Units(alpha, decimals), decimals, number);
  }

  lemma FractionReads(n: nat, decimals: nat, number: NumberReader)
    requires n <= 1 * Power10(decimals) && decimals <= 4 && Faithful(number)
    ensures Component(PrintUnits(n, decimals))
    ensures ParseScaledComponent(PrintUnits(n, decimals), 1.0, number) == Some(n as real / Tens(decimals))
  {
    UnitsAreComponent(n, decimals, 1);
    QuotientWithin(n, decimals, 1);
    FractionScales(PrintUnits(n, decimals), n, decimals, n as real / Tens(decimals), number);
  }

  lemma FractionScales(text: string, n: nat, decimals: nat, value: real, number: NumberReader)
    requires text == PrintUnits(n, decimals) && value == n as real / Tens(decimals) && Faithful(number)
    requires 0.0 <= value <= 1.0
    ensures ParseScaledComponent(text, 1.0, number) == Some(value)
  {
    ReadsAlone(number, n, decimals);
    ScaledRead(text, value, 1.0, number);
  }

  /** A printed percentage. */
  lemma PercentReads(n: nat, decimals: nat, number: NumberReader)
    requires n <= 100 * Power10(decimals) && decimals <= 4 && Faithful(number)
    ensures Component(PrintUnits(n, decimals) + "%")
    ensures ParsePercentComponent(PrintUnits(n, decimals) + "%", number) == Some(n as real / Tens(decimals) / 100.0)
  {
    UnitsAreComponent(n, decimals, 100);
    QuotientWithin(n, decimals, 100);
    Reads(number, n, decimals, "%");
  }

  lemma HueReads(n: nat, decimals: nat, number: NumberReader)
    requires n <= 360 * Power10(decimals) && decimals <= 4 && Faithful(number)
    ensures Component(PrintUnits(n, decimals))
    ensures ParseAngle(PrintUnits(n, decimals), DEGREES_PER_RADIAN, number) == Some(n as real / Tens(decimals))
  {
    UnitsAreComponent(n, decimals, 360);
    ReadsAlone(number, n, decimals);
  }

  /** Component texts that read back as these components. */
  predicate TextsRead(t: HueTexts, p: HueComponents, number: NumberReader) {
    && Component(t.hue) && Component(t.first) && Component(t.second)
    && ParseAngle(t.hue, DEGREES_PER_RADIAN, number) == Some(p.hue)
    && ParsePercentComponent(t.first, number) == Some(p.first)
      && ParsePercentComponent(t.second, number) == Some(p.second)
  }

  lemma PrintedRead(t: HueTexts, hue: real, first: real, second: real, decimals: nat, p: HueComponents,
                    number: NumberReader)
    requires 0.0 <= hue <= 360.0 && 0.0 <= first <= 100.0 && 0.0 <= second <= 100.0 && decimals <= 4 && Faithful(number)
    requires p == HueComponents(Rounded(hue, decimals), Rounded(first, decimals) / 100.0,
      Rounded(second, decimals) / 100.0)
    requires t == TextsOf(hue, first, second, decimals)
    ensures TextsRead(t, p, number)
  {
    UnitsWithin(hue, decimals, 360);
    UnitsWithin(first, decimals, 100);
    UnitsWithin(second, decimals, 100);
    HueReads(Units(hue, decimals), decimals, number);
    PercentReads(Units(first, decimals), decimals, number);
    PercentReads(Units(second, decimals), decimals, number);
  }

  function Rounded(value: real, decimals: nat): real
    requires value >= 0.0
  {
    Units(value, decimals) as real / Tens(decimals)
  }

  lemma RoundedWhole(x: real)
    requires x >= 0.0
    ensures Rounded(x, 0) == HalfEven(x) as real
  {
    var zero: nat := 0;
    assert Tens(zero) == 1.0;
    assert x * Tens(zero) == x;
    assert Units(x, zero) == HalfEven(x);
  }

  lemma RoundedFine(x: real)
    requires x >= 0.0
    ensures Rounded(x, 2) == TwoDecimals(x)
  {
    var two: nat := 2;
    HundredIsTens(two);
    assert Units(x, two) == HalfEven(x * 100.0);
  }

  lemma HundredIsTens(two: nat)
    requires two == 2
    ensures Tens(two) == 100.0
  {
    assert Tens(two - 1) == 10.0;
  }

  lemma RoundIsWhole(x: real)
    requires 0.0 <= x <= 360.0
    ensures 0 <= Round(x) <= 360 && HalfEven(Round(x) as real) == Round(x)
  {
  }

  lemma WholePartsRounded(parts: HueComponents)
    requires InRange(parts)
    ensures 0.0 <= Round(parts.hue) as real <= 360.0
    ensures PrintedWhole(parts) ==
      HueComponents(Rounded(Round(parts.hue) as real, 0), Rounded(parts.first * 100.0, 0) / 100.0,
        Rounded(parts.second * 100.0, 0) / 100.0)
  {
    RoundIsWhole(parts.hue);
    RoundedWhole(Round(parts.hue) as real);
    RoundedWhole(parts.first * 100.0);
    RoundedWhole(parts.second * 100.0);
  }

  lemma FinePartsRounded(parts: HueComponents)
    requires InRange(parts)
    ensures PrintedFine(parts) ==
      HueComponents(Rounded(parts.hue, 2), Rounded(parts.first * 100.0, 2) / 100.0,
        Rounded(parts.second * 100.0, 2) / 100.0)
  {
    RoundedFine(parts.hue);
    RoundedFine(parts.first * 100.0);
    RoundedFine(parts.second * 100.0);
  }

  lemma PartsRead(parts: HueComponents, whole: bool, t: HueTexts, p: HueComponents, number: NumberReader)
    requires InRange(parts) && Faithful(number)
    requires t == PrintParts(parts, whole) && p == if whole then PrintedWhole(parts) else PrintedFine(parts)
    ensures TextsRead(t, p, number)
  {
    var first, second := parts.first * 100.0, parts.second * 100.0;
    if whole {
      WholePartsRounded(parts);
      PrintedRead(t, Round(parts.hue) as real, first, second, 0, p, number);
    } else {
      FinePartsRounded(parts);
      PrintedRead(t, parts.hue, first, second, 2, p, number);
    }
  }

  /** The printed components of a hue notation read back as what they are taken to be in the check. */
  lemma HueTextsRead(c: ColorValue, isHwb: bool, number: NumberReader)
    requires Drawable(c) && Faithful(number)
    ensures TextsRead(HueTextsOf(c, isHwb), Printed(c, ComponentsOf(c, isHwb), isHwb), number)
  {
    PartsPositive(c, isHwb);
    PartsRead(ComponentsOf(c, isHwb), RoundTripsAtWholeNumbers(c, ComponentsOf(c, isHwb), isHwb), HueTextsOf(c, isHwb),
              Printed(c, ComponentsOf(c, isHwb), isHwb), number);
  }
}
