/**
 What the inside of a colour call says, apart from how the program's cursor goes over it
 (Source/Editor/ColorLiteral.cpp:303-345, 373-462).
 */
module ColorArguments {
  import opened Common
  import opened ColorSpace
  import opened HueNotation
  import opened DecimalText
  import opened ColorTokens

  // ---- values and what stands between them ----

  predicate Separates(c: char) {
    c == ' ' || c == '\t' || c == ',' || c == '/'
  }

  predicate IsGap(s: string) {
    forall i :: 0 <= i < |s| ==> Separates(s[i])
  }

  predicate IsValue(s: string) {
    s != "" && forall i :: 0 <= i < |s| ==> !Separates(s[i])
  }

  function Joined(gaps: seq<string>, values: seq<string>): string
    requires |gaps| == |values| + 1
  {
    if values == [] then gaps[0] else gaps[0] + (values[0] + Joined(gaps[1..], values[1..]))
  }

  /** Values with gaps around them, none of them empty between two values. */
  predicate Alternate(gaps: seq<string>, values: seq<string>) {
    && |gaps| == |values| + 1
    && (forall i :: 0 <= i < |gaps| ==> IsGap(gaps[i]))
    && (forall i :: 0 <= i < |values| ==> IsValue(values[i]))
    && (forall i :: 0 < i < |values| ==> gaps[i] != "")
  }

  /** Every text is values and gaps. */
  lemma {:induction false} EveryTextAlternates(inner: string) returns (gaps: seq<string>, values: seq<string>)
    ensures Alternate(gaps, values) && Joined(gaps, values) == inner
  {
    if inner == "" {
      return [""], [];
    }
    gaps, values := EveryTextAlternates(inner[1..]);
    var c := inner[..1];
    if Separates(inner[0]) {
      gaps := [c + gaps[0]] + gaps[1..];
    } else if gaps[0] == "" && values != [] {
      var first, rest := values[0], Joined(gaps[1..], values[1..]);
      assert c + (first + rest) == c + first + rest && "" + (c + first + rest) == c + first + rest;
      values := [c + first] + values[1..];
    } else {
      gaps, values := [""] + gaps, [c] + values;
    }
  }

  function Slashes(gap: string): nat {
    multiset(gap)['/']
  }

  predicate NoSlash(gaps: seq<string>) {
    forall i :: 0 <= i < |gaps| ==> Slashes(gaps[i]) == 0
  }

  /** Three values without a slash; or four, the last an alpha, with at most one slash, which stands before it. */
  predicate ThreeAndAlpha(gaps: seq<string>, values: seq<string>) {
    || (|values| == 3 && NoSlash(gaps))
    || (|values| == 4 && |gaps| == 5 && NoSlash(gaps[..3]) && Slashes(gaps[3]) <= 1 && Slashes(gaps[4]) == 0)
  }

  /** The program cuts every text into these values, and takes it just when they are so many. */
  lemma SplitsWhen(gaps: seq<string>, values: seq<string>)
    requires Alternate(gaps, values)
    ensures SplitFunctionalArguments(Joined(gaps, values)) ==
      if ThreeAndAlpha(gaps, values)
      then Some(Arguments(values[..3], if |values| == 4 then Some(values[3]) else None)) else None
  {
    var start := Cut([], [], false);
    RunIsCut(gaps, values, start);
    if NoSlash(gaps) {
      RunsWithout(gaps, values, start);
      assert values[..|values|] == values;
      assert [] + values == values;
    } else {
      var k := FirstSlash(gaps);
      RunsToSlash(gaps, values, start, k);
      AlphaIsLast(gaps, values, k);
      assert [] + values[..k] == values[..k];
    }
  }

  /** With a slash, the values are as they should be just when it is the only one, and stands before the fourth. */
  lemma AlphaIsLast(gaps: seq<string>, values: seq<string>, k: nat)
    requires |gaps| == |values| + 1 && k < |gaps| && Slashes(gaps[k]) > 0
    requires forall i :: 0 <= i < k ==> Slashes(gaps[i]) == 0
    ensures ThreeAndAlpha(gaps, values) <==>
      Slashes(gaps[k]) == 1 && NoSlash(gaps[k + 1..]) && k == 3 && |values| == 4
  {
    if |values| == 4 && k < 3 {
      assert Slashes(gaps[..3][k]) > 0;
    }
    if |values| == 4 && k == 3 {
      assert gaps[4..] == [gaps[4]];
    }
  }

  /** What becomes of the cut across one gap. */
  function Across(gap: string, cut: Cut): Option<Cut> {
    if Slashes(gap) == 0 then Some(cut)
    else if Slashes(gap) == 1 && !cut.sawSlash then Some(cut.(sawSlash := true))
    else None
  }

  function Run(gaps: seq<string>, values: seq<string>, cut: Cut): Option<Cut>
    requires |gaps| == |values| + 1
  {
    var next :- Across(gaps[0], cut);
    if values == [] then Some(next) else Run(gaps[1..], values[1..], next.Push(values[0]))
  }

  lemma {:induction false} GapRuns(gap: string, rest: string, cut: Cut)
    requires IsGap(gap)
    ensures CutRest(gap + rest, cut) == match Across(gap, cut) case None => None case Some(next) => CutRest(rest, next)
  {
    if gap == "" {
      assert gap + rest == rest;
    } else {
      assert (gap + rest)[1..] == gap[1..] + rest;
      assert gap == [gap[0]] + gap[1..];
      GapRuns(gap[1..], rest, if gap[0] == '/' then cut.(sawSlash := true) else cut);
    }
  }

  lemma {:induction false} RunIsCut(gaps: seq<string>, values: seq<string>, cut: Cut)
    requires Alternate(gaps, values)
    ensures CutRest(Joined(gaps, values), cut) == Run(gaps, values, cut)
    decreases |values|
  {
    if values == [] {
      GapRuns(gaps[0], "", cut);
      assert gaps[0] + "" == gaps[0];
    } else {
      var rest := Joined(gaps[1..], values[1..]);
      GapRuns(gaps[0], values[0] + rest, cut);
      if Across(gaps[0], cut).Some? {
        var next := Across(gaps[0], cut).value;
        StartsWithGap(gaps[1..], values[1..]);
        TokenCuts(values[0], rest, next);
        RunIsCut(gaps[1..], values[1..], next.Push(values[0]));
      }
    }
  }

  lemma StartsWithGap(gaps: seq<string>, values: seq<string>)
    requires Alternate(gaps, values) && (values != [] ==> gaps[0] != "")
    ensures StartsApart(Joined(gaps, values))
  {
  }

  /** The first gap with a slash in it. */
  lemma {:induction false} FirstSlash(gaps: seq<string>) returns (k: nat)
    requires !NoSlash(gaps)
    ensures k < |gaps| && Slashes(gaps[k]) > 0 && forall i :: 0 <= i < k ==> Slashes(gaps[i]) == 0
  {
    if Slashes(gaps[0]) > 0 {
      return 0;
    }
    var j := FirstSlash(gaps[1..]);
    k := j + 1;
  }

  lemma {:induction false} RunsWithout(gaps: seq<string>, values: seq<string>, cut: Cut)
    requires |gaps| == |values| + 1 && NoSlash(gaps)
    ensures Run(gaps, values, cut) ==
      Some(if cut.sawSlash then cut.(afterSlash := cut.afterSlash + values) else cut.(values := cut.values + values))
    decreases |values|
  {
    if values == [] {
      assert cut.afterSlash + values == cut.afterSlash && cut.values + values == cut.values;
    } else {
      RunsWithout(gaps[1..], values[1..], cut.Push(values[0]));
      assert values == [values[0]] + values[1..];
      assert cut.values + [values[0]] + values[1..] == cut.values + values;
      assert cut.afterSlash + [values[0]] + values[1..] == cut.afterSlash + values;
    }
  }

  /** A slash sets the values before it and behind it apart; another one is an error. */
  lemma {:induction false} RunsToSlash(gaps: seq<string>, values: seq<string>, cut: Cut, k: nat)
    requires |gaps| == |values| + 1 && k < |gaps| && Slashes(gaps[k]) > 0 && !cut.sawSlash && cut.afterSlash == []
    requires forall i :: 0 <= i < k ==> Slashes(gaps[i]) == 0
    ensures Run(gaps, values, cut) ==
      if Slashes(gaps[k]) == 1 && NoSlash(gaps[k + 1..])
      then Some(Cut(cut.values + values[..k], values[k..], true)) else None
    decreases |values|
  {
    if k > 0 {
      RunsToSlash(gaps[1..], values[1..], cut.Push(values[0]), k - 1);
      assert gaps[1..][k - 1 + 1..] == gaps[k + 1..] && values[1..][k - 1..] == values[k..];
      assert cut.values + [values[0]] + values[1..][..k - 1] == cut.values + values[..k];
    } else if Slashes(gaps[0]) == 1 {
      RunsBehind(gaps, values, cut);
      assert values[..0] == [] && values[0..] == values && cut.values + [] == cut.values;
    }
  }

  lemma RunsBehind(gaps: seq<string>, values: seq<string>, cut: Cut)
    requires |gaps| == |values| + 1 && Slashes(gaps[0]) == 1 && !cut.sawSlash && cut.afterSlash == []
    ensures Run(gaps, values, cut) == if NoSlash(gaps[1..]) then Some(Cut(cut.values, values, true)) else None
  {
    var next := cut.(sawSlash := true);
    if values != [] {
      if NoSlash(gaps[1..]) {
        RunsWithout(gaps[1..], values[1..], next.Push(values[0]));
        assert [] + [values[0]] + values[1..] == values;
      } else {
        RunsAgain(gaps[1..], values[1..], next.Push(values[0]));
      }
    }
  }

  lemma {:induction false} RunsAgain(gaps: seq<string>, values: seq<string>, cut: Cut)
    requires |gaps| == |values| + 1 && !NoSlash(gaps) && cut.sawSlash
    ensures Run(gaps, values, cut) == None
    decreases |values|
  {
    if Slashes(gaps[0]) == 0 {
      assert !NoSlash(gaps[1..]) by {
        var k := FirstSlash(gaps);
        assert Slashes(gaps[1..][k - 1]) > 0;
      }
      RunsAgain(gaps[1..], values[1..], cut.Push(values[0]));
    }
  }

  // ---- the colour they say ----

  /** `x` is `v`, or the nearer end where that lies outside of 0 to 1. */
  predicate Within(x: real, v: real) {
    if v < 0.0 then x == 0.0 else if 1.0 < v then x == 1.0 else x == v
  }

  /** So much of `whole`, or so many percent. */
  ghost predicate Portion(text: string, whole: real, number: NumberReader, x: real)
    requires whole > 0.0
  {
    var n := number(text);
    && n.Some?
    && (n.value.unit == "" || n.value.unit == "%")
    && Within(x, n.value.value / if n.value.unit == "%" then 100.0 else whole)
  }

  /** So many percent, with the sign or without. */
  ghost predicate Percentage(text: string, number: NumberReader, x: real) {
    var n := number(text);
    n.Some? && (n.value.unit == "" || n.value.unit == "%") && Within(x, n.value.value / 100.0)
  }

  /** An angle: 360 degrees are a turn, and 400 gradians. */
  ghost predicate Angle(text: string, number: NumberReader, degrees: real) {
    var n := number(text);
    && n.Some?
    && ((n.value.unit == "" && degrees == n.value.value)
        || (n.value.unit == "deg" && degrees == n.value.value)
        || (n.value.unit == "turn" && degrees == 360.0 * n.value.value)
        || (n.value.unit == "grad" && degrees == n.value.value * 360.0 / 400.0)
        || (n.value.unit == "rad" && degrees == n.value.value * 57.29577951308232))
  }

  /** The colour three values say, by the name of the notation. */
  ghost predicate ValueColor(name: string, values: seq<string>, number: NumberReader, c: ColorValue)
    requires |values| >= 3
  {
    if name == "rgb" || name == "rgba" then
      && Portion(values[0], 255.0, number, c.red) && Portion(values[1], 255.0, number, c.green)
      && Portion(values[2], 255.0, number, c.blue)
    else
      exists hue, x, y ::
        && Angle(values[0], number, hue) && Percentage(values[1], number, x) && Percentage(values[2], number, y)
        && c == if name == "hwb" then HwbToRgb(hue, x, y, c.alpha) else HslToRgb(HslColor(hue, x, y, c.alpha))
  }

  ghost predicate Says(name: string, gaps: seq<string>, values: seq<string>, number: NumberReader, c: ColorValue) {
    && Alternate(gaps, values) && ThreeAndAlpha(gaps, values)
    && (if |values| == 4 then Portion(values[3], 1.0, number, c.alpha) else c.alpha == 1.0)
    && ValueColor(name, values, number, c)
  }

  /** A call says the colour of its three values, at the opacity of the fourth, if there is one; no other text does. */
  lemma CallSays(name: string, inner: string, number: NumberReader, c: ColorValue)
    ensures ParseFunctionalColor(name, inner, number) == Some(c) <==>
      exists gaps, values :: Says(name, gaps, values, number, c) && Joined(gaps, values) == inner
  {
    var gaps, values := EveryTextAlternates(inner);
    SplitsWhen(gaps, values);
    if ThreeAndAlpha(gaps, values) {
      ValuesSay(name, values, number, c);
    }
    forall others, these | Says(name, others, these, number, c) && Joined(others, these) == inner
      ensures ParseFunctionalColor(name, inner, number) == Some(c)
    {
      SplitsWhen(others, these);
      ValuesSay(name, these, number, c);
    }
  }

  lemma ValuesSay(name: string, values: seq<string>, number: NumberReader, c: ColorValue)
    requires |values| == 3 || |values| == 4
    ensures
      var read := ColorOfArguments(name,
        Arguments(values[..3], if |values| == 4 then Some(values[3]) else None), number);
      read == Some(c) <==>
        && (if |values| == 4 then Portion(values[3], 1.0, number, c.alpha) else c.alpha == 1.0)
        && ValueColor(name, values, number, c)
  {
    var arguments := Arguments(values[..3], if |values| == 4 then Some(values[3]) else None);
    if |values| == 4 {
      PortionIs(values[3], 1.0, number);
    }
    if name == "rgb" || name == "rgba" {
      ChannelsSay(name, values, arguments, number, c);
    } else {
      HuesSay(name, values, arguments, number, c);
    }
  }

  lemma ChannelsSay(name: string, values: seq<string>, arguments: Arguments, number: NumberReader, c: ColorValue)
    requires |values| >= 3 && arguments.values == values[..3] && (name == "rgb" || name == "rgba")
    ensures ColorOfArguments(name, arguments, number) == Some(c) <==>
      ParseAlpha(arguments.alpha, number) == Some(c.alpha) && ValueColor(name, values, number, c)
  {
    PortionIs(values[0], 255.0, number);
    PortionIs(values[1], 255.0, number);
    PortionIs(values[2], 255.0, number);
  }

  lemma HuesSay(name: string, values: seq<string>, arguments: Arguments, number: NumberReader, c: ColorValue)
    requires |values| >= 3 && arguments.values == values[..3] && name != "rgb" && name != "rgba"
    ensures ColorOfArguments(name, arguments, number) == Some(c) <==>
      ParseAlpha(arguments.alpha, number) == Some(c.alpha) && ValueColor(name, values, number, c)
  {
    AngleIs(values[0], number);
    PercentageIs(values[1], number);
    PercentageIs(values[2], number);
    OpacityStays(name, arguments, number);
  }

  /** The colour has the opacity that was read. */
  lemma OpacityStays(name: string, arguments: Arguments, number: NumberReader)
    requires |arguments.values| == 3
    ensures var c := ColorOfArguments(name, arguments, number);
      c.Some? ==> ParseAlpha(arguments.alpha, number) == Some(c.value.alpha)
  {
  }

  lemma PortionIs(text: string, whole: real, number: NumberReader)
    requires whole > 0.0
    ensures forall x :: ParseScaledComponent(text, whole, number) == Some(x) <==> Portion(text, whole, number, x)
  {
  }

  lemma PercentageIs(text: string, number: NumberReader)
    ensures forall x :: ParsePercentComponent(text, number) == Some(x) <==> Percentage(text, number, x)
  {
  }

  lemma AngleIs(text: string, number: NumberReader)
    ensures forall x :: ParseAngle(text, DEGREES_PER_RADIAN, number) == Some(x) <==> Angle(text, number, x)
  {
  }
}
