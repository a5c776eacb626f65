/**
 The inside of rgb(), hsl() and hwb() (Source/Editor/ColorLiteral.cpp:307-345, 373-481): how it is cut into
 values, and the colour the values name.
 */
module ColorTokens {
  import opened Common
  import opened ColorSpace
  import opened HueNotation
  import opened DecimalText

  // ---- cutting ----

  predicate IsSeparator(c: char) {
    c == ' ' || c == '\t' || c == ',' || c == '/'
  }

  /** Length of the token at the head of `s`. */
  function TokenEnd(s: string): (n: nat)
    ensures n <= |s| && forall i :: 0 <= i < n ==> !IsSeparator(s[i])
    ensures n < |s| ==> IsSeparator(s[n])
  {
    if s == "" || IsSeparator(s[0]) then 0 else 1 + TokenEnd(s[1..])
  }

  datatype Cut = Cut(values: seq<string>, afterSlash: seq<string>, sawSlash: bool) {
    function Push(token: string): Cut {
      if sawSlash then this.(afterSlash := afterSlash + [token]) else this.(values := values + [token])
    }
  }

  /** Cuts the rest of the text; a second slash is an error. */
  function CutRest(rest: string, cut: Cut): Option<Cut>
    decreases |rest|
  {
    if rest == "" then Some(cut)
    else if rest[0] == '/' then
      if cut.sawSlash then None else CutRest(rest[1..], cut.(sawSlash := true))
    else if IsSeparator(rest[0]) then CutRest(rest[1..], cut)
    else
      var n := TokenEnd(rest);
      CutRest(rest[n..], cut.Push(rest[..n]))
  }

  datatype Arguments = Arguments(values: seq<string>, alpha: Option<string>)

  function Arranged(cut: Cut): Option<Arguments> {
    var alpha := if cut.sawSlash then (if |cut.afterSlash| == 1 then Some(cut.afterSlash[0]) else None)
                 else if |cut.values| == 4 then Some(cut.values[3]) else None;
    var values := if !cut.sawSlash && |cut.values| == 4 then cut.values[..3] else cut.values;
    if |values| != 3 || (cut.sawSlash && alpha.None?) then None else Some(Arguments(values, alpha))
  }

  function SplitFunctionalArguments(inner: string): Option<Arguments> {
    var cut :- CutRest(inner, Cut([], [], false));
    Arranged(cut)
  }

  /** The program's cursor over the text. */
  method CutArguments(inner: string) returns (arguments: Option<Arguments>)
    ensures arguments == SplitFunctionalArguments(inner)
  {
    var values, afterSlash, sawSlash := [], [], false;
    var i := 0;
    assert inner[0..] == inner;
    while i < |inner|
      invariant 0 <= i <= |inner|
      invariant CutRest(inner[i..], Cut(values, afterSlash, sawSlash)) == CutRest(inner, Cut([], [], false))
    {
      var c := inner[i];
      assert inner[i..][1..] == inner[i + 1..];
      if c == ' ' || c == '\t' || c == ',' {
        i := i + 1;
        continue;
      }
      if c == '/' {
        if sawSlash {
          return None;
        }
        sawSlash := true;
        i := i + 1;
        continue;
      }
      var start := i;
      while i < |inner| && !IsSeparator(inner[i])
        invariant start <= i <= |inner| && TokenEnd(inner[start..]) == i - start + TokenEnd(inner[i..])
      {
        assert inner[i..][1..] == inner[i + 1..];
        i := i + 1;
      }
      assert inner[start..][..i - start] == inner[start..i] && inner[start..][i - start..] == inner[i..];
      if sawSlash {
        afterSlash := afterSlash + [inner[start..i]];
      } else {
        values := values + [inner[start..i]];
      }
    }
    assert inner[i..] == "";
    arguments := Arranged(Cut(values, afterSlash, sawSlash));
  }

  // ---- reading the values ----

  function Clamp01(x: real): real {
    if x < 0.0 then 0.0 else if x > 1.0 then 1.0 else x
  }

  /** How a number at the head of a token is read: the standard library's part. */
  type NumberReader = string -> Option<Number>

  function ParseScaledComponent(token: string, fullScale: real, number: NumberReader): Option<real>
    requires fullScale > 0.0
  {
    var n :- number(token);
    if n.unit == "%" then Some(Clamp01(n.value / 100.0))
    else if n.unit != "" then None
    else Some(Clamp01(n.value / fullScale))
  }

  function ParsePercentComponent(token: string, number: NumberReader): Option<real> {
    var n :- number(token);
    if n.unit != "" && n.unit != "%" then None else Some(Clamp01(n.value / 100.0))
  }

  /** Degrees. The factor of a radian, 180 over pi, is `degreesPerRadian`. */
  function ParseAngle(token: string, degreesPerRadian: real, number: NumberReader): Option<real> {
    var n :- number(token);
    if n.unit == "" || n.unit == "deg" then Some(n.value)
    else if n.unit == "turn" then Some(n.value * 360.0)
    else if n.unit == "rad" then Some(n.value * degreesPerRadian)
    else if n.unit == "grad" then Some(n.value * 0.9)
    else None
  }

  const DEGREES_PER_RADIAN: real := 57.29577951308232

  function ParseAlpha(alpha: Option<string>, number: NumberReader): Option<real> {
    match alpha
    case None => Some(1.0)
    case Some(token) => ParseScaledComponent(token, 1.0, number)
  }

  function ParseFunctionalColor(name: string, inner: string, number: NumberReader): Option<ColorValue> {
    var arguments :- SplitFunctionalArguments(inner);
    if |arguments.values| != 3 then None else ColorOfArguments(name, arguments, number)
  }

  function ColorOfArguments(name: string, arguments: Arguments, number: NumberReader): Option<ColorValue>
    requires |arguments.values| == 3
  {
    var alpha :- ParseAlpha(arguments.alpha, number);
    if name == "rgb" || name == "rgba" then
      var red :- ParseScaledComponent(arguments.values[0], 255.0, number);
      var green :- ParseScaledComponent(arguments.values[1], 255.0, number);
      var blue :- ParseScaledComponent(arguments.values[2], 255.0, number);
      Some(ColorValue(red, green, blue, alpha))
    else
      var hue :- ParseAngle(arguments.values[0], DEGREES_PER_RADIAN, number);
      var second :- ParsePercentComponent(arguments.values[1], number);
      var third :- ParsePercentComponent(arguments.values[2], number);
      if name == "hwb" then Some(HwbToRgb(hue, second, third, alpha))
      else Some(HslToRgb(HslColor(hue, second, third, alpha)))
  }

  // ---- cutting what was joined ----

  predicate IsToken(s: string) {
    s != "" && forall i :: 0 <= i < |s| ==> !IsSeparator(s[i])
  }

  predicate StartsApart(rest: string) {
    rest == "" || IsSeparator(rest[0])
  }

  lemma {:induction false} TokenEndOf(token: string, rest: string)
    requires (forall i :: 0 <= i < |token| ==> !IsSeparator(token[i])) && StartsApart(rest)
    ensures TokenEnd(token + rest) == |token|
  {
    if token == "" {
      assert token + rest == rest;
    } else {
      assert (token + rest)[1..] == token[1..] + rest;
      TokenEndOf(token[1..], rest);
    }
  }

  lemma TokenCuts(token: string, rest: string, cut: Cut)
    requires IsToken(token) && StartsApart(rest)
    ensures CutRest(token + rest, cut) == CutRest(rest, cut.Push(token))
  {
    TokenEndOf(token, rest);
    Cuts(token, rest);
    assert (token + rest)[0] == token[0];
  }

  /** Blanks and commas between tokens are skipped. */
  lemma {:induction false} GapCuts(gap: string, rest: string, cut: Cut)
    requires forall i :: 0 <= i < |gap| ==> gap[i] == ' ' || gap[i] == ','
    ensures CutRest(gap + rest, cut) == CutRest(rest, cut)
  {
    if gap == "" {
      assert gap + rest == rest;
    } else {
      assert (gap + rest)[1..] == gap[1..] + rest;
      GapCuts(gap[1..], rest, cut);
    }
  }

  /** Three tokens behind one another, and then whatever follows. */
  lemma ThreeCut(a: string, b: string, c: string, gap: string, rest: string)
    requires IsToken(a) && IsToken(b) && IsToken(c) && StartsApart(rest)
    requires gap == ", " || gap == " "
    ensures CutRest(a + (gap + (b + (gap + (c + rest)))), Cut([], [], false)) ==
      CutRest(rest, Cut([a, b, c], [], false))
  {
    var r3 := c + rest;
    var r2 := b + (gap + r3);
    TokenCuts(a, gap + r2, Cut([], [], false));
    GapCuts(gap, r2, Cut([a], [], false));
    TokenCuts(b, gap + r3, Cut([a], [], false));
    GapCuts(gap, r3, Cut([a, b], [], false));
    TokenCuts(c, rest, Cut([a, b], [], false));
    assert [] + [a] == [a] && [a] + [b] == [a, b] && [a, b] + [c] == [a, b, c];
  }

  lemma ThreeSplit(a: string, b: string, c: string, gap: string)
    requires IsToken(a) && IsToken(b) && IsToken(c) && (gap == ", " || gap == " ")
    ensures SplitFunctionalArguments(a + (gap + (b + (gap + (c + ""))))) == Some(Arguments([a, b, c], None))
  {
    ThreeCut(a, b, c, gap, "");
  }

  /** An alpha in fourth place. */
  lemma FourSplit(a: string, b: string, c: string, d: string)
    requires IsToken(a) && IsToken(b) && IsToken(c) && IsToken(d)
    ensures SplitFunctionalArguments(a + (", " + (b + (", " + (c + (", " + (d + ""))))))) ==
      Some(Arguments([a, b, c], Some(d)))
  {
    ThreeCut(a, b, c, ", ", ", " + (d + ""));
    GapCuts(", ", d + "", Cut([a, b, c], [], false));
    TokenCuts(d, "", Cut([a, b, c], [], false));
    var four := [a, b, c] + [d];
    assert four[..3] == [a, b, c] && four[3] == d;
  }

  /** An alpha behind a slash. */
  lemma SlashSplit(a: string, b: string, c: string, d: string)
    requires IsToken(a) && IsToken(b) && IsToken(c) && IsToken(d)
    ensures SplitFunctionalArguments(a + (" " + (b + (" " + (c + (" / " + (d + ""))))))) ==
      Some(Arguments([a, b, c], Some(d)))
  {
    var cut := Cut([a, b, c], [], false);
    ThreeCut(a, b, c, " ", " / " + (d + ""));
    assert " / " + (d + "") == " " + ("/" + (" " + (d + "")));
    GapCuts(" ", "/" + (" " + (d + "")), cut);
    assert ("/" + (" " + (d + "")))[1..] == " " + (d + "");
    GapCuts(" ", d + "", cut.(sawSlash := true));
    TokenCuts(d, "", cut.(sawSlash := true));
    assert [] + [d] == [d];
  }
}
