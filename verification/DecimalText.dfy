/**
 Decimal fractions as text: what FormatDouble and FormatAlpha print and ParseNumber reads back
 (Source/Editor/ColorLiteral.cpp:282-306, 485-511). Values are exact reals.
 */
module DecimalText {
  import opened Common
  import opened Decimal
  import opened ColorSpace
  import opened HueNotation

  // ---- reading ----

  /** A number and the unit behind it. */
  datatype Number = Number(value: real, unit: string)

  function Tens(n: nat): (r: real)
    ensures r > 0.0
  {
    if n == 0 then 1.0 else 10.0 * Tens(n - 1)
  }

  function Scaled(mantissa: real, exponent: int): real {
    if exponent >= 0 then mantissa * Tens(exponent) else mantissa / Tens(-exponent)
  }

  /** `digits.fraction` */
  function Fixed(digits: string, fraction: string): real
    requires AllDigits(digits) && AllDigits(fraction)
  {
    Value(digits + fraction) as real / Tens(|fraction|)
  }

  /** The exponent at the head of `s`, and its length; nothing unless a digit follows the sign. */
  function TakeExponent(s: string): (r: (int, nat))
    ensures r.1 <= |s|
  {
    if s == "" || (s[0] != 'e' && s[0] != 'E') then (0, 0)
    else
      var signed := |s| > 1 && (s[1] == '-' || s[1] == '+');
      var from := if signed then 2 else 1;
      var n := TakeDigits(s[from..]);
      if n == 0 then (0, 0)
      else
        var magnitude: int := Value(s[from..][..n]);
        (if signed && s[1] == '-' then -magnitude else magnitude, from + n)
  }

  /** An unsigned number at the head of `s`. */
  function TakeNumber(s: string): Option<Number> {
    var i := TakeDigits(s);
    var fraction := if i < |s| && s[i] == '.' then TakeDigits(s[i + 1..]) else 0;
    if i + fraction == 0 then None
    else
      var digits := s[..i];
      var point := i < |s| && s[i] == '.';
      var parts := if point then s[i + 1..][..fraction] else "";
      var rest := if point then s[i + 1..][fraction..] else s[i..];
      var (exponent, n) := TakeExponent(rest);
      Some(Number(Scaled(Fixed(digits, parts), exponent), rest[n..]))
  }

  /** std::from_chars in its general format, on decimal notation. */
  function ParseNumber(token: string): Option<Number> {
    if token != "" && token[0] == '-' then
      var n :- TakeNumber(token[1..]);
      Some(Number(-n.value, n.unit))
    else TakeNumber(token)
  }

  // ---- printing ----

  function Trim(s: string): (r: string)
    ensures |r| <= |s|
  {
    if s == "" then ""
    else
      var last := s[|s| - 1];
      if last == '0' then Trim(s[..|s| - 1]) else if last == '.' then s[..|s| - 1] else s
  }

  /** `n` units of the last of so many places, trailing zeros and a bare point removed. */
  function PrintUnits(n: nat, decimals: nat): string {
    if decimals == 0 then Print(n)
    else Trim(Print(WholePart(n, decimals)) + "." + Pad(LastDigits(n, decimals), decimals))
  }

  function WholePart(n: nat, decimals: nat): nat {
    Quotient(n, Power10(decimals))
  }

  function Quotient(n: nat, p: nat): nat
    requires p > 0
  {
    n / p
  }

  function LastDigits(n: nat, decimals: nat): (r: nat)
    ensures r < Power10(decimals)
    ensures WholePart(n, decimals) * Power10(decimals) + r == n
  {
    n % Power10(decimals)
  }

  /** printf's `%.df` of a value that is no less than zero. */
  function FormatDouble(value: real, decimals: nat): string
    requires value >= 0.0
  {
    PrintUnits(Units(value, decimals), decimals)
  }

  lemma {:induction false} PowerIsTens(d: nat)
    ensures Tens(d) == Power10(d) as real
  {
    if d > 0 {
      PowerIsTens(d - 1);
    }
  }

  /** The value in units of its last printed place. */
  function Units(value: real, decimals: nat): nat
    requires value >= 0.0
  {
    UnitsAt(value, Tens(decimals))
  }

  function UnitsAt(value: real, scale: real): nat
    requires value >= 0.0 && scale > 0.0
  {
    NonNegative(value, scale);
    Nearest(value * scale)
  }

  function Nearest(x: real): nat
    requires x >= 0.0
  {
    HalfEven(x)
  }

  // ---- reading undoes printing ----

  /** What may stand behind a printed number. */
  predicate Unitlike(unit: string) {
    unit == "" || unit == "%"
  }

  lemma FixedReads(digits: string, fraction: string, unit: string)
    requires digits != "" && AllDigits(digits) && AllDigits(fraction) && Unitlike(unit)
    ensures ParseNumber(digits + "." + fraction + unit) == Some(Number(Fixed(digits, fraction), unit))
  {
    var s, tail := digits + "." + fraction + unit, "." + (fraction + unit);
    assert s == digits + tail;
    TakeDigitsExact(digits, tail);
    TakeDigitsExact(fraction, unit);
    Cuts(digits, tail);
    Cuts(fraction, unit);
    assert s[|digits| + 1..] == fraction + unit;
    assert IsDigit(s[0]);
    assert TakeExponent(unit) == (0, 0);
    assert TakeNumber(s) == Some(Number(Scaled(Fixed(digits, fraction), 0), unit[0..]));
    ScaledByNone(Fixed(digits, fraction));
  }

  lemma WholeReads(digits: string, unit: string)
    requires digits != "" && AllDigits(digits) && Unitlike(unit)
    ensures ParseNumber(digits + unit) == Some(Number(Value(digits) as real, unit))
  {
    var s := digits + unit;
    TakeDigitsExact(digits, unit);
    Cuts(digits, unit);
    assert IsDigit(s[0]);
    assert TakeExponent(unit) == (0, 0);
    assert TakeNumber(s) == Some(Number(Scaled(Fixed(digits, ""), 0), unit[0..]));
    ScaledByNone(Fixed(digits, ""));
    WholeIsFixed(digits);
  }

  lemma WholeIsFixed(digits: string)
    requires AllDigits(digits)
    ensures Fixed(digits, "") == Value(digits) as real
  {
    assert digits + "" == digits;
  }

  lemma ScaledByNone(m: real)
    ensures Scaled(m, 0) == m
  {
  }

  lemma Cuts(a: string, b: string)
    ensures (a + b)[..|a|] == a && (a + b)[|a|..] == b
  {
  }

  /** Dropping zeros at the end, and then a bare point, changes no value. */
  lemma {:induction false} TrimReads(digits: string, fraction: string, unit: string)
    requires digits != "" && AllDigits(digits) && AllDigits(fraction) && Unitlike(unit)
    ensures ParseNumber(Trim(digits + "." + fraction) + unit) == Some(Number(Fixed(digits, fraction), unit))
  {
    if fraction == "" {
      TrimPoint(digits);
      WholeReads(digits, unit);
      WholeIsFixed(digits);
    } else {
      var front := fraction[..|fraction| - 1];
      assert fraction == front + [fraction[|fraction| - 1]];
      if fraction[|fraction| - 1] == '0' {
        TrimZero(digits, front);
        TrimReads(digits, front, unit);
        ZeroDropped(digits, front);
      } else {
        TrimNothing(digits, front, fraction[|fraction| - 1]);
        FixedReads(digits, fraction, unit);
      }
    }
  }

  lemma TrimPoint(digits: string)
    ensures Trim(digits + "." + "") == digits
  {
    var s := digits + "." + "";
    assert s[..|s| - 1] == digits;
  }

  lemma TrimZero(digits: string, front: string)
    ensures Trim(digits + "." + (front + "0")) == Trim(digits + "." + front)
  {
    var s := digits + "." + (front + "0");
    assert s[..|s| - 1] == digits + "." + front;
  }

  lemma TrimNothing(digits: string, front: string, last: char)
    requires last != '0' && last != '.'
    ensures Trim(digits + "." + (front + [last])) == digits + "." + (front + [last])
  {
  }

  lemma ZeroDropped(digits: string, front: string)
    requires AllDigits(digits) && AllDigits(front)
    ensures AllDigits(front + "0") && Fixed(digits, front + "0") == Fixed(digits, front)
  {
    var all := digits + (front + "0");
    assert all[..|all| - 1] == digits + front;
    assert Value(all) == Value(digits + front) * 10;
    TenOver(Value(digits + front) as real, Tens(|front|));
    assert Tens(|front + "0"|) == 10.0 * Tens(|front|);
  }

  lemma TenOver(v: real, t: real)
    requires t > 0.0
    ensures v * 10.0 / (10.0 * t) == v / t
  {
  }

  lemma {:induction false} ValueOfPadded(digits: string, n: nat, w: nat)
    requires AllDigits(digits) && n < Power10(w)
    ensures Value(digits + Pad(n, w)) == Value(digits) * Power10(w) + n
  {
    if w == 0 {
      assert digits + "" == digits;
    } else {
      ValueOfPadded(digits, n / 10, w - 1);
      var all := digits + Pad(n, w);
      assert all[..|all| - 1] == digits + Pad(n / 10, w - 1);
      assert all[|all| - 1] == DigitChar(n % 10);
      Regroup(Value(digits), Power10(w - 1), n);
    }
  }

  lemma Regroup(v: nat, p: nat, n: nat)
    ensures (v * p + n / 10) * 10 + n % 10 == v * (10 * p) + n
  {
  }

  lemma UnitsRead(n: nat, decimals: nat, unit: string)
    requires Unitlike(unit)
    ensures ParseNumber(PrintUnits(n, decimals) + unit) == Some(Number(n as real / Tens(decimals), unit))
  {
    if decimals == 0 {
      WholeReads(Print(n), unit);
      PrintHasValue(n);
    } else {
      PartsRead(WholePart(n, decimals), LastDigits(n, decimals), decimals, n, unit);
    }
  }

  lemma PartsRead(whole: nat, part: nat, decimals: nat, n: nat, unit: string)
    requires part < Power10(decimals) && whole * Power10(decimals) + part == n && Unitlike(unit)
    ensures ParseNumber(Trim(Print(whole) + "." + Pad(part, decimals)) + unit) ==
      Some(Number(n as real / Tens(decimals), unit))
  {
    TrimReads(Print(whole), Pad(part, decimals), unit);
    ValueOfPadded(Print(whole), part, decimals);
    PrintHasValue(whole);
  }

  /** A printed number reads back as the value rounded to its last printed place. */
  lemma FormatReads(value: real, decimals: nat, unit: string)
    requires value >= 0.0 && Unitlike(unit)
    ensures ParseNumber(FormatDouble(value, decimals) + unit) ==
      Some(Number(Units(value, decimals) as real / Tens(decimals), unit))
  {
    UnitsRead(Units(value, decimals), decimals, unit);
  }

  // ---- what a printed number looks like ----

  /** Digits and points only. */
  predicate Numeric(s: string) {
    s != "" && forall i :: 0 <= i < |s| ==> IsDigit(s[i]) || s[i] == '.'
  }

  lemma {:induction false} TrimIsNumeric(s: string)
    requires s != "" && IsDigit(s[0]) && forall i :: 0 <= i < |s| ==> IsDigit(s[i]) || s[i] == '.'
    requires exists i :: 0 < i < |s| && s[i] == '.'
    ensures Numeric(Trim(s))
  {
    if s[|s| - 1] == '0' {
      TrimIsNumeric(s[..|s| - 1]);
    }
  }

  lemma UnitsAreNumeric(n: nat, decimals: nat)
    ensures Numeric(PrintUnits(n, decimals))
  {
    if decimals > 0 {
      var digits, fraction := Print(WholePart(n, decimals)), Pad(LastDigits(n, decimals), decimals);
      var s := digits + "." + fraction;
      assert s[|digits|] == '.';
      TrimIsNumeric(s);
    }
  }

  lemma {:induction false} PrintLength(n: nat, w: nat)
    requires 0 < w && n < Power10(w)
    ensures |Print(n)| <= w
  {
    if n >= 10 {
      assert w > 1;
      PrintLength(n / 10, w - 1);
    }
  }
}
