/** Decimal notation of natural numbers: what std::to_string and printf's %d write. */
module Decimal {
  predicate IsDigit(c: char) {
    '0' <= c <= '9'
  }

  predicate AllDigits(s: string) {
    forall i :: 0 <= i < |s| ==> IsDigit(s[i])
  }

  function DigitChar(d: nat): (c: char)
    requires d < 10
    ensures IsDigit(c) && DigitValue(c) == d
  {
    ('0' as int + d) as char
  }

  function DigitValue(c: char): (d: nat)
    requires IsDigit(c)
    ensures d < 10
  {
    c as int - '0' as int
  }

  function Print(n: nat): (s: string)
    ensures s != "" && AllDigits(s)
  {
    if n < 10 then [DigitChar(n)] else Print(n / 10) + [DigitChar(n % 10)]
  }

  function Value(s: string): nat
    requires AllDigits(s)
  {
    if s == "" then 0 else Value(s[..|s| - 1]) * 10 + DigitValue(s[|s| - 1])
  }

  lemma {:induction false} PrintHasValue(n: nat)
    ensures Value(Print(n)) == n
  {
    if n >= 10 {
      PrintHasValue(n / 10);
      assert Print(n)[..|Print(n)| - 1] == Print(n / 10);
    } else {
      assert Print(n)[..0] == "";
    }
  }

  lemma PrintInjective(m: nat, n: nat)
    requires Print(m) == Print(n)
    ensures m == n
  {
    PrintHasValue(m);
    PrintHasValue(n);
  }

  /** The number at the head of `s`, and what follows it. */
  function TakeDigits(s: string): (n: nat)
    ensures n <= |s| && AllDigits(s[..n])
    ensures n < |s| ==> !IsDigit(s[n])
  {
    if s == "" || !IsDigit(s[0]) then 0
    else
      var n := 1 + TakeDigits(s[1..]);
      assert s[..n] == [s[0]] + s[1..][..n - 1];
      n
  }

  /** A printed number followed by something else is read back as itself. */
  lemma {:induction false} TakeDigitsExact(digits: string, rest: string)
    requires AllDigits(digits) && (rest == "" || !IsDigit(rest[0]))
    ensures TakeDigits(digits + rest) == |digits|
  {
    if digits != "" {
      assert (digits + rest)[1..] == digits[1..] + rest;
      TakeDigitsExact(digits[1..], rest);
    } else {
      assert digits + rest == rest;
    }
  }

  // ---- fixed width ----

  function Power10(w: nat): (p: nat)
    ensures p > 0
  {
    if w == 0 then 1 else 10 * Power10(w - 1)
  }

  /** printf's %0wd of a number that fits. */
  function Pad(n: nat, w: nat): (s: string)
    requires n < Power10(w)
    ensures |s| == w && AllDigits(s)
  {
    if w == 0 then "" else Pad(n / 10, w - 1) + [DigitChar(n % 10)]
  }

  lemma {:induction false} PadHasValue(n: nat, w: nat)
    requires n < Power10(w)
    ensures Value(Pad(n, w)) == n
  {
    if w > 0 {
      PadHasValue(n / 10, w - 1);
      assert Pad(n, w)[..w - 1] == Pad(n / 10, w - 1);
    }
  }

  lemma {:induction false} PadOfValue(s: string)
    requires AllDigits(s)
    ensures Value(s) < Power10(|s|) && Pad(Value(s), |s|) == s
  {
    if s != "" {
      PadOfValue(s[..|s| - 1]);
    }
  }
}
