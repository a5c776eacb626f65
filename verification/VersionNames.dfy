/**
 The names of backup versions, `v-YYYYmmdd-HHMMSS-NN.bak` (Source/Editor/Backup.cpp:154-205): fixed-width
 fields, so that the order of names is the order of time.
 */
module VersionNames {
  import opened Common
  import opened Decimal
  import opened TextOrder
  import opened Calendar

  // ---- fixed-width numbers ----

  lemma {:induction false} PadIsOrdered(m: nat, n: nat, w: nat)
    requires m < Power10(w) && n < Power10(w)
    ensures Less(Pad(m, w), Pad(n, w)) <==> m < n
    ensures Pad(m, w) == Pad(n, w) <==> m == n
  {
    if w > 0 {
      PadIsOrdered(m / 10, n / 10, w - 1);
      var c, d := DigitChar(m % 10), DigitChar(n % 10);
      LessByPrefix(Pad(m / 10, w - 1), Pad(n / 10, w - 1), [c], [d]);
      assert Less([c], [d]) <==> c < d by {
        assert [c][1..] == "" && [d][1..] == "";
      }
      PadHasValue(m, w);
      PadHasValue(n, w);
    }
  }

  /** One field of a name, with what separates it from the next. */
  lemma FieldIsOrdered(m: nat, n: nat, w: nat, gap: string, x: string, y: string)
    requires m < Power10(w) && n < Power10(w)
    ensures Less(Pad(m, w) + (gap + x), Pad(n, w) + (gap + y)) <==> m < n || (m == n && Less(x, y))
  {
    PadIsOrdered(m, n, w);
    LessByPrefix(Pad(m, w), Pad(n, w), gap + x, gap + y);
    LessUnderPrefix(gap, x, y);
  }

  // ---- the names ----

  datatype Stamp = Stamp(time: Civil, sequence: int)

  predicate Fits(s: Stamp) {
    && 0 <= s.time.year < 10000 && 0 <= s.time.month < 100 && 0 <= s.time.day < 100
    && 0 <= s.time.hour < 100 && 0 <= s.time.minute < 100 && 0 <= s.time.second < 100
    && 0 <= s.sequence < 100
  }

  lemma Powers()
    ensures Power10(2) == 100 && Power10(4) == 10000
  {
    assert Power10(1) == 10;
    assert Power10(3) == 1000;
  }

  function Sequenced(s: Stamp, tail: string): string
    requires Fits(s)
  {
    Powers();
    Pad(s.sequence, 2) + ("" + tail)
  }

  function Clocked(s: Stamp, tail: string): string
    requires Fits(s)
  {
    Powers();
    Pad(s.time.hour, 2) + ("" + (Pad(s.time.minute, 2) + ("" + (Pad(s.time.second, 2) + ("-" + Sequenced(s, tail))))))
  }

  /** The fields of a version's name, whatever follows them. */
  function Written(s: Stamp, tail: string): string
    requires Fits(s)
  {
    Powers();
    var monthOn := Pad(s.time.month, 2) + ("" + (Pad(s.time.day, 2) + ("-" + Clocked(s, tail))));
    "v-" + (Pad(s.time.year, 4) + ("" + monthOn))
  }

  const EXTENSION: string := ".bak"

  lemma DaysFit(c: Civil)
    requires Valid(c)
    ensures c.day <= 31
  {
  }

  function StampAt(timestamp: int, sequence: int): (s: Stamp)
    requires InRange(timestamp) && 0 <= sequence < 100
    ensures Fits(s) && Valid(s.time) && Timegm(s.time) == timestamp && s.sequence == sequence
  {
    TimegmUndoesGmtime(timestamp);
    var time := Gmtime(timestamp);
    DaysFit(time);
    Stamp(time, sequence)
  }

  function VersionFileName(timestamp: int, sequence: int): string
    requires InRange(timestamp) && 0 <= sequence < 100
  {
    Written(StampAt(timestamp, sequence), EXTENSION)
  }

  predicate ClockLess(a: Stamp, b: Stamp, x: string, y: string)
    requires Fits(a) && Fits(b)
  {
    if a.time.hour != b.time.hour then a.time.hour < b.time.hour
    else if a.time.minute != b.time.minute then a.time.minute < b.time.minute
    else if a.time.second != b.time.second then a.time.second < b.time.second
    else a.sequence < b.sequence || (a.sequence == b.sequence && Less(x, y))
  }

  lemma ClockIsOrdered(a: Stamp, b: Stamp, x: string, y: string)
    requires Fits(a) && Fits(b)
    ensures Less(Clocked(a, x), Clocked(b, y)) <==> ClockLess(a, b, x, y)
  {
    Powers();
    FieldIsOrdered(a.sequence, b.sequence, 2, "", x, y);
    var xs, ys := Sequenced(a, x), Sequenced(b, y);
    FieldIsOrdered(a.time.second, b.time.second, 2, "-", xs, ys);
    var xm, ym := Pad(a.time.second, 2) + ("-" + xs), Pad(b.time.second, 2) + ("-" + ys);
    FieldIsOrdered(a.time.minute, b.time.minute, 2, "", xm, ym);
    FieldIsOrdered(a.time.hour, b.time.hour, 2, "",
                   Pad(a.time.minute, 2) + ("" + xm), Pad(b.time.minute, 2) + ("" + ym));
  }

  lemma WrittenIsOrdered(a: Stamp, b: Stamp, x: string, y: string)
    requires Fits(a) && Fits(b)
    ensures Less(Written(a, x), Written(b, y)) <==>
      Earlier(a.time, b.time) ||
      (a.time == b.time && (a.sequence < b.sequence || (a.sequence == b.sequence && Less(x, y))))
  {
    Powers();
    ClockIsOrdered(a, b, x, y);
    var xs, ys := Clocked(a, x), Clocked(b, y);
    FieldIsOrdered(a.time.day, b.time.day, 2, "-", xs, ys);
    var xm, ym := Pad(a.time.day, 2) + ("-" + xs), Pad(b.time.day, 2) + ("-" + ys);
    FieldIsOrdered(a.time.month, b.time.month, 2, "", xm, ym);
    var xy, yy := Pad(a.time.month, 2) + ("" + xm), Pad(b.time.month, 2) + ("" + ym);
    FieldIsOrdered(a.time.year, b.time.year, 4, "", xy, yy);
    LessUnderPrefix("v-", Pad(a.time.year, 4) + ("" + xy), Pad(b.time.year, 4) + ("" + yy));
  }

  lemma StampsSortByTime(a: Stamp, b: Stamp, x: string, y: string)
    requires Fits(a) && Fits(b) && Valid(a.time) && Valid(b.time)
    ensures Less(Written(a, x), Written(b, y)) <==>
      var t, u := Timegm(a.time), Timegm(b.time);
      t < u || (t == u && (a.sequence < b.sequence || (a.sequence == b.sequence && Less(x, y))))
  {
    WrittenIsOrdered(a, b, x, y);
    OrderIsTime(a.time, b.time);
    OrderIsTime(b.time, a.time);
    SameTime(a.time, b.time);
  }

  lemma SameTime(a: Civil, b: Civil)
    ensures a == b || Earlier(a, b) || Earlier(b, a)
  {
  }

  /** The order of two versions' names is that of their seconds, then of their sequence numbers. */
  lemma NamesSortByTime(t: int, i: int, u: int, j: int)
    requires InRange(t) && InRange(u) && 0 <= i < 100 && 0 <= j < 100
    ensures Less(VersionFileName(t, i), VersionFileName(u, j)) <==> t < u || (t == u && i < j)
  {
    StampsSortByTime(StampAt(t, i), StampAt(u, j), EXTENSION, EXTENSION);
    LessIsTotal(EXTENSION, EXTENSION);
  }

  /** Different versions have different names. */
  lemma NamesAreDistinct(t: int, i: int, u: int, j: int)
    requires InRange(t) && InRange(u) && 0 <= i < 100 && 0 <= j < 100
    ensures VersionFileName(t, i) == VersionFileName(u, j) <==> t == u && i == j
  {
    NamesSortByTime(t, i, u, j);
    NamesSortByTime(u, j, t, i);
    LessIsTotal(VersionFileName(t, i), VersionFileName(u, j));
  }

  // ---- reading a name ----

  function Eat(s: string, literal: string): Option<string> {
    if literal <= s then Some(s[|literal|..]) else None
  }

  function SkipSpace(s: string): string {
    if s != "" && IsSpace(s[0]) then SkipSpace(s[1..]) else s
  }

  function SignLength(s: string): nat {
    if s != "" && (s[0] == '+' || s[0] == '-') then 1 else 0
  }

  /** The digits at the head of `s`, at most `w` of them. */
  function DigitsWithin(s: string, w: nat): (n: nat)
    ensures n <= w && n <= |s| && AllDigits(s[..n])
    ensures n == w || n == |s| || !IsDigit(s[n])
  {
    var n := TakeDigits(s);
    if n < w then n else w
  }

  function Signed(sign: string, digits: string): int
    requires AllDigits(digits)
  {
    var n: int := Value(digits);
    if sign == "-" then -n else n
  }

  /** scanf's `%wd`: white space, and then a number of at most `w` characters, its sign included. */
  function ReadNumber(s: string, w: nat): Option<(int, string)>
    requires w > 0
  {
    var t := SkipSpace(s);
    var sign, rest := t[..SignLength(t)], t[SignLength(t)..];
    var n := DigitsWithin(rest, w - |sign|);
    if n == 0 then None else Some((Signed(sign, rest[..n]), rest[n..]))
  }

  /** A number and the separator behind it. */
  function Field(s: string, w: nat, gap: string): Option<(int, string)>
    requires w > 0
  {
    var (n, more) :- ReadNumber(s, w);
    var rest :- Eat(more, gap);
    Some((n, rest))
  }

  function ReadClock(s: string): Option<(int, int, int, int)> {
    var (hour, s1) :- Field(s, 2, "");
    var (minute, s2) :- Field(s1, 2, "");
    var (second, s3) :- Field(s2, 2, "-");
    var (sequence, _) :- Field(s3, 2, "");
    Some((hour, minute, second, sequence))
  }

  /** The seven numbers, whatever follows the last: a scanf format is satisfied once they are read. */
  function ReadStamp(name: string): Option<Stamp> {
    var s0 :- Eat(name, "v-");
    var (year, s1) :- Field(s0, 4, "");
    var (month, s2) :- Field(s1, 2, "");
    var (day, s3) :- Field(s2, 2, "-");
    var (hour, minute, second, sequence) :- ReadClock(s3);
    Some(Stamp(Civil(year, month, day, hour, minute, second), sequence))
  }

  function ParseVersionTimestamp(name: string): Option<int> {
    var stamp :- ReadStamp(name);
    Some(Timegm(stamp.time))
  }

  // ---- which names parse ----

  /** A number as a name may spell it. */
  datatype Spelling = Spelling(space: string, sign: string, digits: string) {
    function Text(): string {
      space + (sign + digits)
    }

    /** Before `rest` it is read as a field of width `w`, to its end. */
    predicate Stands(w: nat, rest: string) {
      && (forall i :: 0 <= i < |space| ==> IsSpace(space[i])) && (sign == "" || sign == "+" || sign == "-")
      && digits != "" && AllDigits(digits) && |sign| + |digits| <= w
      && (|sign| + |digits| == w || rest == "" || !IsDigit(rest[0]))
    }

    function Number(): int
      requires AllDigits(digits)
    {
      Signed(sign, digits)
    }

    /** Spelled as the program spells it. */
    predicate IsPadded(w: nat) {
      space == "" && sign == "" && |digits| == w && AllDigits(digits)
    }
  }

  lemma {:induction false} SpaceSkipped(space: string, rest: string)
    requires (forall i :: 0 <= i < |space| ==> IsSpace(space[i])) && (rest == "" || !IsSpace(rest[0]))
    ensures SkipSpace(space + rest) == rest
  {
    if space == "" {
      assert space + rest == rest;
    } else {
      SpaceSkipped(space[1..], rest);
      assert (space + rest)[1..] == space[1..] + rest;
    }
  }

  lemma {:induction false} SkippedIsSpace(s: string) returns (space: string)
    ensures s == space + SkipSpace(s) && forall i :: 0 <= i < |space| ==> IsSpace(space[i])
    ensures SkipSpace(s) == "" || !IsSpace(SkipSpace(s)[0])
  {
    space := "";
    if s != "" && IsSpace(s[0]) {
      var more := SkippedIsSpace(s[1..]);
      space := [s[0]] + more;
    }
  }

  lemma DigitsStop(digits: string, rest: string, w: nat)
    requires AllDigits(digits) && |digits| <= w && (|digits| == w || rest == "" || !IsDigit(rest[0]))
    ensures DigitsWithin(digits + rest, w) == |digits|
  {
    var s := digits + rest;
    var n := DigitsWithin(s, w);
    assert forall i :: 0 <= i < |digits| ==> s[i] == digits[i];
    assert forall i :: 0 <= i < n ==> s[i] == s[..n][i];
    assert rest != "" ==> s[|digits|] == rest[0];
  }

  lemma NumberReads(p: Spelling, w: nat, rest: string)
    requires w > 0 && p.Stands(w, rest)
    ensures ReadNumber(p.Text() + rest, w) == Some((p.Number(), rest))
  {
    var t := p.sign + (p.digits + rest);
    assert p.Text() + rest == p.space + t;
    assert t[0] == if p.sign == "" then p.digits[0] else p.sign[0];
    SpaceSkipped(p.space, t);
    assert SignLength(t) == |p.sign| && t[..|p.sign|] == p.sign && t[|p.sign|..] == p.digits + rest;
    DigitsStop(p.digits, rest, w - |p.sign|);
    assert (p.digits + rest)[..|p.digits|] == p.digits && (p.digits + rest)[|p.digits|..] == rest;
  }

  lemma NumberIsSpelled(s: string, w: nat) returns (p: Spelling)
    requires w > 0 && ReadNumber(s, w).Some?
    ensures var (n, rest) := ReadNumber(s, w).value;
      s == p.Text() + rest && p.Stands(w, rest) && n == p.Number()
  {
    var space := SkippedIsSpace(s);
    var t := SkipSpace(s);
    var sign, more := t[..SignLength(t)], t[SignLength(t)..];
    var n := DigitsWithin(more, w - |sign|);
    p := Spelling(space, sign, more[..n]);
    SignIs(t);
    SpellingStands(space, sign, more, n, w);
    Concatenated(s, space, t, sign, more, n);
  }

  lemma SpellingStands(space: string, sign: string, more: string, n: nat, w: nat)
    requires (forall i :: 0 <= i < |space| ==> IsSpace(space[i])) && (sign == "" || sign == "+" || sign == "-")
    requires |sign| <= w && n > 0 && n == DigitsWithin(more, w - |sign|)
    ensures Spelling(space, sign, more[..n]).Stands(w, more[n..])
  {
    assert n < |more| ==> more[n..][0] == more[n];
  }

  lemma SignIs(t: string)
    ensures t[..SignLength(t)] == "" || t[..SignLength(t)] == "+" || t[..SignLength(t)] == "-"
  {
  }

  lemma Concatenated(s: string, space: string, t: string, sign: string, more: string, n: nat)
    requires s == space + t && t == sign + more && n <= |more|
    ensures s == space + (sign + more[..n]) + more[n..]
  {
    assert more == more[..n] + more[n..];
  }

  lemma FieldReads(p: Spelling, w: nat, gap: string, rest: string)
    requires w > 0 && p.Stands(w, gap + rest)
    ensures Field(p.Text() + (gap + rest), w, gap) == Some((p.Number(), rest))
  {
    NumberReads(p, w, gap + rest);
    assert (gap + rest)[|gap|..] == rest;
  }

  lemma FieldIsSpelled(s: string, w: nat, gap: string) returns (p: Spelling)
    requires w > 0 && Field(s, w, gap).Some?
    ensures var (n, rest) := Field(s, w, gap).value;
      s == p.Text() + (gap + rest) && p.Stands(w, gap + rest) && n == p.Number()
  {
    p := NumberIsSpelled(s, w);
    var more := ReadNumber(s, w).value.1;
    assert more == gap + more[|gap|..];
  }

  /** A time of day and a sequence number as a name may spell them. */
  datatype ClockSpelling = ClockSpelling(hour: Spelling, minute: Spelling, second: Spelling, sequence: Spelling) {
    function Text(tail: string): string {
      hour.Text() + ("" + (minute.Text() + ("" + (second.Text() + ("-" + (sequence.Text() + ("" + tail)))))))
    }

    predicate Stands(tail: string) {
      && hour.Stands(2, "" + (minute.Text() + ("" + (second.Text() + ("-" + (sequence.Text() + ("" + tail)))))))
      && minute.Stands(2, "" + (second.Text() + ("-" + (sequence.Text() + ("" + tail)))))
      && second.Stands(2, "-" + (sequence.Text() + ("" + tail)))
      && sequence.Stands(2, "" + tail)
    }
  }

  datatype NameSpelling = NameSpelling(year: Spelling, month: Spelling, day: Spelling, clock: ClockSpelling) {
    function Text(tail: string): string {
      "v-" + (year.Text() + ("" + (month.Text() + ("" + (day.Text() + ("-" + clock.Text(tail)))))))
    }

    predicate Stands(tail: string) {
      && year.Stands(4, "" + (month.Text() + ("" + (day.Text() + ("-" + clock.Text(tail))))))
      && month.Stands(2, "" + (day.Text() + ("-" + clock.Text(tail))))
      && day.Stands(2, "-" + clock.Text(tail))
      && clock.Stands(tail)
    }

    predicate IsPadded() {
      && year.IsPadded(4) && month.IsPadded(2) && day.IsPadded(2)
      && clock.hour.IsPadded(2) && clock.minute.IsPadded(2) && clock.second.IsPadded(2) && clock.sequence.IsPadded(2)
    }

    function Time(): Civil
      requires AllDigits(year.digits) && AllDigits(month.digits) && AllDigits(day.digits)
      requires AllDigits(clock.hour.digits) && AllDigits(clock.minute.digits) && AllDigits(clock.second.digits)
    {
      Civil(year.Number(), month.Number(), day.Number(),
            clock.hour.Number(), clock.minute.Number(), clock.second.Number())
    }
  }

  lemma ClockReads(c: ClockSpelling, tail: string)
    requires c.Stands(tail)
    ensures ReadClock(c.Text(tail)) ==
      Some((c.hour.Number(), c.minute.Number(), c.second.Number(), c.sequence.Number()))
  {
    var s3 := c.sequence.Text() + ("" + tail);
    var s2 := c.second.Text() + ("-" + s3);
    var s1 := c.minute.Text() + ("" + s2);
    FieldReads(c.sequence, 2, "", tail);
    FieldReads(c.second, 2, "-", s3);
    FieldReads(c.minute, 2, "", s2);
    FieldReads(c.hour, 2, "", s1);
  }

  lemma NameReads(n: NameSpelling, tail: string)
    requires n.Stands(tail)
    ensures ReadStamp(n.Text(tail)) == Some(Stamp(n.Time(), n.clock.sequence.Number()))
  {
    ClockReads(n.clock, tail);
    var s3 := n.clock.Text(tail);
    var s2 := n.day.Text() + ("-" + s3);
    var s1 := n.month.Text() + ("" + s2);
    var s0 := n.year.Text() + ("" + s1);
    FieldReads(n.day, 2, "-", s3);
    FieldReads(n.month, 2, "", s2);
    FieldReads(n.year, 4, "", s1);
    assert ("v-" + s0)[2..] == s0;
  }

  lemma ClockIsSpelled(s: string) returns (c: ClockSpelling, tail: string)
    requires ReadClock(s).Some?
    ensures c.Stands(tail) && s == c.Text(tail)
  {
    var hour := FieldIsSpelled(s, 2, "");
    var s1 := Field(s, 2, "").value.1;
    var minute := FieldIsSpelled(s1, 2, "");
    var s2 := Field(s1, 2, "").value.1;
    var second := FieldIsSpelled(s2, 2, "-");
    var s3 := Field(s2, 2, "-").value.1;
    var sequence := FieldIsSpelled(s3, 2, "");
    tail := Field(s3, 2, "").value.1;
    c := ClockSpelling(hour, minute, second, sequence);
  }

  lemma NameIsSpelled(name: string) returns (n: NameSpelling, tail: string)
    requires ReadStamp(name).Some?
    ensures n.Stands(tail) && name == n.Text(tail)
  {
    var s0 := name[2..];
    assert name == "v-" + s0;
    var year := FieldIsSpelled(s0, 4, "");
    var s1 := Field(s0, 4, "").value.1;
    var month := FieldIsSpelled(s1, 2, "");
    var s2 := Field(s1, 2, "").value.1;
    var day := FieldIsSpelled(s2, 2, "-");
    var s3 := Field(s2, 2, "-").value.1;
    var clock, more := ClockIsSpelled(s3);
    n, tail := NameSpelling(year, month, day, clock), more;
  }

  /**
   Exactly these names are read as versions, and as these times: `v-`, and then seven numbers, each of which may
   have white space and a sign before it, with two more hyphens between them and anything behind them.
   */
  lemma ParsesExactly(name: string, time: int)
    ensures ParseVersionTimestamp(name) == Some(time) <==>
      exists n: NameSpelling, tail: string :: n.Stands(tail) && name == n.Text(tail) && time == Timegm(n.Time())
  {
    if ParseVersionTimestamp(name) == Some(time) {
      var n, tail := NameIsSpelled(name);
      NameReads(n, tail);
    }
    if n: NameSpelling, tail: string :| n.Stands(tail) && name == n.Text(tail) && time == Timegm(n.Time()) {
      NameReads(n, tail);
    }
  }

  // ---- names the program writes ----

  function Padded(n: nat, w: nat): Spelling
    requires n < Power10(w)
  {
    Spelling("", "", Pad(n, w))
  }

  lemma PaddedIs(n: nat, w: nat, rest: string)
    requires n < Power10(w) && w > 0
    ensures Padded(n, w).Text() == Pad(n, w) && Padded(n, w).Stands(w, rest) && Padded(n, w).Number() == n
  {
    PadHasValue(n, w);
  }

  function ClockSpelled(s: Stamp): ClockSpelling
    requires Fits(s)
  {
    Powers();
    ClockSpelling(Padded(s.time.hour, 2), Padded(s.time.minute, 2), Padded(s.time.second, 2), Padded(s.sequence, 2))
  }

  function Spelled(s: Stamp): NameSpelling
    requires Fits(s)
  {
    Powers();
    NameSpelling(Padded(s.time.year, 4), Padded(s.time.month, 2), Padded(s.time.day, 2), ClockSpelled(s))
  }

  lemma ClockIsPadded(s: Stamp, tail: string)
    requires Fits(s)
    ensures ClockSpelled(s).Text(tail) == Clocked(s, tail) && ClockSpelled(s).Stands(tail)
    ensures ClockSpelled(s).sequence.Number() == s.sequence
  {
    Powers();
    var s3 := Sequenced(s, tail);
    var s2 := Pad(s.time.second, 2) + ("-" + s3);
    var s1 := Pad(s.time.minute, 2) + ("" + s2);
    PaddedIs(s.sequence, 2, "" + tail);
    PaddedIs(s.time.second, 2, "-" + s3);
    PaddedIs(s.time.minute, 2, "" + s2);
    PaddedIs(s.time.hour, 2, "" + s1);
  }

  lemma WrittenIsSpelled(s: Stamp, tail: string)
    requires Fits(s)
    ensures Spelled(s).Text(tail) == Written(s, tail) && Spelled(s).Stands(tail) && Spelled(s).Time() == s.time
  {
    Powers();
    ClockIsPadded(s, tail);
    var s3 := Clocked(s, tail);
    var s2 := Pad(s.time.day, 2) + ("-" + s3);
    var s1 := Pad(s.time.month, 2) + ("" + s2);
    PaddedIs(s.time.day, 2, "-" + s3);
    PaddedIs(s.time.month, 2, "" + s2);
    PaddedIs(s.time.year, 4, "" + s1);
    PadHasValue(s.time.hour, 2);
    PadHasValue(s.time.minute, 2);
    PadHasValue(s.time.second, 2);
  }

  lemma WrittenReads(s: Stamp, tail: string)
    requires Fits(s)
    ensures ReadStamp(Written(s, tail)) == Some(s)
  {
    WrittenIsSpelled(s, tail);
    ClockIsPadded(s, tail);
    NameReads(Spelled(s), tail);
  }

  lemma IsPad(p: Spelling, w: nat)
    requires p.IsPadded(w)
    ensures p.Number() == Value(p.digits) && 0 <= p.Number() < Power10(w) && p == Padded(p.Number(), w)
  {
    PadOfValue(p.digits);
  }

  lemma PaddedNameIsWritten(n: NameSpelling) returns (s: Stamp)
    requires n.IsPadded()
    ensures Fits(s) && n == Spelled(s)
  {
    Powers();
    IsPad(n.year, 4);
    IsPad(n.month, 2);
    IsPad(n.day, 2);
    IsPad(n.clock.hour, 2);
    IsPad(n.clock.minute, 2);
    IsPad(n.clock.second, 2);
    IsPad(n.clock.sequence, 2);
    s := Stamp(n.Time(), n.clock.sequence.Number());
  }

  /** Of the names that parse, those in digits of full width are what the program writes, with anything behind it. */
  lemma PaddedNamesAreWritten(name: string)
    ensures (exists n: NameSpelling, tail: string :: n.IsPadded() && n.Stands(tail) && name == n.Text(tail)) <==>
      exists s: Stamp, tail: string :: Fits(s) && name == Written(s, tail)
  {
    if n: NameSpelling, tail: string :| n.IsPadded() && n.Stands(tail) && name == n.Text(tail) {
      var s := PaddedNameIsWritten(n);
      WrittenIsSpelled(s, tail);
    }
    if s: Stamp, tail: string :| Fits(s) && name == Written(s, tail) {
      WrittenIsSpelled(s, tail);
      Powers();
      assert Spelled(s).IsPadded();
    }
  }

  /** Reading a version's name gives back the second it was written for. */
  lemma ParsingUndoesNaming(timestamp: int, sequence: int)
    requires InRange(timestamp) && 0 <= sequence < 100
    ensures ParseVersionTimestamp(VersionFileName(timestamp, sequence)) == Some(timestamp)
  {
    WrittenReads(StampAt(timestamp, sequence), EXTENSION);
  }

  /**
   What lies beside the versions is no version, but a version's own leftover temporary file counts as one, and
   so does a name whose numbers are not padded.
   */
  lemma OnlyVersionsParse(timestamp: int, sequence: int)
    requires InRange(timestamp) && 0 <= sequence < 100
    ensures ParseVersionTimestamp("autosave") == None && ParseVersionTimestamp("path") == None
    ensures ParseVersionTimestamp(VersionFileName(timestamp, sequence) + ".ned-tmp") == Some(timestamp)
    ensures ParseVersionTimestamp("v-1 2 3-4 5 6-7").Some?
  {
    var s := StampAt(timestamp, sequence);
    WrittenReads(s, EXTENSION + ".ned-tmp");
    TailMoves(s, EXTENSION, ".ned-tmp");
    Unversioned("autosave");
    Unversioned("path");
    LooseNameParses();
  }

  lemma Unversioned(name: string)
    requires name != "" && name[0] != 'v'
    ensures ParseVersionTimestamp(name) == None
  {
  }

  lemma LooseNameParses()
    ensures ParseVersionTimestamp("v-1 2 3-4 5 6-7").Some?
  {
    var clock := ClockSpelling(Bare("4"), Indented("5"), Indented("6"), Bare("7"));
    var name := NameSpelling(Bare("1"), Indented("2"), Indented("3"), clock);
    LooseClock(clock);
    LooseName(name, clock);
    NameReads(name, "");
  }

  lemma LooseClock(clock: ClockSpelling)
    requires clock == ClockSpelling(Bare("4"), Indented("5"), Indented("6"), Bare("7"))
    ensures clock.Text("") == "4 5 6-7" && clock.Stands("")
  {
  }

  lemma LooseName(name: NameSpelling, clock: ClockSpelling)
    requires name == NameSpelling(Bare("1"), Indented("2"), Indented("3"), clock)
    requires clock.Text("") == "4 5 6-7" && clock.Stands("")
    ensures name.Text("") == "v-1 2 3-4 5 6-7" && name.Stands("")
  {
    LooseText(name.year.Text(), name.month.Text(), name.day.Text(), clock.Text(""));
    LooseStands(name, clock, name.day.Text() + ("-" + clock.Text("")));
  }

  lemma LooseText(year: string, month: string, day: string, clock: string)
    requires year == "1" && month == " 2" && day == " 3" && clock == "4 5 6-7"
    ensures "v-" + (year + ("" + (month + ("" + (day + ("-" + clock)))))) == "v-1 2 3-4 5 6-7"
  {
    var fromDay := day + ("-" + clock);
    assert fromDay == " 3-4 5 6-7";
    var fromMonth := month + ("" + fromDay);
    assert fromMonth == " 2 3-4 5 6-7";
    assert year + ("" + fromMonth) == "1 2 3-4 5 6-7";
  }

  lemma LooseStands(name: NameSpelling, clock: ClockSpelling, fromDay: string)
    requires name == NameSpelling(Bare("1"), Indented("2"), Indented("3"), clock) && clock.Stands("")
    requires fromDay == name.day.Text() + ("-" + clock.Text(""))
    ensures name.Stands("")
  {
    assert fromDay[0] == ' ' && (name.month.Text() + ("" + fromDay))[0] == ' ';
  }

  function Bare(digits: string): Spelling {
    Spelling("", "", digits)
  }

  function Indented(digits: string): Spelling {
    Spelling(" ", "", digits)
  }

  lemma TailMoves(s: Stamp, tail: string, more: string)
    requires Fits(s)
    ensures Written(s, tail) + more == Written(s, tail + more)
  {
    Powers();
    ClockTailMoves(s, tail, more);
  }

  lemma ClockTailMoves(s: Stamp, tail: string, more: string)
    requires Fits(s)
    ensures Clocked(s, tail) + more == Clocked(s, tail + more)
  {
  }
}
