/**
 The calendar by its own rules: midnight of 1 January 1970 is second 0, and one second later is the next second of
 the clock, the day or the month after it. That settles every time.
 */
module CalendarWalk {
  import opened Calendar

  /** Every fourth year is a leap year, but of the centuries only every fourth. */
  predicate LeapYear(year: int) {
    if year % 100 == 0 then year % 400 == 0 else year % 4 == 0
  }

  /** Thirty days have April, June, September and November. */
  function MonthLength(year: int, month: int): int {
    if month == 2 then if LeapYear(year) then 29 else 28
    else if month in {4, 6, 9, 11} then 30
    else 31
  }

  function NextDay(c: Civil): Civil {
    if c.day < MonthLength(c.year, c.month) then Civil(c.year, c.month, c.day + 1, 0, 0, 0)
    else if c.month < 12 then Civil(c.year, c.month + 1, 1, 0, 0, 0)
    else Civil(c.year + 1, 1, 1, 0, 0, 0)
  }

  function Tick(c: Civil): Civil {
    if c.second < 59 then c.(second := c.second + 1)
    else if c.minute < 59 then c.(minute := c.minute + 1, second := 0)
    else if c.hour < 23 then c.(hour := c.hour + 1, minute := 0, second := 0)
    else NextDay(c)
  }

  /** The first second of a year. */
  function NewYear(year: int): Civil {
    Civil(year, 1, 1, 0, 0, 0)
  }

  lemma EpochIsSecondZero(year: int)
    requires year == 1970
    ensures Valid(NewYear(year)) && Timegm(NewYear(year)) == 0
  {
    EpochYear(year);
    NewYearSeconds(year);
  }

  lemma NewYearSeconds(year: int)
    ensures Valid(NewYear(year)) && Timegm(NewYear(year)) == 86400 * (DaysBeforeYear(year) - EPOCH)
  {
  }

  lemma EpochYear(year: int)
    requires year == 1970
    ensures DaysBeforeYear(year) == EPOCH
  {
  }

  lemma GmtimeUndoesTimegm(c: Civil)
    requires Valid(c) && InRange(Timegm(c))
    ensures Gmtime(Timegm(c)) == c
  {
    TimegmUndoesGmtime(Timegm(c));
    SameTime(Gmtime(Timegm(c)), c);
  }

  /** Every second is followed by the next, across minutes, days, months, leap days and years. */
  lemma SecondsFollow(t: int)
    requires InRange(t) && InRange(t + 1)
    ensures Gmtime(t + 1) == Tick(Gmtime(t))
  {
    TimegmUndoesGmtime(t);
    TimegmUndoesGmtime(t + 1);
    TickIsNext(Gmtime(t));
    SameTime(Gmtime(t + 1), Tick(Gmtime(t)));
  }

  lemma SameTime(a: Civil, b: Civil)
    requires Valid(a) && Valid(b) && Timegm(a) == Timegm(b)
    ensures a == b
  {
    OrderIsTime(a, b);
    OrderIsTime(b, a);
  }

  lemma MonthIs(year: int, month: int)
    requires 1 <= month <= 12
    ensures MonthLength(year, month) == DaysBeforeMonth(Leap(year), month + 1) - DaysBeforeMonth(Leap(year), month)
  {
    HundredDivides(year);
  }

  lemma TickIsNext(c: Civil)
    requires Valid(c)
    ensures Valid(Tick(c)) && Timegm(Tick(c)) == Timegm(c) + 1
  {
    MonthIs(c.year, c.month);
    TimegmOfValid(c);
    if c.second == 59 && c.minute == 59 && c.hour == 23 {
      NextDayIsNext(c);
    }
    TimegmOfValid(Tick(c));
  }

  lemma NextDayIsNext(c: Civil)
    requires Valid(c)
    ensures Valid(NextDay(c)) && SecondOfDay(NextDay(c)) == 0
    ensures var d := NextDay(c); DayNumber(d.year, d.month, d.day) == DayNumber(c.year, c.month, c.day) + 1
  {
    MonthIs(c.year, c.month);
    if c.month < 12 {
      MonthIs(c.year, c.month + 1);
    } else if c.day == 31 {
      YearEnds(c.year);
    }
  }

  lemma YearEnds(year: int)
    ensures DayNumber(year + 1, 1, 1) == DayNumber(year, 12, 31) + 1
    ensures DaysBeforeMonth(Leap(year + 1), 2) - DaysBeforeMonth(Leap(year + 1), 1) == 31
  {
    YearStep(year);
  }

  /** Twelve months more are a year more, whatever the month: a month out of range carries. */
  lemma MonthsCarry(c: Civil)
    ensures Timegm(c.(month := c.month + 12)) == Timegm(c.(year := c.year + 1))
  {
  }

  /** The days from the epoch to the date, fields out of range or not. */
  function DayOf(year: int, month: int, day: int): int {
    DayNumber(year + (month - 1) / 12, (month - 1) % 12 + 1, day) - EPOCH
  }

  lemma TimegmIs(c: Civil)
    ensures Timegm(c) == 86400 * DayOf(c.year, c.month, c.day) + SecondOfDay(c)
  {
  }

  lemma DaysAdd(year: int, month: int, day: int, n: int)
    ensures DayOf(year, month, day + n) == DayOf(year, month, day) + n
  {
  }

  /** A day out of range carries too, and so do the fields of the clock. */
  lemma FieldsCarry(c: Civil, n: int)
    ensures Timegm(c.(day := c.day + n)) == Timegm(c) + 86400 * n
    ensures Timegm(c.(hour := c.hour + n)) == Timegm(c) + 3600 * n
    ensures Timegm(c.(minute := c.minute + n)) == Timegm(c) + 60 * n
    ensures Timegm(c.(second := c.second + n)) == Timegm(c) + n
  {
    DaysAdd(c.year, c.month, c.day, n);
    TimegmIs(c);
    TimegmIs(c.(day := c.day + n));
    TimegmIs(c.(hour := c.hour + n));
    TimegmIs(c.(minute := c.minute + n));
    TimegmIs(c.(second := c.second + n));
  }
}
