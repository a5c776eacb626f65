/**
 The proleptic Gregorian calendar behind gmtime_r and timegm, on the years a four-digit field can hold.
 Times are Unix seconds.
 */
module Calendar {
  datatype Civil = Civil(year: int, month: int, day: int, hour: int, minute: int, second: int)

  const DAY: int := 86400

  /** Days from 1 January of year 0 to 1 January 1970. */
  const EPOCH: int := 719528

  predicate Leap(year: int) {
    year % 4 == 0 && (year % 100 != 0 || year % 400 == 0)
  }

  /** Days from 1 January of year 0 to 1 January of `year`. */
  function DaysBeforeYear(year: int): int {
    365 * year + (year + 3) / 4 - (year + 99) / 100 + (year + 399) / 400
  }

  function YearLength(year: int): int {
    if Leap(year) then 366 else 365
  }

  lemma YearStep(year: int)
    ensures DaysBeforeYear(year + 1) == DaysBeforeYear(year) + YearLength(year)
  {
    NextQuotient(year, 4);
    NextQuotient(year, 100);
    NextQuotient(year, 400);
    HundredDivides(year);
  }

  lemma NextQuotient(year: int, m: int)
    requires m == 4 || m == 100 || m == 400
    ensures (year + 1 + m - 1) / m == (year + m - 1) / m + if year % m == 0 then 1 else 0
  {
  }

  lemma HundredDivides(year: int)
    ensures year % 400 == 0 ==> year % 100 == 0
    ensures year % 100 == 0 ==> year % 4 == 0
  {
  }

  lemma {:induction false} YearsOrdered(a: int, b: int)
    requires a <= b
    ensures DaysBeforeYear(a) + 365 * (b - a) <= DaysBeforeYear(b)
    decreases b - a
  {
    if a < b {
      YearStep(b - 1);
      YearsOrdered(a, b - 1);
    }
  }

  /** Days from 1 January to the first of the month. */
  function DaysBeforeMonth(leap: bool, month: int): int
    requires 1 <= month <= 13
  {
    (match month
     case 1 => 0
     case 2 => 31
     case 3 => 59
     case 4 => 90
     case 5 => 120
     case 6 => 151
     case 7 => 181
     case 8 => 212
     case 9 => 243
     case 10 => 273
     case 11 => 304
     case 12 => 334
     case _ => 365)
    + if leap && month > 2 then 1 else 0
  }

  predicate Valid(c: Civil) {
    && 1 <= c.month <= 12
    && 1 <= c.day <= DaysBeforeMonth(Leap(c.year), c.month + 1) - DaysBeforeMonth(Leap(c.year), c.month)
    && 0 <= c.hour < 24 && 0 <= c.minute < 60 && 0 <= c.second < 60
  }

  // ---- timegm ----

  function DayNumber(year: int, month: int, day: int): int
    requires 1 <= month <= 12
  {
    DaysBeforeYear(year) + DaysBeforeMonth(Leap(year), month) + day - 1
  }

  function SecondOfDay(c: Civil): int {
    c.hour * 3600 + c.minute * 60 + c.second
  }

  /** Fields out of range carry over, as timegm has it. */
  function Timegm(c: Civil): int {
    var month0 := c.month - 1;
    (DayNumber(c.year + month0 / 12, month0 % 12 + 1, c.day) - EPOCH) * DAY + SecondOfDay(c)
  }

  lemma TimegmOfValid(c: Civil)
    requires Valid(c)
    ensures Timegm(c) == (DayNumber(c.year, c.month, c.day) - EPOCH) * DAY + SecondOfDay(c)
    ensures 0 <= SecondOfDay(c) < DAY
  {
    MonthStays(c.month);
  }

  lemma MonthStays(month: int)
    requires 1 <= month <= 12
    ensures (month - 1) / 12 == 0 && (month - 1) % 12 + 1 == month
  {
  }

  // ---- gmtime ----

  /** The seconds of the years 0 to 9999. */
  predicate InRange(t: int) {
    -EPOCH * DAY <= t < (DaysBeforeYear(10000) - EPOCH) * DAY
  }

  /** The last year starting no later than `day`, searched upwards from `year`. */
  function YearFrom(year: int, day: int): (y: int)
    requires DaysBeforeYear(year) <= day
    ensures y >= year && DaysBeforeYear(y) <= day < DaysBeforeYear(y + 1)
    decreases day - DaysBeforeYear(year)
  {
    YearStep(year);
    if day < DaysBeforeYear(year + 1) then year else YearFrom(year + 1, day)
  }

  /** The last month starting no later than `day` of the year. */
  function MonthFrom(leap: bool, month: int, day: int): (m: int)
    requires 1 <= month <= 12 && DaysBeforeMonth(leap, month) <= day < DaysBeforeMonth(leap, 13)
    ensures 1 <= m <= 12 && DaysBeforeMonth(leap, m) <= day < DaysBeforeMonth(leap, m + 1)
    decreases 12 - month
  {
    if day < DaysBeforeMonth(leap, month + 1) then month else MonthFrom(leap, month + 1, day)
  }

  function Gmtime(t: int): Civil
    requires InRange(t)
  {
    var day := t / DAY + EPOCH;
    var year := YearFrom(0, day);
    YearStep(year);
    var rest := day - DaysBeforeYear(year);
    var month := MonthFrom(Leap(year), 1, rest);
    var s := t % DAY;
    Civil(year, month, rest - DaysBeforeMonth(Leap(year), month) + 1, s / 3600, s / 60 % 60, s % 60)
  }

  /** gmtime gives real dates of four-digit years, and timegm undoes it. */
  lemma TimegmUndoesGmtime(t: int)
    requires InRange(t)
    ensures Valid(Gmtime(t)) && 0 <= Gmtime(t).year <= 9999 && Timegm(Gmtime(t)) == t
  {
    var c := Gmtime(t);
    ClockReads(t % DAY);
    TimegmOfValid(c);
    if c.year > 9999 {
      YearsOrdered(10000, c.year);
    }
    assert DayNumber(c.year, c.month, c.day) == t / DAY + EPOCH;
  }

  lemma ClockReads(s: int)
    requires 0 <= s < DAY
    ensures 0 <= s / 3600 < 24 && 0 <= s / 60 % 60 < 60 && 0 <= s % 60 < 60
    ensures s / 3600 * 3600 + s / 60 % 60 * 60 + s % 60 == s
  {
    var minutes := s / 60;
    assert minutes / 60 == s / 3600;
    assert minutes == minutes / 60 * 60 + minutes % 60;
  }

  // ---- order ----

  /** Field by field, most significant first. */
  predicate Earlier(a: Civil, b: Civil) {
    if a.year != b.year then a.year < b.year
    else if a.month != b.month then a.month < b.month
    else if a.day != b.day then a.day < b.day
    else if a.hour != b.hour then a.hour < b.hour
    else if a.minute != b.minute then a.minute < b.minute
    else a.second < b.second
  }

  lemma MonthsOrdered(leap: bool, a: int, b: int)
    requires 1 <= a < b <= 13
    ensures DaysBeforeMonth(leap, a + 1) <= DaysBeforeMonth(leap, b)
  {
  }

  lemma DayOfYearFits(c: Civil)
    requires Valid(c)
    ensures DaysBeforeYear(c.year) <= DayNumber(c.year, c.month, c.day) < DaysBeforeYear(c.year + 1)
  {
    YearStep(c.year);
    if c.month < 12 {
      MonthsOrdered(Leap(c.year), c.month, 13);
    }
  }

  lemma EarlierDay(a: Civil, b: Civil)
    requires Valid(a) && Valid(b)
    requires a.year < b.year || (a.year == b.year && (a.month < b.month || (a.month == b.month && a.day < b.day)))
    ensures DayNumber(a.year, a.month, a.day) < DayNumber(b.year, b.month, b.day)
  {
    if a.year < b.year {
      DayOfYearFits(a);
      DayOfYearFits(b);
      YearsOrdered(a.year + 1, b.year);
    } else if a.month < b.month {
      MonthsOrdered(Leap(a.year), a.month, b.month);
    }
  }

  lemma EarlierTime(a: Civil, b: Civil)
    requires Valid(a) && Valid(b) && Earlier(a, b)
    ensures Timegm(a) < Timegm(b)
  {
    TimegmOfValid(a);
    TimegmOfValid(b);
    if a.year != b.year || a.month != b.month || a.day != b.day {
      EarlierDay(a, b);
    }
  }

  /** Real dates are ordered field by field exactly as their seconds are. */
  lemma OrderIsTime(a: Civil, b: Civil)
    requires Valid(a) && Valid(b)
    ensures Earlier(a, b) <==> Timegm(a) < Timegm(b)
  {
    if Earlier(a, b) {
      EarlierTime(a, b);
    } else if Earlier(b, a) {
      EarlierTime(b, a);
    } else {
      assert a == b;
    }
  }
}
