/**
 * Day-granular dates in the proleptic Gregorian calendar.
 *
 * A date is a day number: day 0 is 1970-01-01. The app normalises every
 * `Date` with `startOfDay`, so at day granularity `startOfDay` is the
 * identity, `addingDays(n)` is `+ n` and comparisons of normalised dates
 * are comparisons of day numbers. `DateString` is the "yyyy-MM-dd" key
 * the habit logs are indexed by.
 */
module Calendar {
  import opened Text

  /** Days since 1970-01-01. */
  type Day = int

  /** The seven weekdays, numbered like the platform calendar: 1 = Sunday ... 7 = Saturday. */
  datatype Weekday = Sunday | Monday | Tuesday | Wednesday | Thursday | Friday | Saturday {

    function Ordinal(): (n: int)
      ensures 1 <= n <= 7
    {
      match this
      case Sunday => 1
      case Monday => 2
      case Tuesday => 3
      case Wednesday => 4
      case Thursday => 5
      case Friday => 6
      case Saturday => 7
    }
  }

  /** `Weekday.from`: the weekday with a given ordinal. */
  function WeekdayFrom(n: int): (w: Weekday)
    requires 1 <= n <= 7
    ensures w.Ordinal() == n
  {
    if n == 1 then Sunday
    else if n == 2 then Monday
    else if n == 3 then Tuesday
    else if n == 4 then Wednesday
    else if n == 5 then Thursday
    else if n == 6 then Friday
    else Saturday
  }

  /** Ordinals identify weekdays: reading back an ordinal gives the same day. */
  lemma WeekdayFromOrdinal(w: Weekday)
    ensures WeekdayFrom(w.Ordinal()) == w
  {
  }

  /** The `.weekday` calendar component of a day; 1970-01-01 was a Thursday. */
  function WeekdayOf(d: Day): Weekday
  {
    WeekdayFrom((d + 4) % 7 + 1)
  }

  lemma EpochIsThursday()
    ensures WeekdayOf(0) == Thursday
  {
  }

  /** Weekdays repeat every seven days, and each day is followed by the next weekday. */
  lemma WeekdayCycle(d: Day)
    ensures WeekdayOf(d + 7) == WeekdayOf(d)
    ensures WeekdayOf(d + 1).Ordinal() == WeekdayOf(d).Ordinal() % 7 + 1
  {
    assert (d + 7 + 4) % 7 == (d + 4) % 7;
  }

  predicate IsLeapYear(y: int)
  {
    y % 4 == 0 && (y % 100 != 0 || y % 400 == 0)
  }

  function DaysInYear(y: int): (n: int)
    ensures n == 365 || n == 366
    ensures n == 366 <==> IsLeapYear(y)
  {
    if IsLeapYear(y) then 366 else 365
  }

  function DaysInMonth(y: int, m: int): (n: int)
    requires 1 <= m <= 12
    ensures 28 <= n <= 31
  {
    if m == 2 then (if IsLeapYear(y) then 29 else 28)
    else if m == 4 || m == 6 || m == 9 || m == 11 then 30
    else 31
  }

  /** Number of days of year `y` that come before the first of month `m` (13 = the next year). */
  function MonthOffset(y: int, m: int): int
    requires 1 <= m <= 13
  {
    var common := [0, 31, 59, 90, 120, 151, 181, 212, 243, 273, 304, 334, 365][m - 1];
    common + (if m > 2 && IsLeapYear(y) then 1 else 0)
  }

  lemma MonthOffsetStep(y: int, m: int)
    requires 1 <= m <= 12
    ensures MonthOffset(y, m + 1) == MonthOffset(y, m) + DaysInMonth(y, m)
  {
  }

  lemma MonthOffsetYear(y: int)
    ensures MonthOffset(y, 1) == 0
    ensures MonthOffset(y, 13) == DaysInYear(y)
  {
  }

  /** Day number of January 1 of year `y`. */
  function YearStart(y: int): Day
    decreases if y < 1970 then 1970 - y else y - 1970
  {
    if y == 1970 then 0
    else if y > 1970 then YearStart(y - 1) + DaysInYear(y - 1)
    else YearStart(y + 1) - DaysInYear(y)
  }

  lemma YearStartStep(y: int)
    ensures YearStart(y + 1) == YearStart(y) + DaysInYear(y)
  {
  }

  /** Later years start later: January 1 of `b` is at least a full year after that of `a`. */
  lemma {:induction false} YearStartMonotone(a: int, b: int)
    requires a < b
    ensures YearStart(a) + DaysInYear(a) <= YearStart(b)
    decreases b - a
  {
    YearStartStep(a);
    if a + 1 < b {
      YearStartMonotone(a + 1, b);
    }
  }

  /** The year containing day `d`, searching upward from year `y`. */
  function YearFrom(y: int, d: Day): (r: int)
    requires YearStart(y) <= d
    ensures YearStart(r) <= d < YearStart(r + 1)
    decreases d - YearStart(y)
  {
    YearStartStep(y);
    if d < YearStart(y + 1) then y else YearFrom(y + 1, d)
  }

  /** The year containing day `d`, searching downward from year `y`. */
  function YearUntil(y: int, d: Day): (r: int)
    requires d < YearStart(y + 1)
    ensures YearStart(r) <= d < YearStart(r + 1)
    decreases YearStart(y + 1) - d
  {
    YearStartStep(y);
    if YearStart(y) <= d then y else YearUntil(y - 1, d)
  }

  /** The `.year` calendar component of a day. */
  function YearOf(d: Day): (y: int)
    ensures YearStart(y) <= d < YearStart(y + 1)
  {
    if d >= 0 then YearFrom(1970, d) else YearUntil(1969, d)
  }

  /** Only one year contains a given day. */
  lemma YearOfUnique(y: int, d: Day)
    requires YearStart(y) <= d < YearStart(y + 1)
    ensures YearOf(d) == y
  {
    var x := YearOf(d);
    if x < y {
      YearStartMonotone(x, y);
      YearStartStep(x);
    } else if y < x {
      YearStartMonotone(y, x);
      YearStartStep(y);
    }
  }

  datatype CivilDate = CivilDate(year: int, month: int, day: int)

  predicate ValidCivil(c: CivilDate)
  {
    1 <= c.month <= 12 && 1 <= c.day <= DaysInMonth(c.year, c.month)
  }

  /** Day number of a calendar date. */
  function DaysFromCivil(c: CivilDate): Day
    requires 1 <= c.month <= 12
  {
    YearStart(c.year) + MonthOffset(c.year, c.month) + c.day - 1
  }

  /** The month of year `y` holding day-of-year `doy`, searching from month `m`. */
  function MonthFrom(y: int, doy: int, m: int): (r: int)
    requires 1 <= m <= 12 && MonthOffset(y, m) <= doy < DaysInYear(y)
    ensures 1 <= r <= 12 && MonthOffset(y, r) <= doy < MonthOffset(y, r + 1)
    decreases MonthOffset(y, 13) - MonthOffset(y, m)
  {
    MonthOffsetStep(y, m);
    MonthOffsetYear(y);
    if doy < MonthOffset(y, m + 1) then m else MonthFrom(y, doy, m + 1)
  }

  /** The calendar date (year, month, day of month) of a day number. */
  function ToCivil(d: Day): (c: CivilDate)
    ensures ValidCivil(c) && DaysFromCivil(c) == d
  {
    var y := YearOf(d);
    YearStartStep(y);
    MonthOffsetYear(y);
    var m := MonthFrom(y, d - YearStart(y), 1);
    MonthOffsetStep(y, m);
    CivilDate(y, m, d - YearStart(y) - MonthOffset(y, m) + 1)
  }

  /** Every valid calendar date is the date of its own day number. */
  lemma CivilRoundTrip(c: CivilDate)
    requires ValidCivil(c)
    ensures ToCivil(DaysFromCivil(c)) == c
  {
    var d := DaysFromCivil(c);
    MonthOffsetStep(c.year, c.month);
    MonthOffsetYear(c.year);
    assert MonthOffset(c.year, c.month + 1) <= DaysInYear(c.year) by {
      MonthOffsetsIncrease(c.year, c.month + 1, 13);
    }
    YearStartStep(c.year);
    YearOfUnique(c.year, d);
    var r := ToCivil(d);
    if r.month < c.month {
      MonthOffsetsIncrease(c.year, r.month + 1, c.month);
    } else if c.month < r.month {
      MonthOffsetsIncrease(c.year, c.month + 1, r.month);
    }
  }

  lemma MonthOffsetsIncrease(y: int, a: int, b: int)
    requires 1 <= a <= b <= 13
    ensures MonthOffset(y, a) <= MonthOffset(y, b)
  {
  }

  /** Distinct days have distinct calendar dates. */
  lemma ToCivilInjective(a: Day, b: Day)
    requires ToCivil(a) == ToCivil(b)
    ensures a == b
  {
  }

  /** The "yyyy" field: the year of the era, at least four digits. */
  function YearText(y: int): string
  {
    if y >= 1 then Padded(y, 4) else Padded(1 - y, 4)
  }

  /** "yyyy-MM-dd" rendering of a calendar date (the year of era for years before 1). */
  function Render(c: CivilDate): string
    requires ValidCivil(c)
  {
    YearText(c.year) + "-" + Padded(c.month, 2) + "-" + Padded(c.day, 2)
  }

  /** `Date.dateString`: the "yyyy-MM-dd" key of a day. */
  function DateString(d: Day): string
  {
    Render(ToCivil(d))
  }

  /** A day in year 1 or later (the common era). */
  predicate InCommonEra(d: Day)
  {
    YearOf(d) >= 1
  }

  /** Where the year, month and day sit in a rendered date. */
  lemma RenderLayout(c: CivilDate)
    requires ValidCivil(c)
    ensures var y := YearText(c.year);
            && |Render(c)| == |y| + 6
            && Render(c)[..|y|] == y
            && Render(c)[|y| + 1..|y| + 3] == Padded(c.month, 2)
            && Render(c)[|y| + 4..] == Padded(c.day, 2)
  {
    PaddedTwo(c.month);
    PaddedTwo(c.day);
  }

  /** Distinct valid dates of the common era render differently. */
  lemma RenderInjective(a: CivilDate, b: CivilDate)
    requires a.year >= 1 && b.year >= 1
    requires ValidCivil(a) && ValidCivil(b)
    requires Render(a) == Render(b)
    ensures a == b
  {
    RenderLayout(a);
    RenderLayout(b);
    var ya, yb := YearText(a.year), YearText(b.year);
    assert |ya| == |yb|;
    PaddedInjective(a.year, b.year, 4);
    PaddedInjective(a.month, b.month, 2);
    PaddedInjective(a.day, b.day, 2);
  }

  /** Two days of the common era share a key only if they are the same day. */
  lemma DateStringInjective(a: Day, b: Day)
    requires InCommonEra(a) && InCommonEra(b)
    requires DateString(a) == DateString(b)
    ensures a == b
  {
    RenderInjective(ToCivil(a), ToCivil(b));
    ToCivilInjective(a, b);
  }
}
