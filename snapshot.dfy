/**
 * `HabitSnapshotBuilder`: the trend series, streaks, completion rate and
 * caption shown for a time scope.
 *
 * The wall clock is a parameter: `today` is the day `Date().startOfDay`
 * names. Completion values and rates are exact reals. The loops of the
 * source (`calculateDayValue`, `calculateMonthValue`, `calculateStreaks`,
 * `calculateCompletion`) are methods, each proved equal to a recursive
 * specification function; the `compactMap` builders are functions over
 * those specifications.
 */
module SnapshotBuilder {
  import opened Options
  import opened Text
  import opened Calendar
  import opened HabitModel
  import opened Ratios

  datatype TimeScope = Weekly | Monthly | Yearly {

    function Title(): string
    {
      match this
      case Weekly => "7 days"
      case Monthly => "30 days"
      case Yearly => "12 months"
    }
  }

  /** A plotted point (`text` is the Swift `label`). */
  datatype HabitEntry = HabitEntry(text: string, value: real, date: Option<Day>)

  datatype HabitSnapshot = HabitSnapshot(
    scope: TimeScope,
    entries: seq<HabitEntry>,
    caption: string,
    currentStreak: int,
    bestStreak: int,
    completionRate: real)

  /** No habit has a negative minutes entry (only `addMinutes` with a negative amount could make one). */
  predicate NonNegativeLogs(habits: seq<Habit>)
  {
    forall i, key :: 0 <= i < |habits| && key in habits[i].minutesLog ==> habits[i].minutesLog[key] >= 0
  }

  function Max(a: int, b: int): int
  {
    if a < b then b else a
  }

  // ---------------------------------------------------------------------------
  // Earliest start date

  /** `habits.map { $0.startDate.startOfDay }.min()` */
  function MinStart(habits: seq<Habit>): (r: Option<Day>)
    ensures r.None? <==> habits == []
    ensures r.Some? ==> exists i :: 0 <= i < |habits| && habits[i].startDate == r.value
    ensures r.Some? ==> forall i :: 0 <= i < |habits| ==> r.value <= habits[i].startDate
    decreases |habits|
  {
    if habits == [] then None
    else
      var last := habits[|habits| - 1].startDate;
      match MinStart(habits[..|habits| - 1])
      case None => Some(last)
      case Some(m) => Some(if last < m then last else m)
  }

  /** The earliest start date, or `today` for an empty list. */
  function EarliestStart(habits: seq<Habit>, today: Day): Day
  {
    MinStart(habits).GetOr(today)
  }

  // ---------------------------------------------------------------------------
  // Day value (`calculateDayValue`)

  /** `habits.contains { date >= $0.startDate && $0.isActiveDay(date) }` */
  predicate AnyEligible(habits: seq<Habit>, d: Day)
  {
    exists i :: 0 <= i < |habits| && IsEligible(habits[i], d)
  }

  /** A habit is eligible only on or after its start, so an eligible day is never before the earliest start. */
  lemma EligibleNotBeforeEarliest(habits: seq<Habit>, d: Day, today: Day)
    requires AnyEligible(habits, d)
    ensures EarliestStart(habits, today) <= d
  {
  }

  /** Number of habits eligible on `d`. */
  function EligibleCount(habits: seq<Habit>, d: Day): (n: nat)
    ensures n <= |habits|
    ensures n == 0 <==> !AnyEligible(habits, d)
    decreases |habits|
  {
    if habits == [] then 0
    else
      var prefix := habits[..|habits| - 1];
      assert forall i :: 0 <= i < |prefix| ==> prefix[i] == habits[i];
      EligibleCount(prefix, d) + (if IsEligible(habits[|habits| - 1], d) then 1 else 0)
  }

  /** Sum of the completion values of the habits eligible on `d`. */
  function CompletionTotal(habits: seq<Habit>, d: Day): real
    decreases |habits|
  {
    if habits == [] then 0.0
    else
      var h := habits[|habits| - 1];
      CompletionTotal(habits[..|habits| - 1], d) + (if IsEligible(h, d) then CompletionValue(h, d) else 0.0)
  }

  /** Each eligible habit adds at most 1, and nothing negative when no minutes entry is negative. */
  lemma {:induction false} CompletionTotalBounds(habits: seq<Habit>, d: Day)
    ensures CompletionTotal(habits, d) <= EligibleCount(habits, d) as real
    ensures NonNegativeLogs(habits) ==> CompletionTotal(habits, d) >= 0.0
    ensures EligibleCount(habits, d) == 0 ==> CompletionTotal(habits, d) == 0.0
    decreases |habits|
  {
    if habits != [] {
      var prefix := habits[..|habits| - 1];
      var h := habits[|habits| - 1];
      CompletionTotalBounds(prefix, d);
      assert forall i :: 0 <= i < |prefix| ==> prefix[i] == habits[i];
      assert NonNegativeLogs(habits) ==> NonNegativeLogs(prefix) && MinutesOn(h, d) >= 0;
    }
  }

  /** The mean completion value of the eligible habits, 0 when none is eligible. */
  function DayValue(habits: seq<Habit>, d: Day): (v: real)
    ensures v <= 1.0
    ensures NonNegativeLogs(habits) ==> v >= 0.0
    ensures !AnyEligible(habits, d) ==> v == 0.0
  {
    CompletionTotalBounds(habits, d);
    MeanBounds(CompletionTotal(habits, d), EligibleCount(habits, d));
    Mean(CompletionTotal(habits, d), EligibleCount(habits, d))
  }

  /** `calculateDayValue(for:habits:)` */
  method CalculateDayValue(d: Day, habits: seq<Habit>) returns (v: real)
    ensures v == DayValue(habits, d)
  {
    var totalActive, totalCompletion := AddDayTotals(habits, d, 0, 0.0);
    if totalActive == 0 {
      return 0.0;
    }
    v := totalCompletion / totalActive as real;
  }

  /** Habit `h` is fully complete on `d` if it is eligible then. */
  predicate CompleteIfEligible(h: Habit, d: Day)
  {
    IsEligible(h, d) ==> CompletionValue(h, d) == 1.0
  }

  /** Every habit eligible on `d` is fully complete on `d`. */
  predicate AllEligibleComplete(habits: seq<Habit>, d: Day)
  {
    forall i :: 0 <= i < |habits| ==> CompleteIfEligible(habits[i], d)
  }

  /** The total reaches the count exactly when every eligible habit is fully complete. */
  lemma {:induction false} TotalIsCountIff(habits: seq<Habit>, d: Day)
    ensures CompletionTotal(habits, d) == EligibleCount(habits, d) as real <==> AllEligibleComplete(habits, d)
    decreases |habits|
  {
    if habits != [] {
      var prefix := habits[..|habits| - 1];
      TotalIsCountIff(prefix, d);
      CompletionTotalBounds(prefix, d);
      AllEligibleCompleteLast(habits, d);
    }
  }

  /** Every eligible habit is complete iff it holds for all but the last one and for the last one. */
  lemma AllEligibleCompleteLast(habits: seq<Habit>, d: Day)
    requires habits != []
    ensures AllEligibleComplete(habits, d) <==>
            AllEligibleComplete(habits[..|habits| - 1], d) && CompleteIfEligible(habits[|habits| - 1], d)
  {
    var prefix := habits[..|habits| - 1];
    if AllEligibleComplete(habits, d) {
      forall i | 0 <= i < |prefix|
        ensures CompleteIfEligible(prefix[i], d)
      {
        assert prefix[i] == habits[i];
      }
    }
    if AllEligibleComplete(prefix, d) && CompleteIfEligible(habits[|prefix|], d) {
      forall i | 0 <= i < |habits|
        ensures CompleteIfEligible(habits[i], d)
      {
        if i < |prefix| {
          assert habits[i] == prefix[i];
        }
      }
    }
  }

  /**
   * A day with an eligible habit reaches day value 1 (the streak's "complete")
   * iff every eligible habit is fully complete.
   */
  lemma DayCompleteIff(habits: seq<Habit>, d: Day)
    requires AnyEligible(habits, d)
    ensures DayValue(habits, d) >= 1.0 <==> AllEligibleComplete(habits, d)
    ensures DayValue(habits, d) >= 1.0 <==> DayValue(habits, d) == 1.0
  {
    CompletionTotalBounds(habits, d);
    MeanBounds(CompletionTotal(habits, d), EligibleCount(habits, d));
    TotalIsCountIff(habits, d);
  }

  /** A habit whose start is after `d` does not change the day value of `d`. */
  lemma {:induction false} NotYetStartedIgnored(habits: seq<Habit>, h: Habit, d: Day)
    requires d < h.startDate
    ensures EligibleCount(habits + [h], d) == EligibleCount(habits, d)
    ensures CompletionTotal(habits + [h], d) == CompletionTotal(habits, d)
    ensures DayValue(habits + [h], d) == DayValue(habits, d)
  {
    assert (habits + [h])[..|habits|] == habits;
  }

  // ---------------------------------------------------------------------------
  // Weekly and monthly entries (`buildEntries`)

  function WeekdayShortName(w: Weekday): string
  {
    match w
    case Sunday => "Sun"
    case Monday => "Mon"
    case Tuesday => "Tue"
    case Wednesday => "Wed"
    case Thursday => "Thu"
    case Friday => "Fri"
    case Saturday => "Sat"
  }

  /** `monthLabel(_:)`: the "MMM" abbreviation of a month number. */
  function MonthLabel(m: int): string
  {
    if 1 <= m <= 12
    then ["Jan", "Feb", "Mar", "Apr", "May", "Jun", "Jul", "Aug", "Sep", "Oct", "Nov", "Dec"][m - 1]
    else ""
  }

  /** `formatLabel(for:scope:)` in an English locale: "EEE" cut to 3, "MMM d", or "MMM". */
  function FormatLabel(d: Day, scope: TimeScope): string
  {
    var c := ToCivil(d);
    match scope
    case Weekly => WeekdayShortName(WeekdayOf(d))
    case Monthly => MonthLabel(c.month) + " " + Decimal(c.day)
    case Yearly => MonthLabel(c.month)
  }

  /** Weekly labels are three-letter weekday names, yearly ones the month's name, monthly ones the month's name and the day; distinct months get distinct names. */
  lemma FormatLabelShape(d: Day, scope: TimeScope, m1: int, m2: int)
    requires 1 <= m1 <= 12 && 1 <= m2 <= 12 && m1 != m2
    ensures scope == Weekly ==> FormatLabel(d, scope) == WeekdayShortName(WeekdayOf(d)) && |FormatLabel(d, scope)| == 3
    ensures scope == Yearly ==> FormatLabel(d, scope) == MonthLabel(ToCivil(d).month) && |FormatLabel(d, scope)| == 3
    ensures scope == Monthly ==> FormatLabel(d, scope) == MonthLabel(ToCivil(d).month) + " " + Decimal(ToCivil(d).day)
    ensures MonthLabel(m1) != MonthLabel(m2)
  {
    var names := ["Jan", "Feb", "Mar", "Apr", "May", "Jun", "Jul", "Aug", "Sep", "Oct", "Nov", "Dec"];
    assert MonthLabel(m1) == names[m1 - 1] && MonthLabel(m2) == names[m2 - 1];
    assert names[m1 - 1] != names[m2 - 1] by {
      assert forall i, j :: 0 <= i < j < 12 ==> names[i] != names[j];
    }
  }

  function DayEntry(habits: seq<Habit>, scope: TimeScope, d: Day): HabitEntry
  {
    HabitEntry(FormatLabel(d, scope), DayValue(habits, d), Some(d))
  }

  /**
   * The days from `first` to `last` kept by the `compactMap` guard: those not
   * before `earliest`, in date order.
   */
  function WindowDays(first: Day, last: Day, earliest: Day): (ds: seq<Day>)
    decreases last - first + 1
  {
    if last < first then []
    else WindowDays(first, last - 1, earliest) + (if last >= earliest then [last] else [])
  }

  /** The kept days run consecutively from the later of `first` and `earliest` up to `last`. */
  lemma {:induction false} WindowDaysRange(first: Day, last: Day, earliest: Day, ds: seq<Day>)
    requires ds == WindowDays(first, last, earliest)
    ensures |ds| == Max(0, last + 1 - Max(first, earliest))
    ensures forall k :: 0 <= k < |ds| ==> ds[k] == Max(first, earliest) + k
    decreases last - first + 1
  {
    if last >= first {
      var prev := WindowDays(first, last - 1, earliest);
      WindowDaysRange(first, last - 1, earliest, prev);
      if last >= earliest {
        assert ds == prev + [last];
        forall k | 0 <= k < |ds|
          ensures ds[k] == Max(first, earliest) + k
        {
          if k < |prev| {
            assert ds[k] == prev[k];
          }
        }
      } else {
        assert ds == prev;
      }
    }
  }

  /** The entries of the kept days, one per day. */
  function EntriesOf(habits: seq<Habit>, scope: TimeScope, ds: seq<Day>): (r: seq<HabitEntry>)
    ensures |r| == |ds|
    ensures forall k :: 0 <= k < |ds| ==> r[k] == DayEntry(habits, scope, ds[k])
  {
    seq(|ds|, k requires 0 <= k < |ds| => DayEntry(habits, scope, ds[k]))
  }

  /** `buildEntries(from:scope:)`: the last 7 or 30 days, or the months of the current year. */
  function BuildEntries(habits: seq<Habit>, scope: TimeScope, today: Day): seq<HabitEntry>
  {
    if scope == Yearly then YearlyEntries(habits, today) else DailyEntries(habits, scope, today)
  }

  /** The weekly and monthly branch of `buildEntries`: the entries of the kept days among the last `daysCount`. */
  function DailyEntries(habits: seq<Habit>, scope: TimeScope, today: Day): seq<HabitEntry>
  {
    var daysCount := ScopeDays(scope);
    EntriesOf(habits, scope, WindowDays(today - daysCount + 1, today, EarliestStart(habits, today)))
  }

  /**
   * Whatever the scope, the series holds at most one entry per day of the
   * scope (one per month for a year), every entry is dated, and the dates
   * strictly increase.
   */
  lemma BuildEntriesInOrder(habits: seq<Habit>, scope: TimeScope, today: Day)
    ensures var r := BuildEntries(habits, scope, today);
            && |r| <= (if scope == Yearly then 12 else ScopeDays(scope))
            && (forall k :: 0 <= k < |r| ==> r[k].date.Some?)
            && (forall j, k :: 0 <= j < k < |r| ==> r[j].date.value < r[k].date.value)
  {
    var r := BuildEntries(habits, scope, today);
    if scope == Yearly {
      YearlyEntriesShape(habits, today, r);
      YearlyEntriesInOrder(habits, today);
    } else {
      DailyEntriesShape(habits, scope, today, r);
      assert forall k :: 0 <= k < |r| ==> r[k].date == Some(today - |r| + 1 + k);
    }
  }

  /** The kept days `ds` of the `n` days ending today are the last |ds| of them, from the earliest start on. */
  lemma WindowEndingToday(today: Day, n: nat, earliest: Day, ds: seq<Day>)
    requires ds == WindowDays(today - n + 1, today, earliest)
    ensures |ds| <= n
    ensures |ds| == 0 <==> n == 0 || earliest > today
    ensures |ds| > 0 ==> today - |ds| + 1 >= earliest
    ensures forall k :: 0 <= k < |ds| ==> ds[k] == today - |ds| + 1 + k
  {
    WindowDaysRange(today - n + 1, today, earliest, ds);
  }

  /** The entries `r` of the `n` days ending today: one per kept day, oldest first, ending today. */
  lemma EntriesEndingToday(habits: seq<Habit>, scope: TimeScope, today: Day, n: nat, earliest: Day, ds: seq<Day>, r: seq<HabitEntry>)
    requires ds == WindowDays(today - n + 1, today, earliest) && r == EntriesOf(habits, scope, ds)
    ensures |r| == |ds|
    ensures forall k :: 0 <= k < |r| ==> r[k] == DayEntry(habits, scope, today - |r| + 1 + k)
  {
    WindowEndingToday(today, n, earliest, ds);
    EntriesOfConsecutive(habits, scope, ds, r, today);
  }

  /** The entries of the days ending today are the entries of those days, in order. */
  lemma EntriesOfConsecutive(habits: seq<Habit>, scope: TimeScope, ds: seq<Day>, r: seq<HabitEntry>, today: Day)
    requires |r| == |ds| && forall k :: 0 <= k < |ds| ==> r[k] == DayEntry(habits, scope, ds[k])
    requires forall k :: 0 <= k < |ds| ==> ds[k] == today - |ds| + 1 + k
    ensures forall k :: 0 <= k < |r| ==> r[k] == DayEntry(habits, scope, today - |r| + 1 + k)
  {
    forall k | 0 <= k < |r|
      ensures r[k] == DayEntry(habits, scope, today - |r| + 1 + k)
    {
      var d := ds[k];
      assert d == today - |r| + 1 + k;
      assert r[k] == DayEntry(habits, scope, d);
    }
  }

  /**
   * Weekly and monthly series: at most 7 or 30 entries, one per consecutive day,
   * oldest first, ending today and starting no earlier than the earliest start;
   * each entry is the day's label, day value and date.
   */
  lemma DailyEntriesShape(habits: seq<Habit>, scope: TimeScope, today: Day, r: seq<HabitEntry>)
    requires scope != Yearly && r == DailyEntries(habits, scope, today)
    ensures |r| <= ScopeDays(scope)
    ensures |r| == 0 <==> EarliestStart(habits, today) > today
    ensures |r| > 0 ==> today - |r| + 1 >= EarliestStart(habits, today)
    ensures forall k :: 0 <= k < |r| ==> r[k] == DayEntry(habits, scope, today - |r| + 1 + k)
  {
    var n := ScopeDays(scope);
    var ds := WindowDays(today - n + 1, today, EarliestStart(habits, today));
    WindowEndingToday(today, n, EarliestStart(habits, today), ds);
    EntriesEndingToday(habits, scope, today, n, EarliestStart(habits, today), ds, r);
  }

  /** With no habits the fallback start is today, so the weekly and monthly series hold today alone, valued 0. */
  lemma EmptyDailyEntries(scope: TimeScope, today: Day)
    requires scope != Yearly
    ensures DailyEntries([], scope, today) == [HabitEntry(FormatLabel(today, scope), 0.0, Some(today))]
  {
    var r := DailyEntries([], scope, today);
    DailyEntriesShape([], scope, today, r);
    assert |r| == 1;
    assert r[0] == DayEntry([], scope, today);
  }

  // ---------------------------------------------------------------------------
  // Yearly entries (`buildYearlyEntries`, `calculateMonthValue`)

  function MonthStart(y: int, m: int): Day
    requires 1 <= m <= 12
  {
    DaysFromCivil(CivilDate(y, m, 1))
  }

  /** The last day of a month: its first day, plus a month, less a day. */
  function MonthEnd(y: int, m: int): Day
    requires 1 <= m <= 12
  {
    MonthStart(y, m) + DaysInMonth(y, m) - 1
  }

  /** The month's last day is the calendar date (y, m, days in m). */
  lemma MonthEndIsLastDay(y: int, m: int)
    requires 1 <= m <= 12
    ensures ToCivil(MonthEnd(y, m)) == CivilDate(y, m, DaysInMonth(y, m))
  {
    CivilRoundTrip(CivilDate(y, m, DaysInMonth(y, m)));
  }

  /** The day after a month's last day starts the next month, or the next year after December. */
  lemma MonthEndThenNextMonth(y: int, m: int)
    requires 1 <= m <= 12
    ensures m < 12 ==> MonthEnd(y, m) + 1 == MonthStart(y, m + 1)
    ensures m == 12 ==> MonthEnd(y, m) + 1 == YearStart(y + 1)
  {
    MonthOffsetStep(y, m);
    MonthOffsetYear(y);
  }

  /** Later months end later. */
  lemma MonthEndIncreasing(y: int, a: int, b: int)
    requires 1 <= a < b <= 12
    ensures MonthEnd(y, a) < MonthEnd(y, b)
  {
    MonthOffsetStep(y, a);
    MonthOffsetStep(y, b);
    MonthOffsetsIncrease(y, a + 1, b);
  }

  /** Sum of the day values of the `n` days from `start`. */
  function SumDayValues(habits: seq<Habit>, start: Day, n: nat): (s: real)
    ensures s <= n as real
    ensures NonNegativeLogs(habits) ==> s >= 0.0
    decreases n
  {
    if n == 0 then 0.0 else SumDayValues(habits, start, n - 1) + DayValue(habits, start + n - 1)
  }

  /** The month's mean day value over its `end - start + 1` days (0 for a span of one day). */
  function MonthValue(habits: seq<Habit>, start: Day, end: Day): (v: real)
    ensures v <= 1.0
    ensures NonNegativeLogs(habits) ==> v >= 0.0
  {
    var days := end - start;
    if days > 0 then
      MeanBounds(SumDayValues(habits, start, days + 1), days + 1);
      Mean(SumDayValues(habits, start, days + 1), days + 1)
    else 0.0
  }

  /** `calculateMonthValue(start:end:habits:)` */
  method CalculateMonthValue(start: Day, end: Day, habits: seq<Habit>) returns (v: real)
    requires start <= end
    ensures v == MonthValue(habits, start, end)
  {
    var days := end - start;
    var totalValue := 0.0;
    for dayOffset := 0 to days + 1
      invariant totalValue == SumDayValues(habits, start, dayOffset)
    {
      var dayValue := CalculateDayValue(start + dayOffset, habits);
      totalValue := totalValue + dayValue;
    }
    v := if days > 0 then totalValue / (days + 1) as real else 0.0;
  }

  function MonthEntry(habits: seq<Habit>, y: int, m: int): HabitEntry
    requires 1 <= m <= 12
  {
    HabitEntry(MonthLabel(m), MonthValue(habits, MonthStart(y, m), MonthEnd(y, m)), Some(MonthStart(y, m)))
  }

  /** The months 1..n of year `y` kept by the `compactMap` guard: those ending on or after `earliest`, in order. */
  function KeptMonths(y: int, earliest: Day, n: nat): (ms: seq<int>)
    requires n <= 12
    ensures forall k :: 0 <= k < |ms| ==> 1 <= ms[k] <= n
    decreases n
  {
    if n == 0 then []
    else KeptMonths(y, earliest, n - 1) + (if MonthEnd(y, n) < earliest then [] else [n])
  }

  /** The months left out are a prefix: month m is kept iff it ends on or after `earliest`, iff it is among the last |ms|. */
  lemma {:induction false} KeptMonthsSuffix(y: int, earliest: Day, n: nat, ms: seq<int>)
    requires n <= 12 && ms == KeptMonths(y, earliest, n)
    ensures |ms| <= n
    ensures forall m :: 1 <= m <= n ==> (MonthEnd(y, m) >= earliest <==> m > n - |ms|)
    decreases n
  {
    if n > 0 {
      var prev := KeptMonths(y, earliest, n - 1);
      KeptMonthsSuffix(y, earliest, n - 1, prev);
      if MonthEnd(y, n) < earliest {
        assert ms == prev;
        forall m | 1 <= m < n ensures MonthEnd(y, m) < earliest {
          MonthEndIncreasing(y, m, n);
        }
      } else {
        assert ms == prev + [n];
      }
    }
  }

  /** The kept months are consecutive and end with month n. */
  lemma {:induction false} KeptMonthsConsecutive(y: int, earliest: Day, n: nat, ms: seq<int>)
    requires n <= 12 && ms == KeptMonths(y, earliest, n)
    ensures forall k :: 0 <= k < |ms| ==> ms[k] == n - |ms| + 1 + k
    decreases n
  {
    if n > 0 {
      var prev := KeptMonths(y, earliest, n - 1);
      KeptMonthsConsecutive(y, earliest, n - 1, prev);
      if MonthEnd(y, n) < earliest {
        assert ms == prev;
        if |prev| > 0 {
          KeptMonthsSuffix(y, earliest, n - 1, prev);
          MonthEndIncreasing(y, n - 1, n);
          assert false;
        }
      } else {
        assert ms == prev + [n];
        forall k | 0 <= k < |ms|
          ensures ms[k] == n - |ms| + 1 + k
        {
          if k < |prev| {
            assert ms[k] == prev[k];
          }
        }
      }
    }
  }

  /** The entries of the kept months, one per month. */
  function MonthEntries(habits: seq<Habit>, y: int, ms: seq<int>): (r: seq<HabitEntry>)
    requires forall k :: 0 <= k < |ms| ==> 1 <= ms[k] <= 12
    ensures |r| == |ms|
    ensures forall k :: 0 <= k < |ms| ==> r[k] == MonthEntry(habits, y, ms[k])
  {
    seq(|ms|, k requires 0 <= k < |ms| => MonthEntry(habits, y, ms[k]))
  }

  /** `buildYearlyEntries(from:)`: January to December of today's year, from the first month that reaches the earliest start. */
  function YearlyEntries(habits: seq<Habit>, today: Day): seq<HabitEntry>
  {
    var y := YearOf(today);
    MonthEntries(habits, y, KeptMonths(y, EarliestStart(habits, today), 12))
  }

  /** The value of a month is the mean of its day values over all of its days. */
  lemma MonthValueIsMean(habits: seq<Habit>, y: int, m: int)
    requires 1 <= m <= 12
    ensures MonthEntry(habits, y, m).value ==
            SumDayValues(habits, MonthStart(y, m), DaysInMonth(y, m)) / DaysInMonth(y, m) as real
    ensures MonthEntry(habits, y, m).date == Some(MonthStart(y, m))
  {
  }

  /** The entries `r` of the kept months of a year: the last |r| months in month order, with increasing dates. */
  lemma KeptMonthEntries(habits: seq<Habit>, y: int, earliest: Day, ms: seq<int>, r: seq<HabitEntry>)
    requires ms == KeptMonths(y, earliest, 12) && r == MonthEntries(habits, y, ms)
    ensures |r| <= 12
    ensures forall m :: 1 <= m <= 12 ==> (MonthEnd(y, m) >= earliest <==> m > 12 - |r|)
    ensures forall k :: 0 <= k < |r| ==> r[k] == MonthEntry(habits, y, 12 - |r| + 1 + k)
  {
    KeptMonthsSuffix(y, earliest, 12, ms);
    KeptMonthsConsecutive(y, earliest, 12, ms);
    forall k | 0 <= k < |r|
      ensures r[k] == MonthEntry(habits, y, 12 - |r| + 1 + k)
    {
      assert ms[k] == 12 - |r| + 1 + k;
    }
  }

  /** Entries of increasing months carry increasing dates, each the first day of its month. */
  lemma MonthEntriesInOrder(habits: seq<Habit>, y: int, ms: seq<int>, r: seq<HabitEntry>)
    requires forall k :: 0 <= k < |ms| ==> 1 <= ms[k] <= 12
    requires forall j, k :: 0 <= j < k < |ms| ==> ms[j] < ms[k]
    requires r == MonthEntries(habits, y, ms)
    ensures forall k :: 0 <= k < |r| ==> r[k].date == Some(MonthStart(y, ms[k]))
    ensures forall j, k :: 0 <= j < k < |r| ==> r[j].date.value < r[k].date.value
  {
    forall j, k | 0 <= j < k < |r|
      ensures r[j].date.value < r[k].date.value
    {
      MonthStartIncreasing(y, ms[j], ms[k]);
    }
  }

  /**
   * Yearly series: at most 12 entries, the months of today's year in month
   * order with increasing dates; month m is present iff its last day is not
   * before the earliest start, so the months left out are the first ones.
   */
  lemma YearlyEntriesShape(habits: seq<Habit>, today: Day, r: seq<HabitEntry>)
    requires r == YearlyEntries(habits, today)
    ensures |r| <= 12
    ensures forall m :: 1 <= m <= 12 ==> (MonthEnd(YearOf(today), m) >= EarliestStart(habits, today) <==> m > 12 - |r|)
    ensures forall k :: 0 <= k < |r| ==> r[k] == MonthEntry(habits, YearOf(today), 12 - |r| + 1 + k)
  {
    var y := YearOf(today);
    var ms := KeptMonths(y, EarliestStart(habits, today), 12);
    KeptMonthEntries(habits, y, EarliestStart(habits, today), ms, r);
  }

  /** The yearly entries are in month order: each is dated, and the dates increase. */
  lemma YearlyEntriesInOrder(habits: seq<Habit>, today: Day)
    ensures var r := YearlyEntries(habits, today);
            && (forall k :: 0 <= k < |r| ==> r[k].date.Some?)
            && (forall j, k :: 0 <= j < k < |r| ==> r[j].date.value < r[k].date.value)
  {
    var y := YearOf(today);
    var ms := KeptMonths(y, EarliestStart(habits, today), 12);
    KeptMonthsConsecutive(y, EarliestStart(habits, today), 12, ms);
    MonthEntriesInOrder(habits, y, ms, YearlyEntries(habits, today));
  }

  lemma MonthStartIncreasing(y: int, a: int, b: int)
    requires 1 <= a < b <= 12
    ensures MonthStart(y, a) < MonthStart(y, b)
  {
    MonthOffsetStep(y, a);
    MonthOffsetsIncrease(y, a + 1, b);
  }

  // ---------------------------------------------------------------------------
  // Streaks (`calculateStreaks`)

  datatype StreakState = StreakState(current: int, best: int, temp: int)

  /** One iteration of the streak scan, on the day `dayOffset` days before today. */
  function ScanStep(habits: seq<Habit>, today: Day, earliest: Day, s: StreakState, dayOffset: int): StreakState
  {
    var d := today - dayOffset;
    if d < earliest || !AnyEligible(habits, d) then s
    else if DayValue(habits, d) >= 1.0 then
      var temp := s.temp + 1;
      StreakState(if dayOffset == 0 then temp else s.current, Max(s.best, temp), temp)
    else
      StreakState(if dayOffset == 0 then 0 else s.current, s.best, 0)
  }

  /** The scan state after its first `k` iterations (day offsets 364 down to 365 - k). */
  function ScanAfter(habits: seq<Habit>, today: Day, earliest: Day, k: nat): StreakState
    requires k <= 365
    decreases k
  {
    if k == 0 then StreakState(0, 0, 0)
    else ScanStep(habits, today, earliest, ScanAfter(habits, today, earliest, k - 1), 365 - k)
  }

  /** (current, best) streak over the 365 days ending today. */
  function Streaks(habits: seq<Habit>, today: Day): (int, int)
  {
    var s := ScanAfter(habits, today, EarliestStart(habits, today), 365);
    (s.current, s.best)
  }

  /** `calculateStreaks(from:)` */
  method CalculateStreaks(habits: seq<Habit>, today: Day) returns (current: int, best: int)
    ensures (current, best) == Streaks(habits, today)
  {
    var currentStreak, bestStreak, tempStreak := 0, 0, 0;
    var earliest := EarliestStart(habits, today);
    var dayOffset := 365;
    while dayOffset > 0
      invariant 0 <= dayOffset <= 365
      invariant StreakState(currentStreak, bestStreak, tempStreak) == ScanAfter(habits, today, earliest, 365 - dayOffset)
    {
      dayOffset := dayOffset - 1;
      var date := today - dayOffset;
      if date < earliest {
        continue;
      }
      var hasActiveHabits := AnyEligible(habits, date);
      if !hasActiveHabits {
        continue;
      }
      var dayValue := CalculateDayValue(date, habits);
      if dayValue >= 1.0 {
        tempStreak := tempStreak + 1;
        bestStreak := Max(bestStreak, tempStreak);
        if dayOffset == 0 {
          currentStreak := tempStreak;
        }
      } else {
        if dayOffset == 0 {
          currentStreak := 0;
        }
        tempStreak := 0;
      }
    }
    current, best := currentStreak, bestStreak;
  }

  /** What every prefix of the scan keeps: run <= best <= days scanned, and no current streak before today. */
  lemma {:induction false} ScanInvariant(habits: seq<Habit>, today: Day, earliest: Day, k: nat)
    requires k <= 365
    ensures var s := ScanAfter(habits, today, earliest, k);
            && 0 <= s.temp <= s.best <= k
            && 0 <= s.current <= s.best
            && (k < 365 ==> s.current == 0)
  {
    if k > 0 {
      ScanInvariant(habits, today, earliest, k - 1);
    }
  }

  /** 0 <= currentStreak <= bestStreak <= 365. */
  lemma StreakBounds(habits: seq<Habit>, today: Day)
    ensures 0 <= Streaks(habits, today).0 <= Streaks(habits, today).1 <= 365
  {
    ScanInvariant(habits, today, EarliestStart(habits, today), 365);
  }

  /**
   * The current streak is the running count at today when today has an eligible
   * habit and day value 1, and 0 otherwise, even when today is a rest day.
   */
  lemma CurrentStreakAtToday(habits: seq<Habit>, today: Day)
    ensures var earliest := EarliestStart(habits, today);
            Streaks(habits, today).0 ==
              if AnyEligible(habits, today) && DayValue(habits, today) >= 1.0
              then ScanAfter(habits, today, earliest, 365).temp
              else 0
  {
    var earliest := EarliestStart(habits, today);
    ScanInvariant(habits, today, earliest, 364);
    if AnyEligible(habits, today) {
      EligibleNotBeforeEarliest(habits, today, today);
    }
  }

  /** A day skipped by the scan (before the earliest start or without an eligible habit) leaves the running count as it was, so a run continues across it. */
  lemma RunSpansSkippedDay(habits: seq<Habit>, today: Day, earliest: Day, k: nat)
    requires k + 2 <= 365
    requires var d := today - (365 - (k + 1)); d < earliest || !AnyEligible(habits, d)
    requires var d := today - (365 - (k + 2)); d >= earliest && AnyEligible(habits, d) && DayValue(habits, d) >= 1.0
    ensures ScanAfter(habits, today, earliest, k + 2).temp == ScanAfter(habits, today, earliest, k).temp + 1
  {
  }

  /** The best streak is the longest run: no running count exceeds it, and it is one of them. */
  lemma {:induction false} BestIsLongestRun(habits: seq<Habit>, today: Day, earliest: Day, k: nat)
    requires k <= 365
    ensures forall j :: 0 <= j <= k ==> ScanAfter(habits, today, earliest, j).temp <= ScanAfter(habits, today, earliest, k).best
    ensures exists j :: 0 <= j <= k && ScanAfter(habits, today, earliest, j).temp == ScanAfter(habits, today, earliest, k).best
  {
    if k == 0 {
      assert ScanAfter(habits, today, earliest, 0).temp == 0;
    } else {
      BestIsLongestRun(habits, today, earliest, k - 1);
      ScanInvariant(habits, today, earliest, k - 1);
      var prev := ScanAfter(habits, today, earliest, k - 1);
      var s := ScanAfter(habits, today, earliest, k);
      assert s.best == prev.best || s.best == s.temp;
      assert prev.best <= s.best && s.temp <= s.best;
      if s.best == prev.best {
        var j :| 0 <= j <= k - 1 && ScanAfter(habits, today, earliest, j).temp == prev.best;
      }
    }
  }

  lemma {:induction false} EmptyScan(today: Day, earliest: Day, k: nat)
    requires k <= 365
    ensures ScanAfter([], today, earliest, k) == StreakState(0, 0, 0)
  {
    if k > 0 {
      EmptyScan(today, earliest, k - 1);
    }
  }

  /** No habits: both streaks are 0. */
  lemma EmptyStreaks(today: Day)
    ensures Streaks([], today) == (0, 0)
  {
    EmptyScan(today, EarliestStart([], today), 365);
  }

  // ---------------------------------------------------------------------------
  // Completion rate and caption (`calculateCompletion`, `buildCaption`)

  function ScopeDays(scope: TimeScope): (n: nat)
    ensures n >= 7
  {
    match scope
    case Weekly => 7
    case Monthly => 30
    case Yearly => 365
  }

  /** Eligible habit-days over the `n` days from `first`. */
  function WindowActive(habits: seq<Habit>, first: Day, n: nat): nat
    decreases n
  {
    if n == 0 then 0 else WindowActive(habits, first, n - 1) + EligibleCount(habits, first + n - 1)
  }

  /** Completion summed over the eligible habit-days of the `n` days from `first`. */
  function WindowCompletion(habits: seq<Habit>, first: Day, n: nat): real
    decreases n
  {
    if n == 0 then 0.0 else WindowCompletion(habits, first, n - 1) + CompletionTotal(habits, first + n - 1)
  }

  /** The window's total is at most its eligible habit-days, and not negative when no minutes entry is. */
  lemma {:induction false} WindowCompletionBounds(habits: seq<Habit>, first: Day, n: nat)
    ensures WindowCompletion(habits, first, n) <= WindowActive(habits, first, n) as real
    ensures NonNegativeLogs(habits) ==> WindowCompletion(habits, first, n) >= 0.0
    decreases n
  {
    if n > 0 {
      WindowCompletionBounds(habits, first, n - 1);
      CompletionTotalBounds(habits, first + n - 1);
    }
  }

  /** Extending the window by its next day adds that day's count and total. */
  lemma WindowStep(habits: seq<Habit>, first: Day, n: nat)
    ensures WindowActive(habits, first, n + 1) == WindowActive(habits, first, n) + EligibleCount(habits, first + n)
    ensures WindowCompletion(habits, first, n + 1) == WindowCompletion(habits, first, n) + CompletionTotal(habits, first + n)
  {
  }

  /** Total completion over total eligible habit-days of the `n` days from `first`, or 0 if there are none. */
  function WindowRate(habits: seq<Habit>, first: Day, n: nat): (rate: real)
    ensures rate <= 1.0
    ensures NonNegativeLogs(habits) ==> rate >= 0.0
  {
    WindowCompletionBounds(habits, first, n);
    MeanBounds(WindowCompletion(habits, first, n), WindowActive(habits, first, n));
    Mean(WindowCompletion(habits, first, n), WindowActive(habits, first, n))
  }

  /** The first day of the scope's window ending today. */
  function ScopeStart(scope: TimeScope, today: Day): Day
  {
    today - ScopeDays(scope) + 1
  }

  /** The rate of the scope's window ending today. */
  function CompletionRate(habits: seq<Habit>, scope: TimeScope, today: Day): (rate: real)
    ensures rate <= 1.0
    ensures NonNegativeLogs(habits) ==> rate >= 0.0
  {
    WindowRate(habits, ScopeStart(scope, today), ScopeDays(scope))
  }

  /** The inner loop of `calculateCompletion`: add the eligible habits of `date` to the running totals. */
  method AddDayTotals(habits: seq<Habit>, date: Day, active0: int, completion0: real) returns (active: int, completion: real)
    ensures active == active0 + EligibleCount(habits, date)
    ensures completion == completion0 + CompletionTotal(habits, date)
  {
    active, completion := active0, completion0;
    var i := 0;
    while i < |habits|
      invariant 0 <= i <= |habits|
      invariant active == active0 + EligibleCount(habits[..i], date)
      invariant completion == completion0 + CompletionTotal(habits[..i], date)
    {
      var habit := habits[i];
      if date >= habit.startDate && IsActiveDay(habit, date) {
        active := active + 1;
        completion := completion + CompletionValue(habit, date);
      }
      assert habits[..i + 1][..i] == habits[..i];
      i := i + 1;
    }
    assert habits[..i] == habits;
  }

  /** `calculateCompletion(from:scope:)` */
  method CalculateCompletion(habits: seq<Habit>, scope: TimeScope, today: Day) returns (rate: real)
    ensures rate == CompletionRate(habits, scope, today)
  {
    var daysCount := ScopeDays(scope);
    var first := ScopeStart(scope, today);
    var totalCompletion := 0.0;
    var totalActive := 0;
    for dayOffset := 0 to daysCount
      invariant totalActive == WindowActive(habits, first, dayOffset)
      invariant totalCompletion == WindowCompletion(habits, first, dayOffset)
    {
      var date := today - daysCount + dayOffset + 1;
      totalActive, totalCompletion := AddWindowDay(habits, first, dayOffset, date, totalActive, totalCompletion);
    }
    assert CompletionRate(habits, scope, today) == WindowRate(habits, first, daysCount) == Mean(totalCompletion, totalActive);
    if totalActive == 0 {
      return 0.0;
    }
    rate := totalCompletion / totalActive as real;
  }

  /** The inner loop of `calculateCompletion` on day `k` of the window: the totals grow to those of `k + 1` days. */
  method AddWindowDay(habits: seq<Habit>, first: Day, k: nat, date: Day, active0: int, completion0: real)
    returns (active: int, completion: real)
    requires date == first + k
    requires active0 == WindowActive(habits, first, k) && completion0 == WindowCompletion(habits, first, k)
    ensures active == WindowActive(habits, first, k + 1) && completion == WindowCompletion(habits, first, k + 1)
  {
    active, completion := AddDayTotals(habits, date, active0, completion0);
    WindowStep(habits, first, k);
  }

  /** The rate is the mean over the scope's days ending today. */
  lemma RateOfWindow(habits: seq<Habit>, scope: TimeScope, today: Day)
    ensures ScopeStart(scope, today) + ScopeDays(scope) - 1 == today
    ensures CompletionRate(habits, scope, today)
         == Mean(WindowCompletion(habits, ScopeStart(scope, today), ScopeDays(scope)),
                 WindowActive(habits, ScopeStart(scope, today), ScopeDays(scope)))
  {
    var first, n := ScopeStart(scope, today), ScopeDays(scope);
    assert CompletionRate(habits, scope, today) == WindowRate(habits, first, n);
  }

  /** No habits: the rate is 0. */
  lemma {:induction false} EmptyWindow(first: Day, n: nat)
    ensures WindowActive([], first, n) == 0
    decreases n
  {
    if n > 0 {
      EmptyWindow(first, n - 1);
    }
  }

  /** `buildCaption(habits:scope:)` */
  function Caption(habits: seq<Habit>, scope: TimeScope, today: Day): (c: string)
    ensures habits == [] ==> c == "No habits tracked yet"
  {
    if habits == [] then "No habits tracked yet"
    else
      var percent := Trunc(CompletionRate(habits, scope, today) * 100.0);
      "You're at " + IntText(percent) + "% completion this " + LowerAscii(scope.Title())
  }

  /** For a non-empty list the caption states floor(rate * 100), a whole percentage in 0..100. */
  lemma CaptionPercent(habits: seq<Habit>, scope: TimeScope, today: Day)
    requires habits != [] && NonNegativeLogs(habits)
    ensures var p := (CompletionRate(habits, scope, today) * 100.0).Floor;
            && 0 <= p <= 100
            && Caption(habits, scope, today) == "You're at " + Decimal(p) + "% completion this " + scope.Title()
  {
    var rate := CompletionRate(habits, scope, today);
    var p := Trunc(rate * 100.0);
    assert 0 <= p <= 100 && p == (rate * 100.0).Floor;
    assert IntText(p) == Decimal(p);
    TitleIsLowercase(scope);
    CaptionShape(habits, scope, today, p);
  }

  /** The caption of a non-empty list, with its percentage named. */
  lemma CaptionShape(habits: seq<Habit>, scope: TimeScope, today: Day, p: int)
    requires habits != [] && p == Trunc(CompletionRate(habits, scope, today) * 100.0)
    ensures Caption(habits, scope, today) == "You're at " + IntText(p) + "% completion this " + LowerAscii(scope.Title())
  {
  }

  /** The scope titles are already lower case. */
  lemma TitleIsLowercase(scope: TimeScope)
    ensures LowerAscii(scope.Title()) == scope.Title()
  {
    var t := scope.Title();
    assert forall i :: 0 <= i < |t| ==> !('A' <= t[i] <= 'Z');
  }

  /** The three scopes have distinct titles. */
  lemma TitlesDistinct(a: TimeScope, b: TimeScope)
    requires a != b
    ensures a.Title() != b.Title()
  {
    assert a.Title()[0] != b.Title()[0] || |a.Title()| != |b.Title()|;
  }

  /** `build(from:scope:)` */
  method Build(habits: seq<Habit>, scope: TimeScope, today: Day) returns (snapshot: HabitSnapshot)
    ensures snapshot.scope == scope
    ensures snapshot.entries == BuildEntries(habits, scope, today)
    ensures (snapshot.currentStreak, snapshot.bestStreak) == Streaks(habits, today)
    ensures snapshot.completionRate == CompletionRate(habits, scope, today)
    ensures snapshot.caption == Caption(habits, scope, today)
    ensures 0 <= snapshot.currentStreak <= snapshot.bestStreak <= 365
    ensures snapshot.completionRate <= 1.0
    ensures NonNegativeLogs(habits) ==> snapshot.completionRate >= 0.0
  {
    var entries := BuildEntries(habits, scope, today);
    var current, best := CalculateStreaks(habits, today);
    var completion := CalculateCompletion(habits, scope, today);
    StreakBounds(habits, today);
    snapshot := HabitSnapshot(scope, entries, Caption(habits, scope, today), current, best, completion);
  }

  /** An empty list: no streaks, rate 0 and the placeholder caption. */
  lemma EmptySnapshot(scope: TimeScope, today: Day)
    ensures Streaks([], today) == (0, 0)
    ensures CompletionRate([], scope, today) == 0.0
    ensures Caption([], scope, today) == "No habits tracked yet"
  {
    EmptyStreaks(today);
    EmptyWindow(today - ScopeDays(scope) + 1, ScopeDays(scope));
  }
}
