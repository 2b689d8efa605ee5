/**
 * `HabitDayBuilder`: the four-week heat map of the dashboard.
 *
 * Each of the last 28 days (ending today) becomes a cell with a two-letter
 * weekday label, an intensity level from 0 to 3 and a highlight on today.
 * Unlike the day value of the snapshot, the level counts habits that are
 * checked in, so a minutes habit with some minutes logged counts in full.
 */
module DayBuilder {
  import opened Calendar
  import opened Ratios
  import opened HabitModel
  import opened SnapshotBuilder

  /** One heat-map cell (`text` is the Swift `label`). */
  datatype HabitDay = HabitDay(text: string, level: int, highlight: bool)

  /** Number of habits that are eligible on `d` and checked in on `d`. */
  function CheckedCount(habits: seq<Habit>, d: Day): (n: nat)
    ensures n <= EligibleCount(habits, d)
    decreases |habits|
  {
    if habits == [] then 0
    else
      var h := habits[|habits| - 1];
      CheckedCount(habits[..|habits| - 1], d) + (if IsEligible(h, d) && IsCheckedIn(h, d) then 1 else 0)
  }

  /** Habit `h` is checked in on `d` if it is eligible then. */
  predicate CheckedIfEligible(h: Habit, d: Day)
  {
    IsEligible(h, d) ==> IsCheckedIn(h, d)
  }

  /** Every habit eligible on `d` is checked in on `d`. */
  predicate AllEligibleChecked(habits: seq<Habit>, d: Day)
  {
    forall i :: 0 <= i < |habits| ==> CheckedIfEligible(habits[i], d)
  }

  /** The level of a share of checked habits: 3 from 1.0, 2 from 0.66, 1 from 0.33, else 0. */
  function LevelOfShare(p: real): (level: int)
  {
    if p >= 1.0 then 3
    else if p >= 0.66 then 2
    else if p >= 0.33 then 1
    else 0
  }

  /** The level of a day: the share of eligible habits checked in, 0 when no habit is eligible. */
  function Level(habits: seq<Habit>, d: Day): (level: int)
    ensures 0 <= level <= 3
    ensures !AnyEligible(habits, d) ==> level == 0
  {
    var active := EligibleCount(habits, d);
    if active == 0 then 0
    else LevelOfShare(Mean(CheckedCount(habits, d) as real, active))
  }

  /** `calculateLevel(for:habits:)` */
  method CalculateLevel(d: Day, habits: seq<Habit>) returns (level: int)
    ensures level == Level(habits, d)
  {
    var totalChecked := 0;
    var totalActive := 0;
    var i := 0;
    while i < |habits|
      invariant 0 <= i <= |habits|
      invariant totalActive == EligibleCount(habits[..i], d)
      invariant totalChecked == CheckedCount(habits[..i], d)
    {
      var habit := habits[i];
      if d >= habit.startDate && IsActiveDay(habit, d) {
        totalActive := totalActive + 1;
        if IsCheckedIn(habit, d) {
          totalChecked := totalChecked + 1;
        }
      }
      assert habits[..i + 1][..i] == habits[..i];
      i := i + 1;
    }
    assert habits[..i] == habits;
    if totalActive == 0 {
      return 0;
    }
    var percentage := totalChecked as real / totalActive as real;
    if percentage >= 1.0 {
      return 3;
    }
    if percentage >= 0.66 {
      return 2;
    }
    if percentage >= 0.33 {
      return 1;
    }
    return 0;
  }

  /** `dayLabel(for:)`: the two-letter name of weekday ordinals 1 (Sunday) to 7, empty otherwise. */
  function DayLabel(weekday: int): (s: string)
    ensures 1 <= weekday <= 7 ==> |s| == 2
    ensures !(1 <= weekday <= 7) ==> s == ""
  {
    match weekday
    case 1 => "Su"
    case 2 => "Mo"
    case 3 => "Tu"
    case 4 => "We"
    case 5 => "Th"
    case 6 => "Fr"
    case 7 => "Sa"
    case _ => ""
  }

  /** The cell of day `d` when today is `today`. */
  function Cell(habits: seq<Habit>, today: Day, d: Day): HabitDay
  {
    HabitDay(DayLabel(WeekdayOf(d).Ordinal()), Level(habits, d), d == today)
  }

  /** `buildLast4Weeks(from:)`: the cells of the 28 days ending today, oldest first. */
  function BuildLast4Weeks(habits: seq<Habit>, today: Day): (r: seq<HabitDay>)
  {
    seq(28, offset => Cell(habits, today, today - 28 + offset + 1))
  }

  // ---------------------------------------------------------------------------
  // Properties

  /** The checked count reaches the eligible count exactly when every eligible habit is checked in. */
  lemma {:induction false} CheckedIsCountIff(habits: seq<Habit>, d: Day)
    ensures CheckedCount(habits, d) == EligibleCount(habits, d) <==> AllEligibleChecked(habits, d)
    decreases |habits|
  {
    if habits != [] {
      CheckedIsCountIff(habits[..|habits| - 1], d);
      AllEligibleCheckedLast(habits, d);
    }
  }

  /** Every eligible habit is checked iff it holds for all but the last one and for the last one. */
  lemma AllEligibleCheckedLast(habits: seq<Habit>, d: Day)
    requires habits != []
    ensures AllEligibleChecked(habits, d) <==>
            AllEligibleChecked(habits[..|habits| - 1], d) && CheckedIfEligible(habits[|habits| - 1], d)
  {
    var prefix := habits[..|habits| - 1];
    if AllEligibleChecked(habits, d) {
      forall i | 0 <= i < |prefix|
        ensures CheckedIfEligible(prefix[i], d)
      {
        assert prefix[i] == habits[i];
      }
    }
    if AllEligibleChecked(prefix, d) && CheckedIfEligible(habits[|prefix|], d) {
      forall i | 0 <= i < |habits|
        ensures CheckedIfEligible(habits[i], d)
      {
        if i < |prefix| {
          assert habits[i] == prefix[i];
        }
      }
    }
  }

  /** The top level is reached exactly on a day with an eligible habit where every eligible habit is checked in. */
  lemma FullLevelIff(habits: seq<Habit>, d: Day)
    ensures Level(habits, d) == 3 <==> AnyEligible(habits, d) && AllEligibleChecked(habits, d)
  {
    var checked, active := CheckedCount(habits, d), EligibleCount(habits, d);
    if active > 0 {
      ShareThresholds(checked, active);
      CheckedIsCountIff(habits, d);
    }
  }

  /** The thresholds in whole numbers: level 2 or more iff 100 * checked >= 66 * active, 1 or more iff >= 33 * active. */
  lemma LevelThresholds(habits: seq<Habit>, d: Day)
    requires AnyEligible(habits, d)
    ensures var checked, active := CheckedCount(habits, d), EligibleCount(habits, d);
            && (Level(habits, d) >= 2 <==> 100 * checked >= 66 * active)
            && (Level(habits, d) >= 1 <==> 100 * checked >= 33 * active)
  {
    ShareThresholds(CheckedCount(habits, d), EligibleCount(habits, d));
  }

  /** The level of `checked` out of `active` habits, in whole numbers. */
  lemma ShareThresholds(checked: nat, active: nat)
    requires 0 < active && checked <= active
    ensures var level := LevelOfShare(Mean(checked as real, active));
            && (level == 3 <==> checked == active)
            && (level >= 2 <==> 100 * checked >= 66 * active)
            && (level >= 1 <==> 100 * checked >= 33 * active)
  {
    var c := checked as real;
    MeanAtLeast(c, active, 1.0);
    MeanAtLeast(c, active, 0.66);
    MeanAtLeast(c, active, 0.33);
  }

  /**
   * A lone minutes habit that has some, but not all, of its goal logged: the
   * heat map shows the top level while the day value stays below 1.
   */
  lemma PartialMinutesFullLevel(h: Habit, d: Day)
    requires IsEligible(h, d) && HasGoal(h) && 0 < MinutesOn(h, d) < h.goalMinutes.value
    ensures Level([h], d) == 3
    ensures DayValue([h], d) < 1.0
  {
    PartialMinutesAreCheckedIn(h, d);
    assert AnyEligible([h], d) by { assert IsEligible([h][0], d); }
    FullLevelIff([h], d);
    DayCompleteIff([h], d);
    assert !AllEligibleComplete([h], d) by { assert [h][0] == h; }
  }

  /** Ordinals 1 to 7 have distinct labels. */
  lemma DayLabelInjective(a: int, b: int)
    requires 1 <= a <= 7 && 1 <= b <= 7
    requires DayLabel(a) == DayLabel(b)
    ensures a == b
  {
    assert DayLabel(a)[0] == DayLabel(b)[0] && DayLabel(a)[1] == DayLabel(b)[1];
  }

  /** Weekdays repeat every seven days. */
  lemma WeekdayPeriod(d: Day, e: Day)
    requires e == d + 7
    ensures WeekdayOf(e) == WeekdayOf(d)
  {
    assert (e + 4) % 7 == (d + 4) % 7;
  }

  /** Cell `k` of the heat map is the cell of day `today - 27 + k`. */
  lemma Last4WeeksCell(habits: seq<Habit>, today: Day, k: int)
    requires 0 <= k < 28
    ensures |BuildLast4Weeks(habits, today)| == 28
    ensures BuildLast4Weeks(habits, today)[k] == Cell(habits, today, today - 27 + k)
  {
  }

  /**
   * The heat map has 28 cells ending today: cell `k` is day `today - 27 + k`,
   * only the last one is highlighted, and every cell has a two-letter label
   * and the level of its day.
   */
  lemma Last4WeeksShape(habits: seq<Habit>, today: Day, k: int)
    requires 0 <= k < 28
    ensures var r := BuildLast4Weeks(habits, today);
            && |r| == 28
            && (r[k].highlight <==> k == 27)
            && r[k].level == Level(habits, today - 27 + k)
            && r[k].text == DayLabel(WeekdayOf(today - 27 + k).Ordinal())
            && |r[k].text| == 2
  {
    Last4WeeksCell(habits, today, k);
  }

  /** Labels repeat with a period of one week across the heat map. */
  lemma Last4WeeksLabelsRepeat(habits: seq<Habit>, today: Day, k: int)
    requires 0 <= k < 21
    ensures BuildLast4Weeks(habits, today)[k + 7].text == BuildLast4Weeks(habits, today)[k].text
  {
    Last4WeeksText(habits, today, k);
    Last4WeeksText(habits, today, k + 7);
    WeekdayPeriod(today - 27 + k, today - 27 + (k + 7));
  }

  /** The label of cell `k` of the heat map. */
  lemma Last4WeeksText(habits: seq<Habit>, today: Day, k: int)
    requires 0 <= k < 28
    ensures |BuildLast4Weeks(habits, today)| == 28
    ensures BuildLast4Weeks(habits, today)[k].text == DayLabel(WeekdayOf(today - 27 + k).Ordinal())
  {
    Last4WeeksCell(habits, today, k);
  }

  /** With no habits every cell has level 0. */
  lemma EmptyLast4Weeks(today: Day, k: int)
    requires 0 <= k < 28
    ensures BuildLast4Weeks([], today)[k].level == 0
  {
    Last4WeeksCell([], today, k);
  }
}
