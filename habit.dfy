/**
 * The `Habit` entity: its per-day queries and its `mutating` updates.
 *
 * `Habit` is a Swift struct, a value: a `mutating` method replaces the
 * value held in a variable or array slot by an updated copy. Here each
 * such method is a function from the old value to the new one; the store
 * (store.dfy) writes the result back into its array.
 */
module HabitModel {
  import opened Options
  import opened Calendar
  import opened Ratios

  datatype TrackingType = Boolean | Minutes

  /** A habit's `UUID`; only compared for equality. */
  type HabitId = nat

  datatype Habit = Habit(
    id: HabitId,
    title: string,
    cadence: set<Weekday>,
    startDate: Day,
    checkIns: set<string>,
    trackingType: TrackingType,
    minutesLog: map<string, int>,
    goalMinutes: Option<int>)

  /** What the edit form guarantees of a saved habit: some active weekday, and a positive goal if any. */
  predicate WellFormed(h: Habit)
  {
    h.cadence != {} && (h.goalMinutes.Some? ==> h.goalMinutes.value > 0)
  }

  /** Minutes logged on day `d`; a day without an entry counts as zero. */
  function MinutesOn(h: Habit, d: Day): (m: int)
    ensures DateString(d) !in h.minutesLog ==> m == 0
    ensures DateString(d) in h.minutesLog ==> m == h.minutesLog[DateString(d)]
  {
    var key := DateString(d);
    if key in h.minutesLog then h.minutesLog[key] else 0
  }

  /** `isCheckedIn(on:)`: presence of a check-in, or of positive minutes for a minutes habit. */
  predicate IsCheckedIn(h: Habit, d: Day)
  {
    if h.trackingType == Minutes then MinutesOn(h, d) > 0
    else DateString(d) in h.checkIns
  }

  /** A minutes habit with a positive goal is measured against that goal. */
  predicate HasGoal(h: Habit)
  {
    h.trackingType == Minutes && h.goalMinutes.Some? && h.goalMinutes.value > 0
  }

  /** `completionValue(on:)`: the fraction of the goal met, capped at 1, or 1/0 by presence. */
  function CompletionValue(h: Habit, d: Day): (v: real)
    ensures v <= 1.0
    ensures MinutesOn(h, d) >= 0 ==> v >= 0.0
    ensures !HasGoal(h) ==> (v == 1.0 <==> IsCheckedIn(h, d)) && (v == 0.0 <==> !IsCheckedIn(h, d))
  {
    if HasGoal(h) then
      RatioBounds(MinutesOn(h, d) as real, h.goalMinutes.value as real);
      var ratio := MinutesOn(h, d) as real / h.goalMinutes.value as real;
      if ratio < 1.0 then ratio else 1.0
    else if IsCheckedIn(h, d) then 1.0
    else 0.0
  }

  /** `isActiveDay`: the day's weekday is in the cadence (the start date plays no part). */
  predicate IsActiveDay(h: Habit, d: Day)
  {
    WeekdayOf(d) in h.cadence
  }

  /** A habit counts towards a day iff the day is on or after its start and is an active weekday. */
  predicate IsEligible(h: Habit, d: Day)
  {
    d >= h.startDate && IsActiveDay(h, d)
  }

  /** `toggleCheckIn(on:)`: flip the membership of the day's key in `checkIns`. */
  function ToggleCheckIn(h: Habit, d: Day): (r: Habit)
    ensures r.checkIns == if DateString(d) in h.checkIns
                          then h.checkIns - {DateString(d)} else h.checkIns + {DateString(d)}
    ensures r == h.(checkIns := r.checkIns)
  {
    var key := DateString(d);
    h.(checkIns := if key in h.checkIns then h.checkIns - {key} else h.checkIns + {key})
  }

  /** `addMinutes(_:on:)`: add to the day's entry, an absent entry counting as zero. */
  function AddMinutes(h: Habit, minutes: int, d: Day): (r: Habit)
    ensures r == h.(minutesLog := r.minutesLog)
    ensures r.minutesLog.Keys == h.minutesLog.Keys + {DateString(d)}
  {
    h.(minutesLog := h.minutesLog[DateString(d) := MinutesOn(h, d) + minutes])
  }

  /** `incrementOrResetMinutes(on:)`: back to 0 once the goal is reached, otherwise five more minutes. */
  function IncrementOrResetMinutes(h: Habit, d: Day): (r: Habit)
    ensures r == h.(minutesLog := r.minutesLog)
    ensures r.minutesLog.Keys == h.minutesLog.Keys + {DateString(d)}
  {
    var current := MinutesOn(h, d);
    var next := if h.goalMinutes.Some? && current >= h.goalMinutes.value then 0 else current + 5;
    h.(minutesLog := h.minutesLog[DateString(d) := next])
  }

  // ---------------------------------------------------------------------------
  // Properties of the queries

  /** With a positive goal the value is min(minutes / goal, 1); it reaches 1 exactly when the goal is met. */
  lemma GoalCompletion(h: Habit, d: Day)
    requires HasGoal(h)
    ensures var g := h.goalMinutes.value as real;
            CompletionValue(h, d) == if MinutesOn(h, d) as real / g < 1.0 then MinutesOn(h, d) as real / g else 1.0
    ensures CompletionValue(h, d) == 1.0 <==> MinutesOn(h, d) >= h.goalMinutes.value
  {
    RatioBounds(MinutesOn(h, d) as real, h.goalMinutes.value as real);
  }

  /** A minutes habit below its goal but with some minutes logged is checked in without being complete. */
  lemma PartialMinutesAreCheckedIn(h: Habit, d: Day)
    requires HasGoal(h) && 0 < MinutesOn(h, d) < h.goalMinutes.value
    ensures IsCheckedIn(h, d)
    ensures 0.0 < CompletionValue(h, d) < 1.0
  {
    var t := MinutesOn(h, d) as real;
    var g := h.goalMinutes.value as real;
    RatioBounds(t, g);
    assert CompletionValue(h, d) == t / g;
  }

  /** A habit with empty logs is not checked in and has completion 0 on any day. */
  lemma EmptyLogsNotCheckedIn(h: Habit, d: Day)
    requires h.checkIns == {} && h.minutesLog == map[]
    ensures !IsCheckedIn(h, d) && CompletionValue(h, d) == 0.0
  {
    assert DateString(d) !in h.minutesLog && DateString(d) !in h.checkIns;
    if HasGoal(h) {
      var g := h.goalMinutes.value as real;
      assert MinutesOn(h, d) as real / g == 0.0 / g == 0.0;
    }
  }

  /** Checked in exactly when the day's completion value is positive, for every kind of habit. */
  lemma CheckedInIffPositive(h: Habit, d: Day)
    ensures IsCheckedIn(h, d) <==> CompletionValue(h, d) > 0.0
  {
    if HasGoal(h) {
      GoalCompletion(h, d);
      RatioBounds(MinutesOn(h, d) as real, h.goalMinutes.value as real);
    }
  }

  /** Whether a habit is active depends only on the weekday, so it repeats every week. */
  lemma ActiveDayPeriodic(h: Habit, d: Day)
    ensures IsActiveDay(h, d + 7) <==> IsActiveDay(h, d)
  {
    WeekdayCycle(d);
  }

  /** A habit with some active weekday is active at least once in any seven consecutive days, on each of its weekdays. */
  lemma ActiveEachWeek(h: Habit, d: Day, w: Weekday)
    requires w in h.cadence
    ensures exists e :: d <= e < d + 7 && WeekdayOf(e) == w && IsActiveDay(h, e)
  {
    var e := d + (w.Ordinal() - 1 - (d + 4)) % 7;
    assert (e + 4) % 7 == w.Ordinal() - 1;
    WeekdayFromOrdinal(w);
    assert WeekdayOf(e) == w;
  }

  /** Once a habit is eligible on a day, it is eligible on the same weekday of every later week. */
  lemma {:induction false} EligibleWeekAfterWeek(h: Habit, d: Day, n: nat)
    requires IsEligible(h, d)
    ensures IsEligible(h, d + 7 * n)
  {
    if n > 0 {
      EligibleWeekAfterWeek(h, d, n - 1);
      ActiveDayPeriodic(h, d + 7 * (n - 1));
    }
  }

  // ---------------------------------------------------------------------------
  // Properties of the updates

  /** Toggling twice on the same day restores the habit. */
  lemma ToggleTwice(h: Habit, d: Day)
    ensures ToggleCheckIn(ToggleCheckIn(h, d), d) == h
  {
    var key := DateString(d);
    if key in h.checkIns {
      assert h.checkIns - {key} + {key} == h.checkIns;
    } else {
      assert h.checkIns + {key} - {key} == h.checkIns;
    }
  }

  /** A toggle flips the check-in of that day and, for days of the common era, of no other day. */
  lemma ToggleFlipsOnlyThatDay(h: Habit, d: Day, e: Day)
    requires h.trackingType == Boolean
    requires InCommonEra(d) && InCommonEra(e)
    ensures IsCheckedIn(ToggleCheckIn(h, d), e) == if e == d then !IsCheckedIn(h, e) else IsCheckedIn(h, e)
  {
    if e != d && DateString(e) == DateString(d) {
      DateStringInjective(d, e);
    }
  }

  /** A toggle does not change whether a minutes habit is checked in: that habit reads its minutes log. */
  lemma ToggleLeavesMinutesHabit(h: Habit, d: Day, e: Day)
    requires h.trackingType == Minutes
    ensures IsCheckedIn(ToggleCheckIn(h, d), e) == IsCheckedIn(h, e)
    ensures CompletionValue(ToggleCheckIn(h, d), e) == CompletionValue(h, e)
  {
  }

  /** Adding minutes changes the total of that day by exactly that amount and of no other day. */
  lemma AddMinutesEffect(h: Habit, minutes: int, d: Day, e: Day)
    requires InCommonEra(d) && InCommonEra(e)
    ensures MinutesOn(AddMinutes(h, minutes, d), e) == MinutesOn(h, e) + (if e == d then minutes else 0)
  {
    if e != d && DateString(e) == DateString(d) {
      DateStringInjective(d, e);
    }
  }

  /** The minutes button: reset to 0 at or past the goal, else five more; other days unchanged. */
  lemma IncrementOrResetEffect(h: Habit, d: Day, e: Day)
    requires InCommonEra(d) && InCommonEra(e)
    ensures var current := MinutesOn(h, d);
            MinutesOn(IncrementOrResetMinutes(h, d), e) ==
              if e != d then MinutesOn(h, e)
              else if h.goalMinutes.Some? && current >= h.goalMinutes.value then 0
              else current + 5
  {
    if e != d && DateString(e) == DateString(d) {
      DateStringInjective(d, e);
    }
  }

  /** Pressing the minutes button keeps a day's total within [0, goal + 5). */
  lemma IncrementOrResetBounded(h: Habit, d: Day)
    requires h.goalMinutes.Some? && h.goalMinutes.value > 0
    requires 0 <= MinutesOn(h, d) < h.goalMinutes.value + 5
    ensures 0 <= MinutesOn(IncrementOrResetMinutes(h, d), d) < h.goalMinutes.value + 5
  {
  }
}
