/**
 * The non-visual part of `HabitFormSheet`: the form's state, its validity
 * check, the weekday buttons and the habit the save button builds, both
 * for a new habit and for an edited one.
 */
module HabitForm {
  import opened Options
  import opened Text
  import opened Calendar
  import opened HabitModel

  /** `habit.goalMinutes.map { String($0) } ?? ""`: the goal as the form shows it. */
  function GoalText(goal: Option<int>): string
  {
    match goal
    case Some(g) => IntText(g)
    case None => ""
  }

  /** The day set after pressing the button of `day`: that day's membership flips. */
  function ToggledDays(days: set<Weekday>, day: Weekday): (r: set<Weekday>)
    ensures day in r <==> day !in days
    ensures forall other :: other != day ==> (other in r <==> other in days)
  {
    if day in days then days - {day} else days + {day}
  }

  class Form {
    /** The habit being edited, or `None` for a new one. */
    const habitToEdit: Option<Habit>
    var title: string
    var selectedDays: set<Weekday>
    var trackingType: TrackingType
    var goalMinutes: string

    /** The fields hold the values of `habit`, the habit being edited. */
    predicate ShowsHabit(habit: Habit)
      reads this
    {
      && habitToEdit == Some(habit)
      && title == habit.title
      && selectedDays == habit.cadence
      && trackingType == habit.trackingType
      && goalMinutes == GoalText(habit.goalMinutes)
    }

    /** `init(habitToEdit:onSave:)`: the edited habit's values, or an empty check-in form. */
    constructor(habitToEdit: Option<Habit>)
      ensures this.habitToEdit == habitToEdit
      ensures habitToEdit.Some? ==> ShowsHabit(habitToEdit.value)
      ensures habitToEdit.None? ==> title == "" && selectedDays == {} && trackingType == Boolean && goalMinutes == ""
    {
      this.habitToEdit := habitToEdit;
      if habitToEdit.Some? {
        var habit := habitToEdit.value;
        title := habit.title;
        selectedDays := habit.cadence;
        trackingType := habit.trackingType;
        goalMinutes := GoalText(habit.goalMinutes);
      } else {
        title := "";
        selectedDays := {};
        trackingType := Boolean;
        goalMinutes := "";
      }
    }

    /** `isValid`: a title, at least one day, and for a minutes habit a goal that reads as a positive integer. */
    predicate IsValid()
      reads this
    {
      var titleValid := title != [];
      var daysValid := selectedDays != {};
      var minutesValid := trackingType == Boolean ||
        (goalMinutes != [] && ParseInt(goalMinutes).Some? && ParseInt(goalMinutes).value > 0);
      titleValid && daysValid && minutesValid
    }

    /** The action of the button of `day`. */
    method ToggleDay(day: Weekday)
      modifies this
      ensures selectedDays == ToggledDays(old(selectedDays), day)
      ensures title == old(title) && trackingType == old(trackingType) && goalMinutes == old(goalMinutes)
    {
      if day in selectedDays {
        selectedDays := selectedDays - {day};
      } else {
        selectedDays := selectedDays + {day};
      }
    }

    /** `trackingType == .minutes ? Int(goalMinutes) : nil` */
    function SavedGoal(): (g: Option<int>)
      reads this
      ensures trackingType == Boolean ==> g == None
      ensures trackingType == Minutes ==> g == ParseInt(goalMinutes)
    {
      if trackingType == Minutes then ParseInt(goalMinutes) else None
    }

    /**
     * The habit the save button hands on. An edited habit keeps its id,
     * start date and logs; a new one gets the fresh `newId`, starts `today`
     * and has empty logs.
     */
    function SavedHabit(newId: HabitId, today: Day): (h: Habit)
      reads this
    {
      var goalMinutesValue := SavedGoal();
      match habitToEdit
      case Some(existing) =>
        Habit(existing.id, title, selectedDays, existing.startDate, existing.checkIns,
              trackingType, existing.minutesLog, goalMinutesValue)
      case None =>
        Habit(newId, title, selectedDays, today, {}, trackingType, map[], goalMinutesValue)
    }
  }

  // ---------------------------------------------------------------------------
  // Properties

  /** Pressing a day button twice restores the selection. */
  lemma ToggleDayTwice(days: set<Weekday>, day: Weekday)
    ensures ToggledDays(ToggledDays(days, day), day) == days
  {
  }

  /** The goal text reads back as the goal, for any 64-bit goal and for none. */
  lemma GoalTextRoundTrip(goal: Option<int>)
    requires goal.Some? ==> INT64_MIN <= goal.value <= INT64_MAX
    ensures ParseInt(GoalText(goal)) == goal
  {
    if goal.Some? {
      ParseIntText(goal.value);
    }
  }

  /**
   * `isValid` holds exactly when the habit the form would save has a title,
   * some active weekday and, for a minutes habit, a positive goal.
   */
  lemma ValidIff(form: Form, newId: HabitId, today: Day)
    ensures var h := form.SavedHabit(newId, today);
            form.IsValid() <==> h.title != [] && h.cadence != {} && (h.trackingType == Minutes ==> HasGoal(h))
  {
  }

  /** A valid form saves a well-formed habit: some active weekday, and a positive goal if any. */
  lemma ValidSavesWellFormed(form: Form, newId: HabitId, today: Day)
    requires form.IsValid()
    ensures WellFormed(form.SavedHabit(newId, today))
    ensures form.SavedHabit(newId, today).title != []
  {
  }

  /** A valid minutes form saves a goal, and it is the positive number the text reads as. */
  lemma ValidMinutesHasGoal(form: Form, newId: HabitId, today: Day)
    requires form.IsValid() && form.trackingType == Minutes
    ensures var h := form.SavedHabit(newId, today);
            && HasGoal(h)
            && Some(h.goalMinutes.value) == ParseInt(form.goalMinutes)
  {
  }

  /** Saving an edit keeps the habit's identity, start and history, and takes the rest from the form. */
  lemma EditKeepsHistory(form: Form, existing: Habit, newId: HabitId, today: Day)
    requires form.habitToEdit == Some(existing)
    ensures var h := form.SavedHabit(newId, today);
            && h.id == existing.id
            && h.startDate == existing.startDate
            && h.checkIns == existing.checkIns
            && h.minutesLog == existing.minutesLog
            && h.title == form.title
            && h.cadence == form.selectedDays
            && h.trackingType == form.trackingType
            && h.goalMinutes == form.SavedGoal()
  {
  }

  /** A new habit has the fresh id, starts today and has no history. */
  lemma NewHabitHasNoHistory(form: Form, newId: HabitId, today: Day)
    requires form.habitToEdit == None
    ensures var h := form.SavedHabit(newId, today);
            && h.id == newId
            && h.startDate == today
            && h.checkIns == {}
            && h.minutesLog == map[]
            && forall d :: !IsCheckedIn(h, d) && CompletionValue(h, d) == 0.0
  {
    var h := form.SavedHabit(newId, today);
    forall d
      ensures !IsCheckedIn(h, d) && CompletionValue(h, d) == 0.0
    {
      EmptyLogsNotCheckedIn(h, d);
    }
  }

  /**
   * Opening a habit and saving it unchanged gives the same habit back, as
   * long as a check-in habit carries no goal (the form drops it) and the
   * goal is a 64-bit integer.
   */
  lemma ReopenSaveRoundTrip(form: Form, habit: Habit, newId: HabitId, today: Day)
    requires form.ShowsHabit(habit)
    requires habit.trackingType == Boolean ==> habit.goalMinutes == None
    requires habit.goalMinutes.Some? ==> INT64_MIN <= habit.goalMinutes.value <= INT64_MAX
    ensures form.SavedHabit(newId, today) == habit
  {
    if habit.goalMinutes.Some? {
      ParseIntText(habit.goalMinutes.value);
    }
  }

  /** A check-in habit that has a goal loses it when opened and saved. */
  lemma BooleanGoalDropped(form: Form, habit: Habit, newId: HabitId, today: Day)
    requires form.ShowsHabit(habit)
    requires habit.trackingType == Boolean && habit.goalMinutes.Some?
    ensures form.SavedHabit(newId, today) == habit.(goalMinutes := None)
  {
  }
}
