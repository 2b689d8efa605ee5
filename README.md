# Habits tracker core, in Dafny

This project models the non-visual core of a SwiftUI habit tracker:

- the `Habit` value, with its per-day queries and its `mutating` updates;
- the store that creates, deletes and toggles habits;
- the snapshot builder, which produces the trend series, the streaks, the completion rate and the caption of a time scope;
- the four-week heat map;
- the CSV export;
- the home tabs and their greeting;
- the logic of the habit form: validity, the weekday buttons and the habit the save button builds.

Dates are day numbers counted from 1970-01-01, in the proleptic Gregorian calendar, which stands in for the user's current calendar (see "## Left out"). The app normalises every date with `startOfDay`, so at this granularity `addingDays(n)` is `+ n`. A weekday is numbered like the platform calendar, 1 = Sunday. A day's log key is its "yyyy-MM-dd" rendering, `DateString`.

The source's loops are methods, each proved equal to a recursive specification function. The loops modelled this way are:

- `calculateDayValue`, `calculateMonthValue`, `calculateStreaks` and `calculateCompletion`;
- `calculateLevel`;
- the three loops of `generateCSV`.

The `compactMap`/`map` builders are functions over those specifications. The store and the form are classes whose methods reassign their fields. `Habit` is a Swift struct, so its `mutating` methods are functions from the old value to the new one.

Modules:

| file | module | models |
|---|---|---|
| options.dfy | `Options` | Swift optionals |
| ratios.dfy | `Ratios` | `total / Double(count)` behind a `count > 0` guard |
| text.dfy | `Text` | integer rendering and parsing, `Int(Double)`, `lowercased()` |
| calendar.dfy | `Calendar` | weekdays, calendar dates, `dateString` |
| habit.dfy | `HabitModel` | `Habit` |
| snapshot.dfy | `SnapshotBuilder` | `HabitSnapshotBuilder` |
| dayBuilder.dfy | `DayBuilder` | `HabitDayBuilder` |
| store.dfy | `Store` | `HabitStore` |
| export.dfy | `Export` | `HabitExportService` |
| homeTab.dfy | `Home` | `HomeTab` |
| habitForm.dfy | `HabitForm` | `HabitFormSheet` |

Notable behaviours of the code, modelled as written:

- **Empty collection.** With no habits, the weekly and monthly series hold one entry: today, valued 0. The yearly series holds the months from the current one to December. See `EmptyDailyEntries`.
- **Caption percentage.** The caption truncates the percentage toward zero. See `CaptionPercent`.
- **Complete days.** A day counts as complete for the streak when its day value is `>= 1.0`. Since the day value never exceeds 1, this is the same as `== 1.0`. See `DayCompleteIff`.
- **Rest day today.** A rest day today sets the current streak to 0, while a rest day earlier does not break a run. This asymmetry is modelled as written. See `CurrentStreakAtToday` and `RunSpansSkippedDay`.
- **Export cells.** A habit's export cell ignores its start date. It is "REST DAY" only off-cadence, and on an active day before the start it reads as a percentage.
- **Heat-map levels.** The heat map counts checked-in habits, not completion values. A minutes habit with some minutes logged therefore fills its cell while its day value stays below 1. See `PartialMinutesFullLevel`.

## Model

| member | source | states |
|---|---|---|
| Ratios.MeanBounds | Sources/HabitsTrackerApp/Services/HabitSnapshotBuilder.swift:83-84 | The mean of values each at most 1 is at most 1, and not negative for a non-negative total. It reaches 1 iff the total reaches the count. |
| Ratios.MeanAtLeast | Sources/HabitsTrackerApp/Services/HabitDayBuilder.swift:34-37 | A mean over a positive count reaches a threshold t iff the total reaches t times the count. |
| Text.PaddedInjective | Sources/HabitsTrackerApp/Models/Habit.swift:91-95 | Distinct numbers never give the same zero-padded field. |
| Text.PaddedValue | Sources/HabitsTrackerApp/Models/Habit.swift:91-95 | Reading back the digits of a padded field gives the number, whatever the padding. |
| Text.ParseInt | Sources/HabitsTrackerApp/Views/HabitFormSheet.swift:35 | `Int(String)`: a result is always within the 64-bit range, and the empty text reads as nil. |
| Text.ParseIntText | Sources/HabitsTrackerApp/Views/HabitFormSheet.swift:23 | Parsing the rendering of any 64-bit integer gives it back. This is the round trip of the goal field. |
| Text.Trunc | Sources/HabitsTrackerApp/Services/HabitExportService.swift:41 | `Int(Double)`: truncation toward zero. The result is the integer part, within 1 of the argument and on its side of 0. |
| Text.LowerAscii | Sources/HabitsTrackerApp/Services/HabitSnapshotBuilder.swift:163 | `lowercased()` on ASCII. The result has the same length and no upper-case letter. Each upper-case letter becomes its own lower-case letter, and every other character is unchanged. |
| Calendar.Weekday.Ordinal | Sources/HabitsTrackerApp/Models/Habit.swift:58 | A weekday's calendar number is in 1..7. |
| Calendar.WeekdayFrom | Sources/HabitsTrackerApp/Models/Habit.swift:59 | `Weekday.from` gives the weekday whose number is the argument. |
| Calendar.WeekdayFromOrdinal | Sources/HabitsTrackerApp/Models/Habit.swift:58-59 | Reading back a weekday's number gives the weekday. |
| Calendar.EpochIsThursday | Sources/HabitsTrackerApp/Models/Habit.swift:58 | Day 0 (1970-01-01) is a Thursday. |
| Calendar.WeekdayCycle | Sources/HabitsTrackerApp/Models/Habit.swift:57-61 | Weekdays repeat every 7 days, and each day is followed by the next weekday. |
| Calendar.DaysInMonth | Sources/HabitsTrackerApp/Services/HabitSnapshotBuilder.swift:58-59 | Every month has 28 to 31 days. |
| Calendar.DaysInYear | Sources/HabitsTrackerApp/Services/HabitSnapshotBuilder.swift:47 | A year has 366 days iff it is a leap year, else 365. |
| Calendar.YearOf | Sources/HabitsTrackerApp/Services/HabitSnapshotBuilder.swift:47 | The `.year` of a day is the year whose January 1 is at or before it and whose successor's is after it. |
| Calendar.YearOfUnique | Sources/HabitsTrackerApp/Services/HabitSnapshotBuilder.swift:47 | Only one year contains a given day. |
| Calendar.ToCivil | Sources/HabitsTrackerApp/Models/Habit.swift:91-95 | The calendar date of a day is valid and maps back to the same day. |
| Calendar.CivilRoundTrip | Sources/HabitsTrackerApp/Services/HabitSnapshotBuilder.swift:53-58 | Every valid calendar date is the date of its own day number (`calendar.date(from:)` then components). |
| Calendar.ToCivilInjective | Sources/HabitsTrackerApp/Models/Habit.swift:91-95 | Distinct days have distinct calendar dates. |
| Calendar.RenderLayout | Sources/HabitsTrackerApp/Models/Habit.swift:93 | Where year, month and day sit in "yyyy-MM-dd": the month and the day take exactly two characters. |
| Calendar.RenderInjective | Sources/HabitsTrackerApp/Models/Habit.swift:91-95 | Distinct valid dates of the common era render differently. |
| Calendar.DateStringInjective | Sources/HabitsTrackerApp/Models/Habit.swift:91-95 | Two days of the common era share a log key only if they are the same day. |
| HabitModel.MinutesOn | Sources/HabitsTrackerApp/Models/Habit.swift:45-47 | The minutes of a day are its log entry, or 0 without one. |
| HabitModel.CompletionValue | Sources/HabitsTrackerApp/Models/Habit.swift:49-55 | The value is at most 1, and not negative when the minutes are not. Without a positive goal it is exactly 1 when checked in and 0 otherwise. |
| HabitModel.GoalCompletion | Sources/HabitsTrackerApp/Models/Habit.swift:49-53 | With a positive goal the value is min(minutes / goal, 1). It is 1 iff the minutes reach the goal. |
| HabitModel.PartialMinutesAreCheckedIn | Sources/HabitsTrackerApp/Models/Habit.swift:38-55 | A minutes habit with some, but not all, of its goal is checked in, with a value strictly between 0 and 1. |
| HabitModel.EmptyLogsNotCheckedIn | Sources/HabitsTrackerApp/Models/Habit.swift:38-55 | A habit with empty logs is not checked in and has value 0 on every day. |
| HabitModel.CheckedInIffPositive | Sources/HabitsTrackerApp/Models/Habit.swift:38-55 | `IsCheckedIn`: a habit is checked in on a day iff that day's completion value is positive, for check-in and minutes habits alike. |
| HabitModel.ActiveDayPeriodic | Sources/HabitsTrackerApp/Models/Habit.swift:57-61 | `IsActiveDay` depends only on the weekday, so it repeats every 7 days. |
| HabitModel.ActiveEachWeek | Sources/HabitsTrackerApp/Models/Habit.swift:57-61 | Each weekday of the cadence occurs, as an active day, in any 7 consecutive days. |
| HabitModel.EligibleWeekAfterWeek | Sources/HabitsTrackerApp/Services/HabitSnapshotBuilder.swift:77-78 | `IsEligible` (started, and on an active weekday): a habit eligible on a day is eligible on the same weekday of every later week. |
| HabitModel.ToggleCheckIn | Sources/HabitsTrackerApp/Models/Habit.swift:63-70 | The day's key is removed if present and inserted otherwise. Nothing else changes. |
| HabitModel.ToggleTwice | Sources/HabitsTrackerApp/Models/Habit.swift:63-70 | Toggling the same day twice restores the habit. |
| HabitModel.ToggleFlipsOnlyThatDay | Sources/HabitsTrackerApp/Models/Habit.swift:38-43 | For a check-in habit, a toggle flips whether that day is checked in and leaves every other day (of the common era) as it was. |
| HabitModel.ToggleLeavesMinutesHabit | Sources/HabitsTrackerApp/Models/Habit.swift:38-55 | A toggle changes neither the check-in state nor the value of a minutes habit on any day. |
| HabitModel.AddMinutes | Sources/HabitsTrackerApp/Models/Habit.swift:72-76 | Only the minutes log changes, and it gains exactly the day's key. |
| HabitModel.AddMinutesEffect | Sources/HabitsTrackerApp/Models/Habit.swift:72-76 | The day's minutes grow by exactly the amount; every other day's minutes are unchanged. |
| HabitModel.IncrementOrResetMinutes | Sources/HabitsTrackerApp/Models/Habit.swift:78-87 | Only the minutes log changes, and it gains exactly the day's key. |
| HabitModel.IncrementOrResetEffect | Sources/HabitsTrackerApp/Models/Habit.swift:78-87 | The day's minutes reset to 0 at or past the goal and otherwise grow by 5. Other days are unchanged. |
| HabitModel.IncrementOrResetBounded | Sources/HabitsTrackerApp/Models/Habit.swift:78-87 | With a positive goal, repeated presses keep a day's minutes within [0, goal + 5). |
| SnapshotBuilder.MinStart | Sources/HabitsTrackerApp/Services/HabitSnapshotBuilder.swift:30 | The earliest start is absent iff there are no habits. Otherwise it is one habit's start and no later than any. |
| SnapshotBuilder.EligibleNotBeforeEarliest | Sources/HabitsTrackerApp/Services/HabitSnapshotBuilder.swift:107-117 | A day with an eligible habit is never before the earliest start. |
| SnapshotBuilder.EligibleCount | Sources/HabitsTrackerApp/Services/HabitSnapshotBuilder.swift:77-79 | The number of eligible habits is at most the number of habits, and 0 iff none is eligible. |
| SnapshotBuilder.CompletionTotalBounds | Sources/HabitsTrackerApp/Services/HabitSnapshotBuilder.swift:77-81 | The summed completion is at most the eligible count, 0 when nothing is eligible, and not negative when no minutes entry is. |
| SnapshotBuilder.DayValue | Sources/HabitsTrackerApp/Services/HabitSnapshotBuilder.swift:73-85 | The day value is at most 1 and not negative for non-negative logs. It is 0 on a day with no eligible habit. |
| SnapshotBuilder.CalculateDayValue | Sources/HabitsTrackerApp/Services/HabitSnapshotBuilder.swift:73-85 | The loop computes the day value: the mean completion of the eligible habits. |
| SnapshotBuilder.TotalIsCountIff | Sources/HabitsTrackerApp/Services/HabitSnapshotBuilder.swift:123-125 | The completion total equals the eligible count iff every eligible habit is fully complete. |
| SnapshotBuilder.DayCompleteIff | Sources/HabitsTrackerApp/Services/HabitSnapshotBuilder.swift:123-125 | On a day with an eligible habit, the day is complete (`>= 1.0`) iff every eligible habit is fully complete, and `>= 1.0` is the same as `== 1.0`. |
| SnapshotBuilder.NotYetStartedIgnored | Sources/HabitsTrackerApp/Services/HabitSnapshotBuilder.swift:77 | Adding a habit that starts after a day changes neither that day's count, nor its total, nor its value. |
| SnapshotBuilder.WindowDaysRange | Sources/HabitsTrackerApp/Services/HabitSnapshotBuilder.swift:32-36 | The days the guard keeps run consecutively from the later of the window start and the earliest start, up to the window end. |
| SnapshotBuilder.EntriesOf | Sources/HabitsTrackerApp/Services/HabitSnapshotBuilder.swift:38-40 | One entry per kept day: its label, its day value and its date. |
| SnapshotBuilder.FormatLabelShape | Sources/HabitsTrackerApp/Services/HabitSnapshotBuilder.swift:166-188 | `formatLabel` and `monthLabel`: a weekly label is the day's three-letter weekday name, a yearly label is the month's three-letter name, and a monthly label is the month's name, a space and the day of the month; distinct months get distinct names. |
| SnapshotBuilder.WindowEndingToday | Sources/HabitsTrackerApp/Services/HabitSnapshotBuilder.swift:32-36 | Of the n days ending today, the kept ones are the last ones. They are empty iff n is 0 or the earliest start is after today, and they never precede the earliest start. |
| SnapshotBuilder.EntriesEndingToday | Sources/HabitsTrackerApp/Services/HabitSnapshotBuilder.swift:32-41 | The entries are one per kept day, oldest first, the last one being today. |
| SnapshotBuilder.DailyEntriesShape | Sources/HabitsTrackerApp/Services/HabitSnapshotBuilder.swift:19-41 | `DailyEntries`, the weekly and monthly series, has at most 7 or 30 entries, on consecutive days ending today, none before the earliest start. The series is empty iff the earliest start is after today. |
| SnapshotBuilder.BuildEntriesInOrder | Sources/HabitsTrackerApp/Services/HabitSnapshotBuilder.swift:19-71 | `BuildEntries`: whatever the scope, at most one entry per day of the scope (per month for a year), every entry dated, and the dates strictly increasing. |
| SnapshotBuilder.EmptyDailyEntries | Sources/HabitsTrackerApp/Services/HabitSnapshotBuilder.swift:30-41 | With no habits, the weekly and monthly series are exactly one entry: today, valued 0. |
| SnapshotBuilder.MonthEndIsLastDay | Sources/HabitsTrackerApp/Services/HabitSnapshotBuilder.swift:58-59 | Adding a month less a day to the first of a month gives its last day. |
| SnapshotBuilder.MonthEndThenNextMonth | Sources/HabitsTrackerApp/Services/HabitSnapshotBuilder.swift:58-59 | The day after a month's end is the next month's first day, or January 1 of the next year. |
| SnapshotBuilder.MonthEndIncreasing | Sources/HabitsTrackerApp/Services/HabitSnapshotBuilder.swift:64 | Later months of a year end later. |
| SnapshotBuilder.SumDayValues | Sources/HabitsTrackerApp/Services/HabitSnapshotBuilder.swift:91-95 | The sum of n day values is at most n, and not negative for non-negative logs. |
| SnapshotBuilder.MonthValue | Sources/HabitsTrackerApp/Services/HabitSnapshotBuilder.swift:87-98 | The month value is at most 1, and not negative for non-negative logs. |
| SnapshotBuilder.CalculateMonthValue | Sources/HabitsTrackerApp/Services/HabitSnapshotBuilder.swift:87-98 | The loop sums the day values of the month, and the result is that sum over days + 1 (0 for a one-day span). |
| SnapshotBuilder.MonthValueIsMean | Sources/HabitsTrackerApp/Services/HabitSnapshotBuilder.swift:68-69 | `MonthEntry`: a month's entry is the mean of its day values over all of its days, and is dated the first of the month. |
| SnapshotBuilder.KeptMonths | Sources/HabitsTrackerApp/Services/HabitSnapshotBuilder.swift:52-66 | The kept months are month numbers within 1..n. |
| SnapshotBuilder.KeptMonthsSuffix | Sources/HabitsTrackerApp/Services/HabitSnapshotBuilder.swift:63-66 | A month is kept iff it ends on or after the earliest start, iff it is among the last kept ones. The months left out come first. |
| SnapshotBuilder.KeptMonthsConsecutive | Sources/HabitsTrackerApp/Services/HabitSnapshotBuilder.swift:52-66 | The kept months are consecutive and end with December. |
| SnapshotBuilder.MonthEntries | Sources/HabitsTrackerApp/Services/HabitSnapshotBuilder.swift:68-69 | One entry per kept month. |
| SnapshotBuilder.KeptMonthEntries | Sources/HabitsTrackerApp/Services/HabitSnapshotBuilder.swift:52-70 | The yearly entries are the last months of the year, in month order, each with its own month's entry. |
| SnapshotBuilder.MonthEntriesInOrder | Sources/HabitsTrackerApp/Services/HabitSnapshotBuilder.swift:52-70 | Entries of increasing months carry increasing dates, each the first of its month. |
| SnapshotBuilder.MonthStartIncreasing | Sources/HabitsTrackerApp/Services/HabitSnapshotBuilder.swift:53-58 | Later months of a year start later. |
| SnapshotBuilder.YearlyEntriesShape | Sources/HabitsTrackerApp/Services/HabitSnapshotBuilder.swift:44-71 | `YearlyEntries` (`buildYearlyEntries`) has at most 12 entries, the months of today's year. A month is present iff its last day is not before the earliest start. |
| SnapshotBuilder.YearlyEntriesInOrder | Sources/HabitsTrackerApp/Services/HabitSnapshotBuilder.swift:44-71 | Every yearly entry is dated and the dates increase. |
| SnapshotBuilder.CalculateStreaks | Sources/HabitsTrackerApp/Services/HabitSnapshotBuilder.swift:100-138 | The loop computes the scan over the 365 days ending today, oldest first. |
| SnapshotBuilder.ScanInvariant | Sources/HabitsTrackerApp/Services/HabitSnapshotBuilder.swift:109-135 | During the scan, running count ≤ best ≤ days scanned, and the current streak stays 0 until today. |
| SnapshotBuilder.StreakBounds | Sources/HabitsTrackerApp/Services/HabitSnapshotBuilder.swift:100-138 | `Streaks` (`calculateStreaks`): 0 ≤ current streak ≤ best streak ≤ 365. |
| SnapshotBuilder.CurrentStreakAtToday | Sources/HabitsTrackerApp/Services/HabitSnapshotBuilder.swift:127-134 | The current streak is the run ending today when today has an eligible habit and is complete. Otherwise it is 0, also on a rest day. |
| SnapshotBuilder.RunSpansSkippedDay | Sources/HabitsTrackerApp/Services/HabitSnapshotBuilder.swift:113-121 | A day before the earliest start or without an eligible habit does not break a run: the next complete day extends it. |
| SnapshotBuilder.BestIsLongestRun | Sources/HabitsTrackerApp/Services/HabitSnapshotBuilder.swift:127-134 | The best streak is the longest run: no running count exceeds it, and some running count equals it. |
| SnapshotBuilder.EmptyScan | Sources/HabitsTrackerApp/Services/HabitSnapshotBuilder.swift:116-121 | With no habits the scan never moves. |
| SnapshotBuilder.EmptyStreaks | Sources/HabitsTrackerApp/Services/HabitSnapshotBuilder.swift:100-138 | With no habits both streaks are 0. |
| SnapshotBuilder.ScopeDays | Sources/HabitsTrackerApp/Services/HabitSnapshotBuilder.swift:142 | Every scope spans at least a week. |
| SnapshotBuilder.WindowCompletionBounds | Sources/HabitsTrackerApp/Services/HabitSnapshotBuilder.swift:147-154 | The window's summed completion is at most its eligible habit-days, and not negative for non-negative logs. |
| SnapshotBuilder.WindowStep | Sources/HabitsTrackerApp/Services/HabitSnapshotBuilder.swift:147-154 | Extending the window by a day adds that day's count and total. |
| SnapshotBuilder.CompletionRate | Sources/HabitsTrackerApp/Services/HabitSnapshotBuilder.swift:140-158 | The rate is at most 1, and not negative for non-negative logs. |
| SnapshotBuilder.AddDayTotals | Sources/HabitsTrackerApp/Services/HabitSnapshotBuilder.swift:149-153 | The inner loop adds the day's eligible count and completion total to the running totals. |
| SnapshotBuilder.CalculateCompletion | Sources/HabitsTrackerApp/Services/HabitSnapshotBuilder.swift:140-158 | The loop computes the rate: total completion over eligible habit-days of the scope's window ending today, or 0 with none. |
| SnapshotBuilder.RateOfWindow | Sources/HabitsTrackerApp/Services/HabitSnapshotBuilder.swift:142-157 | The window starts `daysCount - 1` days before today and ends today; the rate is the mean completion over the eligible active (habit, day) pairs of that window. |
| SnapshotBuilder.EmptyWindow | Sources/HabitsTrackerApp/Services/HabitSnapshotBuilder.swift:156 | With no habits a window has no eligible habit-day. |
| SnapshotBuilder.Caption | Sources/HabitsTrackerApp/Services/HabitSnapshotBuilder.swift:160-164 | With no habits the caption is the placeholder. |
| SnapshotBuilder.CaptionPercent | Sources/HabitsTrackerApp/Services/HabitSnapshotBuilder.swift:160-164 | With non-negative logs, the caption of a non-empty list states floor(rate × 100), a whole number in 0..100, and the scope title unchanged. |
| SnapshotBuilder.CaptionShape | Sources/HabitsTrackerApp/Services/HabitSnapshotBuilder.swift:163 | For a non-empty list the caption reads "You're at p% completion this " and then the lower-cased scope title, p being the truncated percentage. |
| SnapshotBuilder.TitleIsLowercase | Sources/HabitsTrackerApp/Services/HabitSnapshotBuilder.swift:163 | The scope titles are already lower case, so `lowercased()` leaves them unchanged. |
| SnapshotBuilder.TitlesDistinct | Sources/HabitsTrackerApp/Models/HabitModels.swift:8-14 | `TimeScope.Title`: the three scopes have distinct titles. |
| SnapshotBuilder.Build | Sources/HabitsTrackerApp/Services/HabitSnapshotBuilder.swift:4-17 | The snapshot is the scope's series, the streaks, the rate and the caption. Its streaks satisfy 0 ≤ current ≤ best ≤ 365 and its rate is at most 1. |
| SnapshotBuilder.EmptySnapshot | Sources/HabitsTrackerApp/Services/HabitSnapshotBuilder.swift:4-17 | With no habits: zero streaks, rate 0 and the placeholder caption. |
| DayBuilder.CheckedCount | Sources/HabitsTrackerApp/Services/HabitDayBuilder.swift:24-30 | No more habits are checked in than are eligible. |
| DayBuilder.Level | Sources/HabitsTrackerApp/Services/HabitDayBuilder.swift:20-39 | A level is in 0..3, and 0 on a day without an eligible habit. |
| DayBuilder.CalculateLevel | Sources/HabitsTrackerApp/Services/HabitDayBuilder.swift:20-39 | The loop and the thresholds compute the level of the share of eligible habits that are checked in. |
| DayBuilder.CheckedIsCountIff | Sources/HabitsTrackerApp/Services/HabitDayBuilder.swift:24-30 | The checked count reaches the eligible count iff every eligible habit is checked in. |
| DayBuilder.FullLevelIff | Sources/HabitsTrackerApp/Services/HabitDayBuilder.swift:32-35 | Level 3 iff some habit is eligible and every eligible habit is checked in. |
| DayBuilder.LevelThresholds | Sources/HabitsTrackerApp/Services/HabitDayBuilder.swift:34-38 | Level ≥ 2 iff 100 × checked ≥ 66 × eligible, and level ≥ 1 iff 100 × checked ≥ 33 × eligible. |
| DayBuilder.ShareThresholds | Sources/HabitsTrackerApp/Services/HabitDayBuilder.swift:34-38 | The same thresholds on plain counts: level 3 iff all are checked. |
| DayBuilder.PartialMinutesFullLevel | Sources/HabitsTrackerApp/Services/HabitDayBuilder.swift:27-35 | A lone minutes habit with part of its goal logged shows level 3 while its day value is below 1. |
| DayBuilder.DayLabel | Sources/HabitsTrackerApp/Services/HabitDayBuilder.swift:41-52 | Weekday numbers 1..7 have two-letter labels; any other number has the empty label. |
| DayBuilder.DayLabelInjective | Sources/HabitsTrackerApp/Services/HabitDayBuilder.swift:41-52 | Distinct weekdays have distinct labels. |
| DayBuilder.WeekdayPeriod | Sources/HabitsTrackerApp/Services/HabitDayBuilder.swift:11 | Two days a week apart have the same weekday. |
| DayBuilder.Last4WeeksCell | Sources/HabitsTrackerApp/Services/HabitDayBuilder.swift:9-17 | `BuildLast4Weeks` has 28 cells, and cell k is `Cell` of day today - 27 + k. |
| DayBuilder.Last4WeeksText | Sources/HabitsTrackerApp/Services/HabitDayBuilder.swift:11-12 | Cell k's label is the label of its day's weekday. |
| DayBuilder.Last4WeeksShape | Sources/HabitsTrackerApp/Services/HabitDayBuilder.swift:4-18 | Of the `Cell`s, only the last (today) is highlighted. Every cell has a two-letter label and its day's level. |
| DayBuilder.Last4WeeksLabelsRepeat | Sources/HabitsTrackerApp/Services/HabitDayBuilder.swift:10-12 | Labels repeat with a period of seven cells. |
| DayBuilder.EmptyLast4Weeks | Sources/HabitsTrackerApp/Services/HabitDayBuilder.swift:32 | With no habits every cell has level 0. |
| Store.NewHabit | Sources/HabitsTrackerApp/Services/HabitStore.swift:14 | A created habit has the given id, title and cadence and starts today. It is a check-in habit without a goal, with empty logs, checked in on no day. |
| Store.Ids | Sources/HabitsTrackerApp/Services/HabitStore.swift:20 | The ids of the list are exactly the ids of its habits. |
| Store.Without | Sources/HabitsTrackerApp/Services/HabitStore.swift:20 | `removeAll`: no habit with the id is left, every other habit is kept, and nothing is added. |
| Store.FirstIndexWithId | Sources/HabitsTrackerApp/Services/HabitStore.swift:25 | `firstIndex(where:)`: a found index holds the id and is the first one that does. None means no habit has the id. |
| Store.ToggledIn | Sources/HabitsTrackerApp/Services/HabitStore.swift:24-28 | Toggling through the store keeps the length of the list. |
| Store.HabitStore.constructor | Sources/HabitsTrackerApp/Services/HabitStore.swift:9-11 | The store starts with what the storage holds, or empty. |
| Store.HabitStore.Create | Sources/HabitsTrackerApp/Services/HabitStore.swift:13-17 | `create` appends exactly the new habit. |
| Store.HabitStore.Delete | Sources/HabitsTrackerApp/Services/HabitStore.swift:19-22 | `delete` leaves the list without that id. |
| Store.HabitStore.ToggleCheckInFor | Sources/HabitsTrackerApp/Services/HabitStore.swift:24-28 | `toggleCheckIn` toggles the day of the first habit with the id, or changes nothing. |
| Store.CreateKeepsIdsUnique | Sources/HabitsTrackerApp/Services/HabitStore.swift:13-17 | Creating with a fresh id keeps ids unique and adds exactly that id. |
| Store.DeleteRemovesExactlyId | Sources/HabitsTrackerApp/Services/HabitStore.swift:19-22 | After a delete the ids are the old ids less that one. |
| Store.DeleteIdempotent | Sources/HabitsTrackerApp/Services/HabitStore.swift:19-22 | Deleting twice is deleting once. |
| Store.DeleteAbsent | Sources/HabitsTrackerApp/Services/HabitStore.swift:19-22 | Deleting an id no habit has changes nothing. |
| Store.DeleteAppend | Sources/HabitsTrackerApp/Services/HabitStore.swift:20 | Deleting from a concatenation deletes from each part, so the kept habits stay in order. |
| Store.CreateThenDelete | Sources/HabitsTrackerApp/Services/HabitStore.swift:13-22 | Deleting a habit just created with a fresh id restores the list. |
| Store.DeleteKeepsIdsUnique | Sources/HabitsTrackerApp/Services/HabitStore.swift:19-22 | Deleting keeps unique ids unique. |
| Store.ToggledInEffect | Sources/HabitsTrackerApp/Services/HabitStore.swift:24-28 | The first habit with the id is toggled, and every other habit and every id is unchanged. |
| Store.ToggledInUnique | Sources/HabitsTrackerApp/Services/HabitStore.swift:24-28 | With unique ids, exactly the habit with the id is toggled. |
| Store.ToggledInAbsent | Sources/HabitsTrackerApp/Services/HabitStore.swift:25 | Toggling an id that is not stored changes nothing. |
| Store.ToggledInTwice | Sources/HabitsTrackerApp/Services/HabitStore.swift:24-28 | Toggling the same day twice through the store restores the list. |
| Store.SameIdsFirstIndex | Sources/HabitsTrackerApp/Services/HabitStore.swift:25 | Lists with the same ids position by position have the same first index for an id. |
| Store.ToggledInKeepsIds | Sources/HabitsTrackerApp/Services/HabitStore.swift:24-28 | Toggling keeps every id, and so keeps unique ids unique. |
| Export.DoubleQuotes | Sources/HabitsTrackerApp/Services/HabitExportService.swift:77 | Doubling the quotes lengthens the text by its number of quotes. |
| Export.EscapeCsv | Sources/HabitsTrackerApp/Services/HabitExportService.swift:75-81 | A field without a comma, quote or line feed is unchanged; any other field is enclosed in quotes. |
| Export.EscapeRoundTrip | Sources/HabitsTrackerApp/Services/HabitExportService.swift:75-81 | A CSV reader gets every title back from its escaped field. |
| Export.UndoubleDoubled | Sources/HabitsTrackerApp/Services/HabitExportService.swift:77 | Reading doubled quotes as single ones undoes the doubling. |
| Export.DoubledQuoteCount | Sources/HabitsTrackerApp/Services/HabitExportService.swift:77 | Doubling makes exactly twice as many quotes. |
| Export.EscapedQuoteCount | Sources/HabitsTrackerApp/Services/HabitExportService.swift:75-81 | An escaped field holds twice the title's quotes, plus 2 when quoted, so quotes come in pairs. |
| Export.CsvText | Sources/HabitsTrackerApp/Services/HabitExportService.swift:7-9 | With no habits the export is the placeholder text. |
| Export.GenerateCSV | Sources/HabitsTrackerApp/Services/HabitExportService.swift:6-50 | The export is the header line and then one row per day from the earliest start to today. |
| Export.DatesFrom | Sources/HabitsTrackerApp/Services/HabitExportService.swift:16-21 | The date loop yields every day from the earliest start to today, in order. |
| Export.HeaderLine | Sources/HabitsTrackerApp/Services/HabitExportService.swift:24-28 | The header is "Date", then each escaped title after a comma, then a line feed. |
| Export.AppendRows | Sources/HabitsTrackerApp/Services/HabitExportService.swift:31-47 | The row loop appends the rows of the dates in order. |
| Export.AppendRow | Sources/HabitsTrackerApp/Services/HabitExportService.swift:32-46 | One pass appends the date key, a comma and a cell per habit, and a line feed. |
| Export.AppendCell | Sources/HabitsTrackerApp/Services/HabitExportService.swift:35-43 | The inner pass appends a comma and the habit's cell. |
| Export.RowsSnoc | Sources/HabitsTrackerApp/Services/HabitExportService.swift:31-47 | One more day adds one more row at the end. |
| Export.CellsSnoc | Sources/HabitsTrackerApp/Services/HabitExportService.swift:34-44 | One more habit adds one more cell at the end. |
| Export.DateStringChars | Sources/HabitsTrackerApp/Models/Habit.swift:91-95 | A date key holds only digits and dashes. |
| Export.CellChars | Sources/HabitsTrackerApp/Services/HabitExportService.swift:37-42 | `Cell`, an export cell, holds no comma and no line feed. |
| Export.CellsSeparators | Sources/HabitsTrackerApp/Services/HabitExportService.swift:34-44 | `Cells`, a row's cells, hold one comma per habit and no line feed. |
| Export.RowShape | Sources/HabitsTrackerApp/Services/HabitExportService.swift:32-46 | `Row` has one field per habit after the date, and ends with its only line feed. |
| Export.RowsLines | Sources/HabitsTrackerApp/Services/HabitExportService.swift:31-47 | `Rows` has one line per exported day. |
| Export.ExportDaysRange | Sources/HabitsTrackerApp/Services/HabitExportService.swift:12-21 | `ExportDays`, the exported days, run one by one from the earliest start to today, and there are none when it is after today. |
| Export.EveryStartedDayExported | Sources/HabitsTrackerApp/Services/HabitExportService.swift:12-21 | Every day from any habit's start to today has a row. |
| Export.CsvLines | Sources/HabitsTrackerApp/Services/HabitExportService.swift:24-47 | With titles free of line feeds, the export has one header line and one line per exported day. |
| Export.HeaderCellsLines | Sources/HabitsTrackerApp/Services/HabitExportService.swift:24-28 | `Header`'s title cells: titles free of line feeds give cells without a line feed. |
| Export.CellPercent | Sources/HabitsTrackerApp/Services/HabitExportService.swift:37-42 | On an active day, with a non-negative minutes entry, a cell is a whole percentage in 0..100 followed by "%". |
| Export.CellPercentEnds | Sources/HabitsTrackerApp/Services/HabitExportService.swift:37-42 | A complete day exports as "100%" and a day with value 0 as "0%". |
| Export.RestDayCell | Sources/HabitsTrackerApp/Services/HabitExportService.swift:37-43 | A cell is "REST DAY" exactly when the day is off the habit's cadence, and a habit's start date never changes its cell. |
| Home.TabsDistinct | Sources/HabitsTrackerApp/Models/HomeTab.swift:3-14 | `RawValue` and `HomeTab.Title`: the two tabs have distinct ids and distinct titles. |
| Home.GreetingIff | Sources/HabitsTrackerApp/Models/HomeTab.swift:16-24 | `Greeting`: each greeting belongs to exactly one range of hours: morning 5-11, afternoon 12-16, evening 17-21, and night for every other hour. |
| HabitForm.ToggledDays | Sources/HabitsTrackerApp/Views/HabitFormSheet.swift:115-119 | A day button flips that day's membership and no other day's. |
| HabitForm.Form.constructor | Sources/HabitsTrackerApp/Views/HabitFormSheet.swift:15-30 | The form shows the edited habit's title, days, type and goal, or starts empty as a check-in form. |
| HabitForm.Form.ToggleDay | Sources/HabitsTrackerApp/Views/HabitFormSheet.swift:115-119 | The day selection is toggled, and the other fields are unchanged. |
| HabitForm.Form.SavedGoal | Sources/HabitsTrackerApp/Views/HabitFormSheet.swift:130 | A check-in habit saves no goal; a minutes habit saves the parsed goal text. |
| HabitForm.ToggleDayTwice | Sources/HabitsTrackerApp/Views/HabitFormSheet.swift:115-119 | Pressing a day button twice restores the selection. |
| HabitForm.ValidSavesWellFormed | Sources/HabitsTrackerApp/Views/HabitFormSheet.swift:32-37 | A valid form saves a habit with a title, some active weekday and, if any, a positive goal. |
| HabitForm.ValidIff | Sources/HabitsTrackerApp/Views/HabitFormSheet.swift:32-37 | `IsValid` holds iff the habit the form would save has a title, some active weekday and, for a minutes habit, a positive goal; both directions. |
| HabitForm.ValidMinutesHasGoal | Sources/HabitsTrackerApp/Views/HabitFormSheet.swift:35 | A valid minutes form saves the positive goal that its text reads as. |
| HabitForm.EditKeepsHistory | Sources/HabitsTrackerApp/Views/HabitFormSheet.swift:132-142 | `SavedHabit` for an edit keeps id, start date and logs, and takes title, days, type and goal from the form. |
| HabitForm.NewHabitHasNoHistory | Sources/HabitsTrackerApp/Views/HabitFormSheet.swift:143-149 | `SavedHabit` for a new habit gives the fresh id, starts today and has no history: checked in on no day, value 0 everywhere. |
| HabitForm.ReopenSaveRoundTrip | Sources/HabitsTrackerApp/Views/HabitFormSheet.swift:19-23 | Opening a habit and saving it unchanged gives the same habit back, when its goal is a 64-bit integer and a check-in habit has none. |
| HabitForm.GoalTextRoundTrip | Sources/HabitsTrackerApp/Views/HabitFormSheet.swift:23 | `GoalText`: the text the form shows for a goal reads back as that goal, for any 64-bit goal and for none. |
| HabitForm.BooleanGoalDropped | Sources/HabitsTrackerApp/Views/HabitFormSheet.swift:130 | A check-in habit that has a goal loses it when opened and saved. |

## Left out

- Persistence is left out: the JSON encoding to and decoding from the user defaults (`save`, `load`). The constructor of `HabitStore` takes what `load` would find.
- `exportToFile` is left out: the timestamped file name and the file write are I/O.
- The clock is a parameter (`today`, the hour of the greeting), and so are the fresh UUIDs (`id`, `newId`). A UUID is a natural number compared only for equality.
- Labels are those of an English locale: `FormatLabel`, `MonthLabel` and `WeekdayShortName` are English-locale stand-ins for `DateFormatter`, so "EEE", "MMM d" and "MMM" give "Sun", "Jan 5" and "Jan". Other locales and formatter time zones are not modelled.
- `Weekday` and its `from` are not part of this model's source files. The model numbers weekdays like the platform calendar (1 = Sunday), which is what `isActiveDay` feeds it.
- Completion values, means and rates are exact reals, not `Double`. The 0.66 and 0.33 thresholds are compared exactly. For counts of habits far below 2^40, the `Double` comparison gives the same result.
- Export.CellPercent, SnapshotBuilder.CaptionPercent: the percentages are truncations of exact products, so they can be one more than the source's. For example, 29 of 100 minutes gives 0.29 × 100 = 28.999999999999996 in `Double`, which the source exports as "28%" and the model as "29%".
- The user's calendar is taken to be the Gregorian calendar, proleptic, with no Julian cut-over before 1582-10-15. The source uses `Calendar.current` and a `DateFormatter` in the user's calendar. Under another calendar, such as the Japanese one with era years in "yyyy", days in different eras can share a log key, so Calendar.DateStringInjective is a fact about the Gregorian calendar only.
- HabitModel.AddMinutes: the model does not trap on `Int` overflow, because integers are unbounded here.
- HabitModel.IncrementOrResetMinutes: the model does not trap on `Int` overflow, because integers are unbounded here.
- Calendar.DateStringInjective: it holds only for days of year 1 or later. "yyyy" is the year of the era, so 1 BC and AD 1 share "0001", as they do in the source.
- HabitModel.ToggleFlipsOnlyThatDay, HabitModel.AddMinutesEffect, HabitModel.IncrementOrResetEffect: these are stated for days of the common era only, for the same reason.
- Calendar failures are not modelled: `calendar.date(...)` returning nil and `addingDays` falling back to `self` never happen in the Gregorian calendar at day granularity.
- Yearly fallback time: `buildYearlyEntries` uses the current time, not the start of today, as the fallback earliest start for an empty list. The model uses today. On the last day of a month, after midnight, with no habits, the source also drops that month.
- Strings are sequences of characters. Swift's grapheme clusters and Unicode-aware `contains` are not modelled.
- Home.Greeting: it accepts any integer hour, not only 0..23; the property is stated for all of them.
- The views, their layout and the `StreakMatrixView` are left out, and so are `@MainActor` isolation and `@Published` change notification.
