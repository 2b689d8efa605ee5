/**
 * `HabitStore`: the app's list of habits and the three operations that
 * change it. The list is a field the operations reassign; persistence to
 * the user defaults is not modelled, and what `load()` finds there is a
 * constructor parameter.
 */
module Store {
  import opened Options
  import opened Calendar
  import opened HabitModel

  /** The habit `Habit(title:cadence:)` builds: a check-in habit with empty logs, starting `today`. */
  function NewHabit(id: HabitId, title: string, cadence: set<Weekday>, today: Day): (h: Habit)
    ensures h.id == id && h.title == title && h.cadence == cadence && h.startDate == today
    ensures h.trackingType == Boolean && h.goalMinutes == None
    ensures h.checkIns == {} && h.minutesLog == map[]
    ensures forall d :: !IsCheckedIn(h, d)
  {
    Habit(id, title, cadence, today, {}, Boolean, map[], None)
  }

  /** The ids of a list of habits. */
  function Ids(habits: seq<Habit>): (ids: set<HabitId>)
    ensures forall i :: 0 <= i < |habits| ==> habits[i].id in ids
    ensures forall id :: id in ids ==> exists i :: 0 <= i < |habits| && habits[i].id == id
  {
    set i | 0 <= i < |habits| :: habits[i].id
  }

  /** No two habits of the list share an id. */
  predicate UniqueIds(habits: seq<Habit>)
  {
    forall i, j :: 0 <= i < j < |habits| ==> habits[i].id != habits[j].id
  }

  /** `removeAll { $0.id == id }`: the list without the habits with id `id`, in the same order. */
  function Without(habits: seq<Habit>, id: HabitId): (r: seq<Habit>)
    ensures |r| <= |habits|
    ensures forall i :: 0 <= i < |r| ==> r[i].id != id
    ensures forall h :: h in r <==> h in habits && h.id != id
    decreases |habits|
  {
    if habits == [] then []
    else
      var rest := Without(habits[1..], id);
      assert forall h :: h in habits <==> h == habits[0] || h in habits[1..];
      if habits[0].id == id then rest else [habits[0]] + rest
  }

  /** `firstIndex(where: { $0.id == id })` */
  function FirstIndexWithId(habits: seq<Habit>, id: HabitId): (r: Option<nat>)
    ensures r.Some? ==> r.value < |habits| && habits[r.value].id == id
    ensures r.Some? ==> forall j :: 0 <= j < r.value ==> habits[j].id != id
    ensures r.None? ==> forall j :: 0 <= j < |habits| ==> habits[j].id != id
    decreases |habits|
  {
    if habits == [] then None
    else if habits[0].id == id then Some(0)
    else
      match FirstIndexWithId(habits[1..], id)
      case None => None
      case Some(k) => Some(k + 1)
  }

  /** The list after toggling day `d` of the first habit with id `id`; unchanged when there is none. */
  function ToggledIn(habits: seq<Habit>, id: HabitId, d: Day): (r: seq<Habit>)
    ensures |r| == |habits|
  {
    match FirstIndexWithId(habits, id)
    case None => habits
    case Some(i) => habits[i := ToggleCheckIn(habits[i], d)]
  }

  class HabitStore {
    var habits: seq<Habit>

    /** `init()`: the habits `load()` decodes from storage, or none. */
    constructor(stored: Option<seq<Habit>>)
      ensures habits == if stored.Some? then stored.value else []
    {
      habits := if stored.Some? then stored.value else [];
    }

    /** `create(title:cadence:)`: append a new check-in habit; `id` is the fresh UUID and `today` the current date. */
    method Create(title: string, cadence: set<Weekday>, id: HabitId, today: Day)
      modifies this
      ensures habits == old(habits) + [NewHabit(id, title, cadence, today)]
    {
      var habit := NewHabit(id, title, cadence, today);
      habits := habits + [habit];
    }

    /** `delete(_:)`: remove every habit with the id of `habit`. */
    method Delete(habit: Habit)
      modifies this
      ensures habits == Without(old(habits), habit.id)
    {
      habits := Without(habits, habit.id);
    }

    /** `toggleCheckIn(for:on:)`: toggle day `d` of the stored habit with the id of `habit`, if any. */
    method ToggleCheckInFor(habit: Habit, d: Day)
      modifies this
      ensures habits == ToggledIn(old(habits), habit.id, d)
    {
      var index := FirstIndexWithId(habits, habit.id);
      if index.None? {
        return;
      }
      habits := habits[index.value := ToggleCheckIn(habits[index.value], d)];
    }
  }

  // ---------------------------------------------------------------------------
  // Properties of the list operations

  /** Creating a habit with a fresh id keeps the ids unique and adds that id. */
  lemma CreateKeepsIdsUnique(habits: seq<Habit>, id: HabitId, title: string, cadence: set<Weekday>, today: Day)
    requires UniqueIds(habits) && id !in Ids(habits)
    ensures UniqueIds(habits + [NewHabit(id, title, cadence, today)])
    ensures Ids(habits + [NewHabit(id, title, cadence, today)]) == Ids(habits) + {id}
  {
    var r := habits + [NewHabit(id, title, cadence, today)];
    assert forall i :: 0 <= i < |habits| ==> r[i] == habits[i];
    assert r[|habits|].id == id;
  }

  /** Deleting removes exactly the id: every other habit is kept and the id is gone. */
  lemma DeleteRemovesExactlyId(habits: seq<Habit>, id: HabitId)
    ensures Ids(Without(habits, id)) == Ids(habits) - {id}
  {
    var r := Without(habits, id);
    forall x | x in Ids(habits) - {id}
      ensures x in Ids(r)
    {
      var i :| 0 <= i < |habits| && habits[i].id == x;
      assert habits[i] in r;
      var j :| 0 <= j < |r| && r[j] == habits[i];
    }
    forall x | x in Ids(r)
      ensures x in Ids(habits) - {id}
    {
      var j :| 0 <= j < |r| && r[j].id == x;
      assert r[j] in habits;
    }
  }

  /** Deleting twice is deleting once. */
  lemma {:induction false} DeleteIdempotent(habits: seq<Habit>, id: HabitId)
    ensures Without(Without(habits, id), id) == Without(habits, id)
    decreases |habits|
  {
    if habits != [] {
      DeleteIdempotent(habits[1..], id);
      if habits[0].id != id {
        assert ([habits[0]] + Without(habits[1..], id))[1..] == Without(habits[1..], id);
      }
    }
  }

  /** Deleting from a list of habits without that id changes nothing. */
  lemma {:induction false} DeleteAbsent(habits: seq<Habit>, id: HabitId)
    requires forall i :: 0 <= i < |habits| ==> habits[i].id != id
    ensures Without(habits, id) == habits
    decreases |habits|
  {
    if habits != [] {
      var tail := habits[1..];
      assert forall i :: 0 <= i < |tail| ==> tail[i].id != id by {
        forall i | 0 <= i < |tail| ensures tail[i].id != id {
          assert tail[i] == habits[i + 1];
        }
      }
      DeleteAbsent(tail, id);
      assert [habits[0]] + tail == habits;
    }
  }

  /** Deleting from a concatenation deletes from each part, so the order of the kept habits is the original order. */
  lemma {:induction false} DeleteAppend(a: seq<Habit>, b: seq<Habit>, id: HabitId)
    ensures Without(a + b, id) == Without(a, id) + Without(b, id)
    decreases |a|
  {
    if a != [] {
      assert (a + b)[1..] == a[1..] + b;
      DeleteAppend(a[1..], b, id);
    } else {
      assert a + b == b;
    }
  }

  /** Deleting a habit just created with a fresh id gives back the list before the creation. */
  lemma CreateThenDelete(habits: seq<Habit>, id: HabitId, title: string, cadence: set<Weekday>, today: Day)
    requires id !in Ids(habits)
    ensures Without(habits + [NewHabit(id, title, cadence, today)], id) == habits
  {
    DeleteAppend(habits, [NewHabit(id, title, cadence, today)], id);
    DeleteAbsent(habits, id);
    assert Without([NewHabit(id, title, cadence, today)][1..], id) == [];
  }

  /** Deleting keeps unique ids unique. */
  lemma {:induction false} DeleteKeepsIdsUnique(habits: seq<Habit>, id: HabitId)
    requires UniqueIds(habits)
    ensures UniqueIds(Without(habits, id))
    decreases |habits|
  {
    if habits != [] {
      var tail := habits[1..];
      UniqueTail(habits);
      DeleteKeepsIdsUnique(tail, id);
      var rest := Without(tail, id);
      if habits[0].id != id {
        forall k | 0 <= k < |rest| ensures rest[k].id != habits[0].id {
          assert rest[k] in tail;
          var j :| 0 <= j < |tail| && tail[j] == rest[k];
          assert habits[j + 1] == tail[j];
        }
        UniqueCons(habits[0], rest);
      }
    }
  }

  /** The tail of a list with unique ids has unique ids. */
  lemma UniqueTail(habits: seq<Habit>)
    requires habits != [] && UniqueIds(habits)
    ensures UniqueIds(habits[1..])
  {
    var tail := habits[1..];
    forall i, j | 0 <= i < j < |tail| ensures tail[i].id != tail[j].id {
      assert tail[i] == habits[i + 1] && tail[j] == habits[j + 1];
    }
  }

  /** A habit whose id is new to a list with unique ids keeps them unique in front of it. */
  lemma UniqueCons(h: Habit, rest: seq<Habit>)
    requires UniqueIds(rest)
    requires forall k :: 0 <= k < |rest| ==> rest[k].id != h.id
    ensures UniqueIds([h] + rest)
  {
    var r := [h] + rest;
    forall i, j | 0 <= i < j < |r| ensures r[i].id != r[j].id {
      if i == 0 {
        assert r[j] == rest[j - 1];
      } else {
        assert r[i] == rest[i - 1] && r[j] == rest[j - 1];
      }
    }
  }

  /**
   * Toggling through the store toggles day `d` of the first habit with the
   * id and leaves every other habit, the order and the ids as they were.
   */
  lemma ToggledInEffect(habits: seq<Habit>, id: HabitId, d: Day, k: int)
    requires 0 <= k < |habits|
    ensures var r := ToggledIn(habits, id, d);
            && r[k].id == habits[k].id
            && (FirstIndexWithId(habits, id) == Some(k) ==> r[k] == ToggleCheckIn(habits[k], d))
            && (FirstIndexWithId(habits, id) != Some(k) ==> r[k] == habits[k])
  {
  }

  /** With unique ids, the toggled habit is the only habit with that id. */
  lemma ToggledInUnique(habits: seq<Habit>, id: HabitId, d: Day, k: int)
    requires UniqueIds(habits) && 0 <= k < |habits|
    ensures var r := ToggledIn(habits, id, d);
            r[k] == if habits[k].id == id then ToggleCheckIn(habits[k], d) else habits[k]
  {
    var first := FirstIndexWithId(habits, id);
    if habits[k].id == id {
      assert first.Some?;
      if first.value != k {
        assert false;
      }
    }
  }

  /** Toggling an id that is not stored leaves the list as it was. */
  lemma ToggledInAbsent(habits: seq<Habit>, id: HabitId, d: Day)
    requires id !in Ids(habits)
    ensures ToggledIn(habits, id, d) == habits
  {
  }

  /** Toggling the same day twice through the store restores the list. */
  lemma ToggledInTwice(habits: seq<Habit>, id: HabitId, d: Day)
    ensures ToggledIn(ToggledIn(habits, id, d), id, d) == habits
  {
    var once := ToggledIn(habits, id, d);
    match FirstIndexWithId(habits, id)
    case None =>
    case Some(i) =>
      SameIdsFirstIndex(habits, once, id);
      ToggleTwice(habits[i], d);
      assert once[i := ToggleCheckIn(once[i], d)] == habits;
  }

  /** Two lists whose habits have the same ids, position by position, have the same first index for an id. */
  lemma {:induction false} SameIdsFirstIndex(a: seq<Habit>, b: seq<Habit>, id: HabitId)
    requires |a| == |b| && forall k :: 0 <= k < |a| ==> a[k].id == b[k].id
    ensures FirstIndexWithId(a, id) == FirstIndexWithId(b, id)
    decreases |a|
  {
    if a != [] && a[0].id != id {
      SameIdsFirstIndex(a[1..], b[1..], id);
    }
  }

  /** Toggling keeps the ids, so it keeps unique ids unique. */
  lemma ToggledInKeepsIds(habits: seq<Habit>, id: HabitId, d: Day)
    ensures forall k :: 0 <= k < |habits| ==> ToggledIn(habits, id, d)[k].id == habits[k].id
    ensures UniqueIds(habits) ==> UniqueIds(ToggledIn(habits, id, d))
  {
  }
}
