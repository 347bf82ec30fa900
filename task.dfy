/**
 * The per-day task store: a map from a day's index to that day's list of tasks, the
 * pure operations on it, and its flush to and load from storage, where each day's list
 * lives in the slot named by the decimal text of its index.
 */
module Tasks {
  import opened Wrappers
  import opened Arrays
  import opened Decimal
  import opened Date
  import opened Storage

  datatype Task = Task(key: string, title: string, estimated: string, finished: bool, date: Day)

  /** What a new task is made from: every field but the key. */
  datatype Draft = Draft(title: string, estimated: string, finished: bool, date: Day)

  /** Days loaded so far, by `DayToIndex`; a present key means "loaded", even with an empty list. */
  type Tasks = map<int, seq<Task>>

  function WithKey(d: Draft, key: string): Task {
    Task(key, d.title, d.estimated, d.finished, d.date)
  }

  /** The storage slots named by a set of day indices. */
  ghost function Slots(days: set<int>): set<string> {
    set d | d in days :: ToString(d)
  }

  lemma SlotsAdd(days: set<int>, d: int)
    ensures Slots(days + {d}) == Slots(days) + {ToString(d)}
  {
  }

  /** Every day of `tasks` is in storage, under the decimal text of its index, as its list. */
  ghost predicate Stored(items: map<string, seq<Task>>, tasks: Tasks) {
    forall d :: d in tasks ==> ToString(d) in items && items[ToString(d)] == tasks[d]
  }

  /** A day-slot name never starts with a letter, so it is never the "memories" or "schedules" slot. */
  lemma DaySlotIsNotNamedSlot(d: int)
    ensures ToString(d) != "memories" && ToString(d) != "schedules"
  {
    ToStringStartsWithDigitOrMinus(d);
  }

  /**
   * `saveTasks`: writes every day's list to its slot; the slots of days not in `tasks`
   * keep their contents. `days` is the order in which `for … in` visits the map's keys;
   * the final storage is the same for every such order.
   */
  method SaveTasks(store: LocalStorage<seq<Task>>, tasks: Tasks, days: seq<int>)
    requires forall d :: d in tasks <==> d in days
    modifies store
    ensures Stored(store.items, tasks)
    ensures store.items.Keys == old(store.items).Keys + Slots(tasks.Keys)
    ensures forall k :: k in old(store.items) && k !in Slots(tasks.Keys) ==> store.items[k] == old(store.items)[k]
  {
    var i := 0;
    while i < |days|
      invariant 0 <= i <= |days|
      invariant Flushed(store.items, old(store.items), tasks, days, i)
    {
      SaveStep(store.items, old(store.items), tasks, days, i);
      store.SetItem(ToString(days[i]), tasks[days[i]]);
      i := i + 1;
    }
    SaveDone(store.items, old(store.items), tasks, days);
  }

  /** The storage after the loop has written the first `i` visited days over `before`. */
  ghost predicate Flushed(items: map<string, seq<Task>>, before: map<string, seq<Task>>, tasks: Tasks, days: seq<int>, i: nat)
    requires i <= |days|
    requires forall d :: d in tasks <==> d in days
  {
    && (forall d :: d in days[..i] ==> ToString(d) in items && items[ToString(d)] == tasks[d])
    && items.Keys == before.Keys + Slots(Visited(days, i))
    && (forall k :: k in before && k !in Slots(tasks.Keys) ==> items[k] == before[k])
  }

  /** One pass of the loop: writing day `days[i]` extends what has been flushed by that day. */
  lemma SaveStep(items: map<string, seq<Task>>, before: map<string, seq<Task>>, tasks: Tasks, days: seq<int>, i: nat)
    requires i < |days|
    requires forall d :: d in tasks <==> d in days
    requires Flushed(items, before, tasks, days, i)
    ensures Flushed(items[ToString(days[i]) := tasks[days[i]]], before, tasks, days, i + 1)
  {
    var d := days[i];
    var after := items[ToString(d) := tasks[d]];
    OtherDaysOtherSlots(tasks, d);
    assert forall x :: x in days[..i + 1] ==> ToString(x) in after && after[ToString(x)] == tasks[x] by {
      assert days[..i + 1] == days[..i] + [d];
    }
    assert after.Keys == before.Keys + Slots(Visited(days, i + 1)) by {
      VisitedStep(days, i);
      SlotsAdd(Visited(days, i), d);
    }
    assert forall k :: k in before && k !in Slots(tasks.Keys) ==> after[k] == before[k] by {
      assert d in tasks.Keys;
      assert ToString(d) in Slots(tasks.Keys);
    }
  }

  /** Distinct days are written to distinct slots. */
  lemma OtherDaysOtherSlots(tasks: Tasks, d: int)
    ensures forall e :: e in tasks && e != d ==> ToString(e) != ToString(d)
  {
    forall e | e in tasks && e != d ensures ToString(e) != ToString(d) {
      ToStringInjective(e, d);
    }
  }

  /** After the last pass every day is flushed. */
  lemma SaveDone(items: map<string, seq<Task>>, before: map<string, seq<Task>>, tasks: Tasks, days: seq<int>)
    requires forall d :: d in tasks <==> d in days
    requires Flushed(items, before, tasks, days, |days|)
    ensures Stored(items, tasks)
    ensures items.Keys == before.Keys + Slots(tasks.Keys)
    ensures forall k :: k in before && k !in Slots(tasks.Keys) ==> items[k] == before[k]
  {
    assert days[..|days|] == days;
    assert Visited(days, |days|) == tasks.Keys by {
      forall d ensures d in Visited(days, |days|) <==> d in tasks {
        assert d in Visited(days, |days|) <==> d in days[..|days|];
      }
    }
  }

  /** The keys a `for … in` loop has visited after `i` steps. */
  ghost function Visited(days: seq<int>, i: nat): set<int>
    requires i <= |days|
  {
    set d | d in days[..i]
  }

  lemma VisitedStep(days: seq<int>, i: nat)
    requires i < |days|
    ensures Visited(days, i + 1) == Visited(days, i) + {days[i]}
  {
    assert days[..i + 1] == days[..i] + [days[i]];
  }

  /**
   * `loadTasks`: `None` (the source's `undefined`) when the day is already loaded;
   * otherwise the map extended with the day's stored list, or an empty list when its
   * slot is empty.
   */
  function LoadTasks(tasks: Tasks, date: Day, items: map<string, seq<Task>>): (r: Option<Tasks>)
    ensures r.None? <==> DayToIndex(date) in tasks
    ensures r.Some? ==> r.value.Keys == tasks.Keys + {DayToIndex(date)}
    ensures r.Some? ==> r.value[DayToIndex(date)] == GetOr(items, ToString(DayToIndex(date)), [])
    ensures r.Some? ==> forall d :: d in tasks ==> r.value[d] == tasks[d]
  {
    var day := DayToIndex(date);
    if day in tasks then None else Some(tasks[day := GetOr(items, ToString(day), [])])
  }

  /** `getTasks`: the day's list, or an empty list for a day not loaded; never "not loaded". */
  function GetTasks(tasks: Tasks, date: Day): (r: seq<Task>)
    ensures DayToIndex(date) in tasks ==> r == tasks[DayToIndex(date)]
    ensures DayToIndex(date) !in tasks ==> r == []
  {
    if DayToIndex(date) in tasks then tasks[DayToIndex(date)] else []
  }

  /** `createTask`: appends the draft, with the supplied key, to its date's list; other days are untouched. */
  function CreateTask(tasks: Tasks, draft: Draft, key: string): (r: Tasks)
    ensures r.Keys == tasks.Keys + {DayToIndex(draft.date)}
    ensures r[DayToIndex(draft.date)] == GetTasks(tasks, draft.date) + [WithKey(draft, key)]
    ensures forall d :: d in tasks && d != DayToIndex(draft.date) ==> r[d] == tasks[d]
  {
    var day := DayToIndex(draft.date);
    tasks[day := (if day in tasks then tasks[day] else []) + [WithKey(draft, key)]]
  }

  function KeyIsNot(key: string): Task -> bool {
    (t: Task) => t.key != key
  }

  /**
   * `deleteTask`: drops the tasks carrying `task`'s key from the list of `task`'s date.
   * `None` is the exception thrown when that day is not loaded.
   */
  function DeleteTask(tasks: Tasks, task: Task): (r: Option<Tasks>)
    ensures r.None? <==> DayToIndex(task.date) !in tasks
    ensures r.Some? ==> r.value.Keys == tasks.Keys
    ensures r.Some? ==> r.value[DayToIndex(task.date)] == Filter(tasks[DayToIndex(task.date)], KeyIsNot(task.key))
    ensures r.Some? ==> forall d :: d in tasks && d != DayToIndex(task.date) ==> r.value[d] == tasks[d]
  {
    var day := DayToIndex(task.date);
    if day !in tasks then None else Some(tasks[day := Filter(tasks[day], KeyIsNot(task.key))])
  }

  function HasTitle(): Task -> bool {
    (t: Task) => t.title != ""
  }

  /**
   * `updateTasks`: replaces the list of `date` with `list` minus its untitled tasks. The
   * tasks' own dates are not consulted.
   */
  function UpdateTasks(tasks: Tasks, list: seq<Task>, date: Day): (r: Tasks)
    ensures r.Keys == tasks.Keys + {DayToIndex(date)}
    ensures r[DayToIndex(date)] == Filter(list, HasTitle())
    ensures forall d :: d in tasks && d != DayToIndex(date) ==> r[d] == tasks[d]
  {
    tasks[DayToIndex(date) := Filter(list, HasTitle())]
  }

  /** After a delete, no task of that day carries the key, and every task with another key is still there. */
  lemma DeleteRemovesKey(tasks: Tasks, task: Task, t: Task)
    requires DayToIndex(task.date) in tasks
    ensures var after := GetTasks(DeleteTask(tasks, task).value, task.date);
      t in after <==> t in GetTasks(tasks, task.date) && t.key != task.key
  {
    FilterMembership(tasks[DayToIndex(task.date)], KeyIsNot(task.key), t);
  }

  /** After an update, the day holds exactly the titled tasks of the list. */
  lemma UpdateThenGet(tasks: Tasks, list: seq<Task>, date: Day, t: Task)
    ensures t in GetTasks(UpdateTasks(tasks, list, date), date) <==> t in list && t.title != ""
  {
    FilterMembership(list, HasTitle(), t);
  }

  /** Writing back what `getTasks` returns after an update changes nothing. */
  lemma UpdateIdempotent(tasks: Tasks, list: seq<Task>, date: Day)
    ensures var once := UpdateTasks(tasks, list, date);
      UpdateTasks(once, GetTasks(once, date), date) == once
  {
    FilterIdempotent(list, HasTitle());
  }

  /** Loading a day from storage that a flush wrote yields the list that was flushed. */
  lemma LoadAfterSave(saved: Tasks, items: map<string, seq<Task>>, tasks: Tasks, date: Day)
    requires Stored(items, saved) && DayToIndex(date) in saved && DayToIndex(date) !in tasks
    ensures LoadTasks(tasks, date, items).Some?
    ensures GetTasks(LoadTasks(tasks, date, items).value, date) == GetTasks(saved, date)
  {
  }

  /** A second load of the same day is refused, so the first load's list is never replaced. */
  lemma LoadTwice(tasks: Tasks, date: Day, items: map<string, seq<Task>>)
    requires LoadTasks(tasks, date, items).Some?
    ensures LoadTasks(LoadTasks(tasks, date, items).value, date, items).None?
  {
  }

  /** A task created, flushed and reloaded into an empty map is the one task of its day. */
  lemma CreateSaveLoad(draft: Draft, key: string, items: map<string, seq<Task>>)
    requires Stored(items, CreateTask(map[], draft, key))
    ensures LoadTasks(map[], draft.date, items) == Some(map[DayToIndex(draft.date) := [WithKey(draft, key)]])
  {
    var day := DayToIndex(draft.date);
    assert day in CreateTask(map[], draft, key);
    assert GetTasks(map[], draft.date) + [WithKey(draft, key)] == [WithKey(draft, key)];
    assert GetOr(items, ToString(day), []) == [WithKey(draft, key)];
  }

  /** Because the index collides, a task created for December 31, 2024 is also listed on January 6, 2025. */
  lemma CreateShowsOnCollidingDay(tasks: Tasks, draft: Draft, key: string)
    requires draft.date == Day(2024, 12, 31)
    ensures GetTasks(CreateTask(tasks, draft, key), Day(2025, 1, 6)) == GetTasks(tasks, Day(2025, 1, 6)) + [WithKey(draft, key)]
  {
  }

  predicate KeysUnique(list: seq<Task>) {
    forall i, j :: 0 <= i < j < |list| ==> list[i].key != list[j].key
  }

  /** Within every loaded day, no two tasks share a key. */
  predicate AllKeysUnique(tasks: Tasks) {
    forall d :: d in tasks ==> KeysUnique(tasks[d])
  }

  /** `key` is carried by no task of any loaded day, as a fresh random UUID is. */
  predicate Fresh(tasks: Tasks, key: string) {
    forall d, i :: d in tasks && 0 <= i < |tasks[d]| ==> tasks[d][i].key != key
  }

  /** Creating with a fresh key keeps keys unique within each day. */
  lemma CreateKeepsKeysUnique(tasks: Tasks, draft: Draft, key: string)
    requires AllKeysUnique(tasks) && Fresh(tasks, key)
    ensures AllKeysUnique(CreateTask(tasks, draft, key))
  {
    var r := CreateTask(tasks, draft, key);
    var day := DayToIndex(draft.date);
    var list := r[day];
    forall i, j | 0 <= i < j < |list| ensures list[i].key != list[j].key {
      if j == |list| - 1 && day in tasks {
        assert list[i] == tasks[day][i];
      }
    }
  }
}
