/**
 * The weekly timetable: a list of entries, each at a (weekday, period) coordinate, with
 * delete-by-coordinate and upsert-by-coordinate, stored whole in the "schedules" slot.
 */
module Schedules {
  import opened Arrays
  import opened Storage

  /** `time` is `[weekday, period]`: `(2, 4)` is the fifth period on Wednesday. */
  datatype Schedule = Schedule(title: string, location: string, time: (int, int))

  /** Entries at a coordinate other than `time`, compared component by component. */
  function OtherSlot(time: (int, int)): Schedule -> bool {
    (s: Schedule) => s.time.0 != time.0 || s.time.1 != time.1
  }

  /** `deleteSchedule`: keeps, in order, the entries at other coordinates; title and location are ignored. */
  function DeleteSchedule(schedules: seq<Schedule>, schedule: Schedule): (r: seq<Schedule>)
    ensures forall i :: 0 <= i < |r| ==> r[i].time != schedule.time
  {
    Filter(schedules, OtherSlot(schedule.time))
  }

  /** `updateSchedule`: the entries at other coordinates, then the new entry. */
  function UpdateSchedule(schedules: seq<Schedule>, schedule: Schedule): (r: seq<Schedule>)
    ensures |r| >= 1 && r[|r| - 1] == schedule
    ensures forall i :: 0 <= i < |r| - 1 ==> r[i].time != schedule.time
  {
    DeleteSchedule(schedules, schedule) + [schedule]
  }

  /** No two entries share a coordinate. */
  predicate UniqueTimes(schedules: seq<Schedule>) {
    forall i, j :: 0 <= i < j < |schedules| ==> schedules[i].time != schedules[j].time
  }

  /** An entry survives a delete exactly when it was there and sits at another coordinate. */
  lemma DeleteScheduleMembership(schedules: seq<Schedule>, schedule: Schedule, s: Schedule)
    ensures s in DeleteSchedule(schedules, schedule) <==> s in schedules && s.time != schedule.time
  {
    FilterMembership(schedules, OtherSlot(schedule.time), s);
  }

  /** Deleting at a coordinate no entry occupies changes nothing. */
  lemma DeleteScheduleNoop(schedules: seq<Schedule>, schedule: Schedule)
    requires forall i :: 0 <= i < |schedules| ==> schedules[i].time != schedule.time
    ensures DeleteSchedule(schedules, schedule) == schedules
  {
    FilterKeepsAll(schedules, OtherSlot(schedule.time));
  }

  lemma {:induction false} FilterKeepsUnique(s: seq<Schedule>, p: Schedule -> bool)
    requires UniqueTimes(s)
    ensures UniqueTimes(Filter(s, p))
    decreases |s|
  {
    if s != [] {
      var init, last := s[..|s| - 1], s[|s| - 1];
      FilterKeepsUnique(init, p);
      if p(last) {
        var f := Filter(init, p);
        forall i | 0 <= i < |f| ensures f[i].time != last.time {
          FilterMembership(init, p, f[i]);
          var k :| 0 <= k < |init| && init[k] == f[i];
        }
      }
    }
  }

  /** An upsert keeps "one entry per coordinate". */
  lemma UpdateKeepsUnique(schedules: seq<Schedule>, schedule: Schedule)
    requires UniqueTimes(schedules)
    ensures UniqueTimes(UpdateSchedule(schedules, schedule))
  {
    FilterKeepsUnique(schedules, OtherSlot(schedule.time));
  }

  /** Entries at other coordinates are untouched by an upsert and keep their relative order. */
  lemma UpdateKeepsOthers(schedules: seq<Schedule>, schedule: Schedule)
    ensures Filter(UpdateSchedule(schedules, schedule), OtherSlot(schedule.time))
         == Filter(schedules, OtherSlot(schedule.time))
  {
    var p := OtherSlot(schedule.time);
    FilterAppend(Filter(schedules, p), [schedule], p);
    FilterIdempotent(schedules, p);
    FilterSingle(schedule, p);
  }

  /** Two upserts at one coordinate leave the same list as the second one alone: one entry, the latest. */
  lemma UpdateTwice(schedules: seq<Schedule>, first: Schedule, second: Schedule)
    requires first.time == second.time
    ensures UpdateSchedule(UpdateSchedule(schedules, first), second) == UpdateSchedule(schedules, second)
  {
    UpdateKeepsOthers(schedules, first);
  }

  /** `saveSchedules`: writes the whole list to the "schedules" slot and nothing else. */
  method SaveSchedules(store: LocalStorage<seq<Schedule>>, schedules: seq<Schedule>)
    modifies store
    ensures store.items == old(store.items)["schedules" := schedules]
  {
    store.SetItem("schedules", schedules);
  }

  /** `loadSchedules`: the "schedules" slot, or an empty list when it is missing. */
  function LoadSchedules(items: map<string, seq<Schedule>>): (r: seq<Schedule>)
    ensures "schedules" !in items ==> r == []
  {
    GetOr(items, "schedules", [])
  }

  /** Loading after a save returns the saved list. */
  lemma LoadSchedulesAfterSave(items: map<string, seq<Schedule>>, schedules: seq<Schedule>)
    ensures LoadSchedules(items["schedules" := schedules]) == schedules
  {
  }
}
