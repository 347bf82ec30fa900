/**
 * The list logic of the weekly timetable: the 6-period by 7-weekday grid built from the
 * schedule list, the change a cell hands back when a schedule is saved or removed, the
 * editor's title guard, and the suggestion lists for titles and locations.
 */
module ScheduleTable {
  import opened Wrappers
  import opened Arrays
  import opened ArraySort
  import opened Schedules

  const Periods := 6
  const Weekdays := 7

  /**
   * What the cell at `(day, period)` shows: the last schedule in list order with that
   * time, or nothing.
   */
  function CellAt(schedules: seq<Schedule>, day: int, period: int): (r: Option<Schedule>)
    ensures r.None? <==> forall i :: 0 <= i < |schedules| ==> schedules[i].time != (day, period)
    ensures r.Some? ==> r.value in schedules && r.value.time == (day, period)
  {
    if schedules == [] then None
    else
      var last := schedules[|schedules| - 1];
      if last.time == (day, period) then Some(last) else CellAt(schedules[..|schedules| - 1], day, period)
  }

  /** No schedule after index `i` has the time `(day, period)`. */
  predicate NoneLaterAt(schedules: seq<Schedule>, day: int, period: int, i: nat) {
    forall j :: i < j < |schedules| ==> schedules[j].time != (day, period)
  }

  /** When several schedules share a time, the cell shows the last of them. */
  lemma {:induction false} LastWins(schedules: seq<Schedule>, i: nat)
    requires i < |schedules| && NoneLaterAt(schedules, schedules[i].time.0, schedules[i].time.1, i)
    ensures CellAt(schedules, schedules[i].time.0, schedules[i].time.1) == Some(schedules[i])
    decreases |schedules|
  {
    if i < |schedules| - 1 {
      var init := schedules[..|schedules| - 1];
      assert init[i] == schedules[i];
      LastWins(init, i);
    }
  }

  /** With one schedule per time, every schedule is shown in its own cell. */
  lemma EachShownInItsCell(schedules: seq<Schedule>, i: nat)
    requires UniqueTimes(schedules) && i < |schedules|
    ensures CellAt(schedules, schedules[i].time.0, schedules[i].time.1) == Some(schedules[i])
  {
    LastWins(schedules, i);
  }

  /**
   * `tabledSchedules`: six rows of seven empty cells, then each schedule written at
   * `[period][day]` in list order. A period outside 0..5 has no row, and writing into it
   * throws; `ok` is false exactly then. A day outside 0..6 lies outside the 42 cells.
   */
  method BuildGrid(schedules: seq<Schedule>) returns (grid: array2<Option<Schedule>>, ok: bool)
    ensures fresh(grid) && grid.Length0 == Periods && grid.Length1 == Weekdays
    ensures ok <==> forall i :: 0 <= i < |schedules| ==> 0 <= schedules[i].time.1 < Periods
    ensures ok ==> forall p, d :: 0 <= p < Periods && 0 <= d < Weekdays ==> grid[p, d] == CellAt(schedules, d, p)
  {
    grid := new Option<Schedule>[Periods, Weekdays]((p, d) => None);
    var i := 0;
    while i < |schedules|
      invariant 0 <= i <= |schedules|
      invariant forall k :: 0 <= k < i ==> 0 <= schedules[k].time.1 < Periods
      invariant forall p, d :: 0 <= p < Periods && 0 <= d < Weekdays ==> grid[p, d] == CellAt(schedules[..i], d, p)
    {
      var (day, period) := schedules[i].time;
      if !(0 <= period < Periods) {
        return grid, false;
      }
      assert schedules[..i + 1][..i] == schedules[..i];
      if 0 <= day < Weekdays {
        grid[period, day] := Some(schedules[i]);
      }
      i := i + 1;
    }
    assert schedules[..i] == schedules;
    return grid, true;
  }

  /** A schedule appended at the end decides its own cell and no other. */
  lemma CellAtAppend(schedules: seq<Schedule>, x: Schedule, day: int, period: int)
    ensures CellAt(schedules + [x], day, period) == if x.time == (day, period) then Some(x) else CellAt(schedules, day, period)
  {
    assert (schedules + [x])[..|schedules|] == schedules;
  }

  /** Removing every schedule at one time leaves every other cell showing what it showed. */
  lemma {:induction false} DeleteKeepsOtherCells(schedules: seq<Schedule>, schedule: Schedule, day: int, period: int)
    requires schedule.time != (day, period)
    ensures CellAt(DeleteSchedule(schedules, schedule), day, period) == CellAt(schedules, day, period)
    decreases |schedules|
  {
    if schedules != [] {
      var init, last := schedules[..|schedules| - 1], schedules[|schedules| - 1];
      var keep := OtherSlot(schedule.time);
      DeleteKeepsOtherCells(init, schedule, day, period);
      var kept := Filter(init, keep);
      assert CellAt(kept, day, period) == CellAt(init, day, period);
      assert CellAt(schedules, day, period) == if last.time == (day, period) then Some(last) else CellAt(init, day, period);
      if keep(last) {
        assert DeleteSchedule(schedules, schedule) == kept + [last];
        CellAtAppend(kept, last, day, period);
      } else {
        assert DeleteSchedule(schedules, schedule) == kept;
      }
    }
  }

  /**
   * A cell's `onChange`: a new schedule is upserted at its time; a removal deletes the
   * schedule the cell shows, and from an empty cell hands back nothing.
   */
  function OnCellChange(schedules: seq<Schedule>, cell: Option<Schedule>, newSchedule: Option<Schedule>): (r: Option<seq<Schedule>>)
    ensures r.None? <==> newSchedule.None? && cell.None?
  {
    if newSchedule.Some? then Some(UpdateSchedule(schedules, newSchedule.value))
    else if cell.Some? then Some(DeleteSchedule(schedules, cell.value))
    else None
  }

  /**
   * After a cell's change the cell shows exactly what the editor handed over (the saved
   * schedule, or nothing after a removal) and every other cell is as it was.
   */
  lemma CellShowsChange(schedules: seq<Schedule>, day: int, period: int, newSchedule: Option<Schedule>, d: int, p: int)
    requires newSchedule.Some? ==> newSchedule.value.time == (day, period)
    ensures var after := OnCellChange(schedules, CellAt(schedules, day, period), newSchedule).GetOr(schedules);
      && CellAt(after, day, period) == newSchedule
      && ((d, p) != (day, period) ==> CellAt(after, d, p) == CellAt(schedules, d, p))
  {
    var cell := CellAt(schedules, day, period);
    if newSchedule.Some? {
      var n := newSchedule.value;
      var deleted := DeleteSchedule(schedules, n);
      assert (deleted + [n])[..|deleted|] == deleted;
      if (d, p) != (day, period) {
        DeleteKeepsOtherCells(schedules, n, d, p);
      }
    } else if cell.Some? {
      if (d, p) != (day, period) {
        DeleteKeepsOtherCells(schedules, cell.value, d, p);
      }
    }
  }

  /** The state of one cell's editing dialog. */
  class CellEditor {
    var editing: bool
    var title: string
    var location: string

    constructor ()
      ensures !editing && title == "" && location == ""
    {
      editing, title, location := false, "", "";
    }

    /** `startEditing`: opens the dialog on the cell's schedule, or on empty fields for an empty cell. */
    method StartEditing(schedule: Option<Schedule>)
      modifies this
      ensures editing
      ensures schedule.Some? ==> title == schedule.value.title && location == schedule.value.location
      ensures schedule.None? ==> title == "" && location == ""
    {
      editing := true;
      title := if schedule.Some? then schedule.value.title else "";
      location := if schedule.Some? then schedule.value.location else "";
    }

    /**
     * `save`: with a title, closes the dialog and hands over the schedule at the cell's
     * time; without one, hands over nothing and the dialog stays as it is.
     */
    method Save(time: (int, int)) returns (emitted: Option<Schedule>)
      modifies this
      ensures title == old(title) && location == old(location)
      ensures emitted.Some? <==> title != ""
      ensures emitted.Some? ==> emitted.value == Schedule(title, location, time) && !editing
      ensures emitted.None? ==> editing == old(editing)
    {
      if title != "" {
        editing := false;
        return Some(Schedule(title, location, time));
      }
      return None;
    }

    /** `cancel`: closes the dialog and hands over nothing. */
    method Cancel()
      modifies this
      ensures !editing && title == old(title) && location == old(location)
    {
      editing := false;
    }

    /** `remove`: closes the dialog; it hands over `undefined`, which `OnCellChange` reads as a removal. */
    method Remove() returns (emitted: Option<Schedule>)
      modifies this
      ensures emitted.None? && !editing && title == old(title) && location == old(location)
    {
      editing := false;
      return None;
    }
  }

  function Title(s: Schedule): string {
    s.title
  }

  function Location(s: Schedule): string {
    s.location
  }

  function HasTitle(title: string): Schedule -> bool {
    (s: Schedule) => s.title == title
  }

  /** `titleOptions`: the set of titles, then sorted. */
  function TitleOptions(schedules: seq<Schedule>): (r: seq<string>)
    ensures NoDuplicates(r)
  {
    var d := Distinct(Map(schedules, Title));
    SortedPermutes(d, CompareStrings);
    PermutationKeepsNoDuplicates(d, Sorted(d, CompareStrings));
    Sorted(d, CompareStrings)
  }

  /** `locationOptions`: the locations of the schedules titled `title`, sorted, then made a set. */
  function LocationOptions(schedules: seq<Schedule>, title: string): (r: seq<string>)
    ensures NoDuplicates(r)
  {
    Distinct(Sorted(Map(Filter(schedules, HasTitle(title)), Location), CompareStrings))
  }

  /** Every element of a list comes strictly before each later one. */
  predicate Ascending(s: seq<string>) {
    forall i, j :: 0 <= i < j < |s| ==> CompareStrings(s[i], s[j]) < 0
  }

  /** The title suggestions are the titles in use, each once, in ascending order. */
  lemma TitleOptionsSpec(schedules: seq<Schedule>, x: string)
    ensures var r := TitleOptions(schedules);
      && (x in r <==> exists i :: 0 <= i < |schedules| && schedules[i].title == x)
      && NoDuplicates(r) && Ascending(r)
  {
    var titles := Map(schedules, Title);
    var d := Distinct(titles);
    var r := TitleOptions(schedules);
    SortedPermutes(d, CompareStrings);
    assert x in r <==> x in multiset(d);
    DistinctMembership(titles, x);
    if x in titles {
      var i :| 0 <= i < |titles| && titles[i] == x;
      assert schedules[i].title == x;
    }
    PermutationKeepsNoDuplicates(d, r);
    CompareStringsConsistent();
    SortedIsOrdered(d, CompareStrings);
    forall i, j | 0 <= i < j < |r| ensures CompareStrings(r[i], r[j]) < 0 {
      CompareStringsZero(r[i], r[j]);
    }
  }

  /** The location suggestions are the locations used with `title`, each once, in ascending order. */
  lemma LocationOptionsSpec(schedules: seq<Schedule>, title: string, x: string)
    ensures var r := LocationOptions(schedules, title);
      && (x in r <==> exists i :: 0 <= i < |schedules| && schedules[i].title == title && schedules[i].location == x)
      && NoDuplicates(r) && Ascending(r)
  {
    LocationOptionsMembership(schedules, title, x);
    LocationOptionsAscending(schedules, title);
  }

  lemma LocationOptionsMembership(schedules: seq<Schedule>, title: string, x: string)
    ensures x in LocationOptions(schedules, title) <==>
      exists i :: 0 <= i < |schedules| && schedules[i].title == title && schedules[i].location == x
  {
    var locations := Map(Filter(schedules, HasTitle(title)), Location);
    DistinctMembership(Sorted(locations, CompareStrings), x);
    SortedPermutes(locations, CompareStrings);
    assert x in Sorted(locations, CompareStrings) <==> x in multiset(locations);
    LocationsOfTitled(schedules, title, x);
  }

  /** The locations of the schedules titled `title` are the ones some schedule with that title has. */
  lemma LocationsOfTitled(schedules: seq<Schedule>, title: string, x: string)
    ensures x in Map(Filter(schedules, HasTitle(title)), Location) <==>
      exists i :: 0 <= i < |schedules| && schedules[i].title == title && schedules[i].location == x
  {
    if x in Map(Filter(schedules, HasTitle(title)), Location) {
      var i := TitledLocationHasSchedule(schedules, title, x);
    }
    if exists i :: 0 <= i < |schedules| && schedules[i].title == title && schedules[i].location == x {
      var i :| 0 <= i < |schedules| && schedules[i].title == title && schedules[i].location == x;
      ScheduleLocationIsTitled(schedules, title, i);
    }
  }

  /** A location of a titled schedule comes from a schedule in the list. */
  lemma TitledLocationHasSchedule(schedules: seq<Schedule>, title: string, x: string) returns (j: nat)
    requires x in Map(Filter(schedules, HasTitle(title)), Location)
    ensures j < |schedules| && schedules[j].title == title && schedules[j].location == x
  {
    var titled := Filter(schedules, HasTitle(title));
    var locations := Map(titled, Location);
    var i :| 0 <= i < |locations| && locations[i] == x;
    var t := titled[i];
    assert t.location == x;
    FilterMembership(schedules, HasTitle(title), t);
    assert t in schedules && t.title == title;
    j :| 0 <= j < |schedules| && schedules[j] == t;
  }

  /** The location of a schedule with the title is among the titled locations. */
  lemma ScheduleLocationIsTitled(schedules: seq<Schedule>, title: string, i: nat)
    requires i < |schedules| && schedules[i].title == title
    ensures schedules[i].location in Map(Filter(schedules, HasTitle(title)), Location)
  {
    var titled := Filter(schedules, HasTitle(title));
    var locations := Map(titled, Location);
    FilterMembership(schedules, HasTitle(title), schedules[i]);
    var k :| 0 <= k < |titled| && titled[k] == schedules[i];
    assert locations[k] == schedules[i].location;
  }

  lemma LocationOptionsAscending(schedules: seq<Schedule>, title: string)
    ensures Ascending(LocationOptions(schedules, title))
  {
    var sorted := Sorted(Map(Filter(schedules, HasTitle(title)), Location), CompareStrings);
    var r := Distinct(sorted);
    CompareStringsConsistent();
    SortedIsOrdered(Map(Filter(schedules, HasTitle(title)), Location), CompareStrings);
    var notAfter := (a: string, b: string) => CompareStrings(a, b) <= 0;
    DistinctKeepsOrder(sorted, notAfter);
    forall i, j | 0 <= i < j < |r| ensures CompareStrings(r[i], r[j]) < 0 {
      assert notAfter(r[i], r[j]);
      CompareStringsZero(r[i], r[j]);
    }
  }
}
