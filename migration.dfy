/**
 * Schema migration of stored task records: a list of steps, step `i` taking a record
 * at version `i` to version `i + 1`, of which a record runs those from its own version
 * on (`migrations.slice(version).reduce(...)`).
 */
module Migration {
  import opened Wrappers
  import opened Arrays
  import opened DateTime
  import opened Tasks

  /** A task's `time` field as stored: missing, `null`, or a time. */
  datatype TimeField = Absent | Null | Present(time: Time)

  /** A task record as read back from storage, with the fields the migrations handle. */
  datatype Record = Record(task: Task, time: TimeField, version: Option<int>)

  /** `task.version ?? 0` */
  function VersionOf(r: Record): int {
    r.version.GetOr(0)
  }

  /** `{ ...task, time: null, version: 1 }` */
  function MigrateFrom0To1(r: Record): (m: Record)
    ensures m.task == r.task && m.time == Null && m.version == Some(1)
  {
    r.(time := Null, version := Some(1))
  }

  /** The step list; its length is the current schema version. */
  function Migrations(): (steps: seq<Record -> Record>)
    ensures |steps| == 1
  {
    [MigrateFrom0To1]
  }

  /**
   * `s.slice(start)`: a negative start counts from the end (and stops at the front),
   * a start past the end gives an empty list.
   */
  function Slice<T>(s: seq<T>, start: int): (r: seq<T>)
    ensures start >= |s| ==> r == []
    ensures 0 <= start <= |s| ==> r == s[start..]
    ensures start < 0 ==> r == s[if |s| + start < 0 then 0 else |s| + start..]
  {
    if start >= |s| then []
    else if start >= 0 then s[start..]
    else if |s| + start < 0 then s
    else s[|s| + start..]
  }

  /** `steps.reduce((r, step) => step(r), r)`: the steps applied left to right. */
  function Fold(steps: seq<Record -> Record>, r: Record): Record
    decreases |steps|
  {
    if steps == [] then r else Fold(steps[1..], steps[0](r))
  }

  /** `migrations.slice(version).reduce(...)` for an arbitrary step list. */
  function Run(steps: seq<Record -> Record>, r: Record): (m: Record)
    ensures VersionOf(r) >= |steps| ==> m == r
  {
    Fold(Slice(steps, VersionOf(r)), r)
  }

  /** `migrateTask` */
  function MigrateTask(r: Record): (m: Record)
    ensures m.task == r.task && VersionOf(m) >= 1
  {
    var steps := Migrations();
    if VersionOf(r) < 1 then
      assert Slice(steps, VersionOf(r)) == steps;
      assert steps[1..] == [];
      Run(steps, r)
    else
      Run(steps, r)
  }

  /** `migrate`: every record migrated on its own, in place in the list. */
  function Migrate(records: seq<Record>): (r: seq<Record>)
    ensures |r| == |records|
    ensures forall i :: 0 <= i < |records| ==> r[i] == MigrateTask(records[i])
  {
    Map(records, MigrateTask)
  }

  /** Step `i` takes every record of version `i` to version `i + 1`. */
  ghost predicate Advances(steps: seq<Record -> Record>) {
    forall i, r :: 0 <= i < |steps| && VersionOf(r) == i ==> steps[i](r).version == Some(i + 1)
  }

  lemma {:induction false} FoldReachesLast(steps: seq<Record -> Record>, i: nat, r: Record)
    requires Advances(steps) && i <= |steps| && VersionOf(r) == i
    ensures VersionOf(Fold(steps[i..], r)) == |steps|
    decreases |steps| - i
  {
    if i < |steps| {
      assert steps[i..][1..] == steps[i + 1..];
      FoldReachesLast(steps, i + 1, steps[i](r));
    }
  }

  /** A record whose version is within the chain ends at the last version. */
  lemma RunReachesLast(steps: seq<Record -> Record>, r: Record)
    requires Advances(steps) && 0 <= VersionOf(r) <= |steps|
    ensures VersionOf(Run(steps, r)) == |steps|
  {
    FoldReachesLast(steps, VersionOf(r), r);
  }

  /** Running the chain again after it reached the last version changes nothing. */
  lemma RunIdempotent(steps: seq<Record -> Record>, r: Record)
    requires Advances(steps) && 0 <= VersionOf(r) <= |steps|
    ensures Run(steps, Run(steps, r)) == Run(steps, r)
  {
    RunReachesLast(steps, r);
  }

  lemma MigrationsAdvance()
    ensures Advances(Migrations())
  {
  }

  /**
   * A record below version 1 (missing, `null`, zero or negative) gets exactly the one step;
   * a record at version 1 or above, even an unknown future one, is returned as it is.
   */
  lemma MigrateTaskCases(r: Record)
    ensures VersionOf(r) >= 1 ==> MigrateTask(r) == r
    ensures VersionOf(r) < 1 ==> MigrateTask(r) == r.(time := Null, version := Some(1))
  {
    var steps := Migrations();
    if VersionOf(r) < 1 {
      assert Slice(steps, VersionOf(r)) == steps;
      assert steps[1..] == [];
    }
  }

  /** Migrating a migrated record changes nothing, whatever its version. */
  lemma MigrateTaskIdempotent(r: Record)
    ensures MigrateTask(MigrateTask(r)) == MigrateTask(r)
  {
    MigrateTaskCases(r);
    MigrateTaskCases(MigrateTask(r));
  }

  /** Migrating a migrated list changes nothing. */
  lemma MigrateIdempotent(records: seq<Record>)
    ensures Migrate(Migrate(records)) == Migrate(records)
  {
    forall i | 0 <= i < |records| ensures Migrate(Migrate(records))[i] == Migrate(records)[i] {
      MigrateTaskIdempotent(records[i]);
    }
  }
}
