/**
 * The list logic of the task table: unfinished tasks shown first, which task is being
 * edited, and the lists the table hands back to its owner when a task is edited,
 * cancelled, ticked or deleted.
 */
module TaskTable {
  import opened Wrappers
  import opened Arrays
  import opened ArraySort
  import opened Tasks

  /** `finished ? 1 : 0` */
  function Rank(t: Task): int {
    if t.finished then 1 else 0
  }

  /** The table's comparator: `(a.finished ? 1 : 0) - (b.finished ? 1 : 0)`. */
  function ByFinished(a: Task, b: Task): int {
    Rank(a) - Rank(b)
  }

  function Unfinished(): Task -> bool {
    (t: Task) => !t.finished
  }

  function IsFinished(): Task -> bool {
    (t: Task) => t.finished
  }

  /** The comparator is one the sort can rely on. */
  lemma ByFinishedConsistent()
    ensures Consistent(ByFinished)
  {
  }

  lemma {:induction false} InsertUnfinished(x: Task, u: seq<Task>, f: seq<Task>)
    requires !x.finished
    requires forall k :: 0 <= k < |u| ==> !u[k].finished
    requires forall k :: 0 <= k < |f| ==> f[k].finished
    ensures InsertPos(x, u + f, ByFinished) == |u|
    decreases |f|
  {
    var t := u + f;
    if f == [] {
      assert t == u;
    } else {
      assert t[..|t| - 1] == u + f[..|f| - 1];
      InsertUnfinished(x, u, f[..|f| - 1]);
    }
  }

  /** Inserting into "unfinished, then finished" puts an unfinished task between the groups, a finished one at the end. */
  lemma InsertIntoGroups(x: Task, u: seq<Task>, f: seq<Task>)
    requires forall k :: 0 <= k < |u| ==> !u[k].finished
    requires forall k :: 0 <= k < |f| ==> f[k].finished
    ensures Insert(x, u + f, ByFinished) == if x.finished then u + f + [x] else u + [x] + f
  {
    var t := u + f;
    if x.finished {
      assert InsertPos(x, t, ByFinished) == |t|;
      assert t[..|t|] == t;
    } else {
      InsertUnfinished(x, u, f);
      assert t[..|u|] == u && t[|u|..] == f;
    }
  }

  /**
   * Sorting with the table's comparator puts the unfinished tasks first and the finished
   * ones after them, each group in its original order.
   */
  lemma {:induction false} DisplayOrder(s: seq<Task>)
    ensures Sorted(s, ByFinished) == Filter(s, Unfinished()) + Filter(s, IsFinished())
    decreases |s|
  {
    if s != [] {
      var init, last := s[..|s| - 1], s[|s| - 1];
      var u, f := Filter(init, Unfinished()), Filter(init, IsFinished());
      DisplayOrder(init);
      assert Sorted(s, ByFinished) == Insert(last, u + f, ByFinished);
      InsertIntoGroups(last, u, f);
      if last.finished {
        assert Filter(s, Unfinished()) == u;
        assert Filter(s, IsFinished()) == f + [last];
        assert u + f + [last] == u + (f + [last]);
      } else {
        assert Filter(s, Unfinished()) == u + [last];
        assert Filter(s, IsFinished()) == f;
      }
    }
  }

  /** `tasks.sort(...)` at the top of the table: in place on the list the table was given. */
  method SortForDisplay(a: array<Task>)
    modifies a
    ensures a[..] == Filter(old(a[..]), Unfinished()) + Filter(old(a[..]), IsFinished())
  {
    Sort(a, ByFinished);
    DisplayOrder(old(a[..]));
  }

  function Untitled(): Task -> bool {
    (t: Task) => t.title == ""
  }

  /** The task being edited: the first untitled task if there is one, else the one chosen with Edit. */
  function EditingKey(tasks: seq<Task>, innerEditing: Option<string>): (r: Option<string>)
    ensures forall i :: 0 <= i < |tasks| && tasks[i].title == "" && NoneUntitledBefore(tasks, i) ==> r == Some(tasks[i].key)
    ensures NoneUntitledBefore(tasks, |tasks|) ==> r == innerEditing
  {
    match FirstIndex(tasks, Untitled())
    case Some(i) => Some(tasks[i].key)
    case None => innerEditing
  }

  /** No task before index `n` is untitled. */
  predicate NoneUntitledBefore(tasks: seq<Task>, n: nat)
    requires n <= |tasks|
  {
    forall k :: 0 <= k < n ==> tasks[k].title != ""
  }

  /** Selects the task whose key equals the editing key; `undefined` selects nothing. */
  function KeyIs(editing: Option<string>): Task -> bool {
    (t: Task) => editing == Some(t.key)
  }

  /**
   * `modify(tasks, modifier)` with a modifier that walks the copy and rewrites each task
   * `matches` selects with `change`. The modifier returns nothing, so the copy is the result.
   */
  method ModifyEach(tasks: seq<Task>, matches: Task -> bool, change: Task -> Task) returns (r: seq<Task>)
    ensures |r| == |tasks|
    ensures forall i :: 0 <= i < |tasks| ==> r[i] == if matches(tasks[i]) then change(tasks[i]) else tasks[i]
  {
    var cloned := new Task[|tasks|](i requires 0 <= i < |tasks| => tasks[i]);
    var i := 0;
    while i < cloned.Length
      invariant 0 <= i <= cloned.Length
      invariant forall k :: 0 <= k < i ==> cloned[k] == if matches(tasks[k]) then change(tasks[k]) else tasks[k]
      invariant forall k :: i <= k < cloned.Length ==> cloned[k] == tasks[k]
    {
      if matches(cloned[i]) {
        cloned[i] := change(cloned[i]);
      }
      i := i + 1;
    }
    r := cloned[..];
  }

  /**
   * The checkbox `onChange`: a copy of the list in which the task with `key` has its
   * `finished` set to `checked`; every other task and field is as it was.
   */
  method ToggleFinished(tasks: seq<Task>, key: string, checked: bool) returns (r: seq<Task>)
    ensures |r| == |tasks|
    ensures forall i :: 0 <= i < |tasks| ==>
      r[i] == (if tasks[i].key == key then tasks[i].(finished := checked) else tasks[i])
  {
    r := ModifyEach(tasks, KeyIs(Some(key)), (t: Task) => t.(finished := checked));
  }

  /** `handleDelete`: while an edit is open nothing is emitted; otherwise the list without `key`. */
  function HandleDelete(tasks: seq<Task>, editing: Option<string>, key: string): (r: Option<seq<Task>>)
    ensures r.None? <==> Truthy(editing)
    ensures r.Some? ==> forall i :: 0 <= i < |r.value| ==> r.value[i].key != key
  {
    if Truthy(editing) then None else Some(Filter(tasks, KeyIsNot(key)))
  }

  /** A delete emits exactly the tasks with another key, in their order. */
  lemma HandleDeleteKeepsOthers(tasks: seq<Task>, key: string, t: Task)
    ensures var r := HandleDelete(tasks, None, key);
      r.Some? && (t in r.value <==> t in tasks && t.key != key)
  {
    FilterMembership(tasks, KeyIsNot(key), t);
  }

  /** The table's own editing state. */
  class TaskEditor {
    var innerEditing: Option<string>
    var editTitle: string
    var editEstimated: string

    constructor ()
      ensures innerEditing == None && editTitle == "" && editEstimated == ""
    {
      innerEditing, editTitle, editEstimated := None, "", "";
    }

    /**
     * The `editing` memo: scans the tasks for the first untitled one, clearing the title
     * being typed when it finds one.
     */
    method Editing(tasks: seq<Task>) returns (editing: Option<string>)
      modifies this
      ensures editing == EditingKey(tasks, innerEditing)
      ensures innerEditing == old(innerEditing) && editEstimated == old(editEstimated)
      ensures editTitle == if FirstIndex(tasks, Untitled()).Some? then "" else old(editTitle)
    {
      var i := 0;
      while i < |tasks|
        invariant 0 <= i <= |tasks|
        invariant forall k :: 0 <= k < i ==> tasks[k].title != ""
      {
        if tasks[i].title == "" {
          editTitle := "";
          assert FirstIndex(tasks, Untitled()) == Some(i) by {
            FirstIndexIs(tasks, Untitled(), i);
          }
          return Some(tasks[i].key);
        }
        i := i + 1;
      }
      return innerEditing;
    }

    /**
     * `handleOk`: closes the edit and emits a copy of the list in which the task being
     * edited carries the typed title and estimate; every other task and field is as it was.
     */
    method HandleOk(tasks: seq<Task>, editing: Option<string>) returns (emitted: seq<Task>)
      modifies this
      ensures innerEditing == None && editTitle == "" && editEstimated == ""
      ensures |emitted| == |tasks|
      ensures forall i :: 0 <= i < |tasks| ==>
        emitted[i] == (if Some(tasks[i].key) == editing
                       then tasks[i].(title := old(editTitle), estimated := old(editEstimated))
                       else tasks[i])
    {
      var title, estimated := editTitle, editEstimated;
      innerEditing, editTitle, editEstimated := None, "", "";
      emitted := ModifyEach(tasks, KeyIs(editing), (t: Task) => t.(title := title, estimated := estimated));
    }

    /** `handleCancel`: closes the edit and emits the list unchanged. */
    method HandleCancel(tasks: seq<Task>) returns (emitted: seq<Task>)
      modifies this
      ensures innerEditing == None && editTitle == "" && editEstimated == ""
      ensures emitted == tasks
    {
      innerEditing, editTitle, editEstimated := None, "", "";
      emitted := ModifyEach(tasks, (t: Task) => false, (t: Task) => t);
      assert emitted == tasks;
    }

    /** `handleEdit`: refused, changing nothing, while an edit is open; otherwise opens an edit of `key`. */
    method HandleEdit(editing: Option<string>, key: string, title: string, estimated: string) returns (refused: bool)
      modifies this
      ensures refused <==> Truthy(editing)
      ensures refused ==> innerEditing == old(innerEditing) && editTitle == old(editTitle) && editEstimated == old(editEstimated)
      ensures !refused ==> innerEditing == Some(key) && editTitle == title && editEstimated == estimated
    {
      if Truthy(editing) {
        return true;
      }
      innerEditing, editTitle, editEstimated := Some(key), title, estimated;
      return false;
    }
  }
}
