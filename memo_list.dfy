/**
 * The list logic of the memo list: which memory is being edited, what an edit hands
 * back (the memory deleted when its text is emptied, its text replaced otherwise), the
 * newest-first order and the memories that open a run of one date and so show it.
 *
 * `compareDay` is not part of this model; it is a parameter `cmp`, and the properties
 * that need it to be an order require `Consistent(cmp)`.
 */
module MemoList {
  import opened Wrappers
  import opened Arrays
  import opened ArraySort
  import opened Date
  import opened Memories

  /** No memory before index `n` has empty content. */
  predicate NoneBlankBefore(memories: seq<Memory>, n: nat)
    requires n <= |memories|
  {
    forall k :: 0 <= k < n ==> memories[k].content != ""
  }

  /**
   * The `editing` memo: the key of the first memory whose content is empty (a memory just
   * created), or else the memory the user clicked.
   */
  method FindEditing(memories: seq<Memory>, realEditing: Option<string>) returns (editing: Option<string>)
    ensures forall i :: 0 <= i < |memories| && memories[i].content == "" && NoneBlankBefore(memories, i) ==>
      editing == Some(memories[i].key)
    ensures NoneBlankBefore(memories, |memories|) ==> editing == realEditing
  {
    for i := 0 to |memories|
      invariant NoneBlankBefore(memories, i)
    {
      if memories[i].content == "" {
        return Some(memories[i].key);
      }
    }
    return realEditing;
  }

  function HasKey(key: Option<string>): Memory -> bool {
    (m: Memory) => key == Some(m.key)
  }

  /** `memories.find((memory) => memory.key == key)?.content ?? ""` */
  function ContentOf(memories: seq<Memory>, key: Option<string>): (r: string)
    ensures forall i :: 0 <= i < |memories| && key == Some(memories[i].key) && NoKeyBefore(memories, key, i) ==>
      r == memories[i].content
    ensures NoKeyBefore(memories, key, |memories|) ==> r == ""
  {
    match FirstIndex(memories, HasKey(key))
    case Some(i) => memories[i].content
    case None => ""
  }

  /** No memory before index `n` carries `key`. */
  predicate NoKeyBefore(memories: seq<Memory>, key: Option<string>, n: nat)
    requires n <= |memories|
  {
    forall k :: 0 <= k < n ==> key != Some(memories[k].key)
  }

  function KeyIsNot(key: string): Memory -> bool {
    (m: Memory) => m.key != key
  }

  function WithContent(key: string, content: string): Memory -> Memory {
    (m: Memory) => if m.key == key then m.(content := content) else m
  }

  /**
   * The list `updateEditing` hands back when `key` is being edited: without the memories
   * carrying `key` when the new content is empty, otherwise with their content replaced.
   */
  function EditedMemories(memories: seq<Memory>, key: string, content: string): (r: seq<Memory>)
    ensures content == "" ==> |r| <= |memories| && forall i :: 0 <= i < |r| ==> r[i].key != key
    ensures content != "" ==> |r| == |memories|
    ensures content != "" ==> forall i :: 0 <= i < |memories| ==>
      && r[i].key == memories[i].key && r[i].date == memories[i].date
      && r[i].content == (if memories[i].key == key then content else memories[i].content)
  {
    if content == "" then Filter(memories, KeyIsNot(key)) else Map(memories, WithContent(key, content))
  }

  /** Emptying a memory's text removes exactly the memories carrying its key; every other memory stays. */
  lemma EditToEmptyDeletes(memories: seq<Memory>, key: string, m: Memory)
    ensures m in EditedMemories(memories, key, "") <==> m in memories && m.key != key
  {
    FilterMembership(memories, KeyIsNot(key), m);
  }

  /** The others keep their relative order: deleting a key no memory carries hands back the same list. */
  lemma EditToEmptyOfAbsentKey(memories: seq<Memory>, key: string)
    requires forall i :: 0 <= i < |memories| ==> memories[i].key != key
    ensures EditedMemories(memories, key, "") == memories
  {
    FilterKeepsAll(memories, KeyIsNot(key));
  }

  /** After a replacement, the memory read back under the key carries the new text. */
  lemma EditThenRead(memories: seq<Memory>, key: string, content: string, i: nat)
    requires content != "" && i < |memories| && memories[i].key == key
    ensures ContentOf(EditedMemories(memories, key, content), Some(key)) == content
  {
    var r := EditedMemories(memories, key, content);
    var j := FirstIndex(r, HasKey(Some(key))).value;
    assert r[i].key == key;
  }

  /** After a deletion nothing is read back under the key. */
  lemma DeleteThenRead(memories: seq<Memory>, key: string)
    ensures ContentOf(EditedMemories(memories, key, ""), Some(key)) == ""
  {
  }

  /** Handing back the same edit twice changes nothing the second time. */
  lemma EditIdempotent(memories: seq<Memory>, key: string, content: string)
    ensures EditedMemories(EditedMemories(memories, key, content), key, content) == EditedMemories(memories, key, content)
  {
    if content == "" {
      FilterIdempotent(memories, KeyIsNot(key));
    }
  }

  /**
   * Escape hands back the stored text of the memory being edited: with unique keys and a
   * non-empty text the emitted list is the list as it was.
   */
  lemma EscapeKeepsList(memories: seq<Memory>, key: string)
    requires KeysUnique(memories) && ContentOf(memories, Some(key)) != ""
    ensures EditedMemories(memories, key, ContentOf(memories, Some(key))) == memories
  {
    var content := ContentOf(memories, Some(key));
    var r := EditedMemories(memories, key, content);
    forall i | 0 <= i < |memories| ensures r[i] == memories[i] {
      if memories[i].key == key {
        var j := FirstIndex(memories, HasKey(Some(key))).value;
        assert memories[j].key == key;
      }
    }
  }

  /** The memo list's own editing state: the memory clicked for editing and the text being typed. */
  class MemoEditor {
    var realEditing: Option<string>
    var edited: string

    constructor ()
      ensures realEditing == None && edited == ""
    {
      realEditing, edited := None, "";
    }

    /**
     * `updateEditing(content, newEditing)`: while a memory is being edited, hands back the
     * edited list; then switches the edit to `newEditing` and loads that memory's text.
     */
    method UpdateEditing(memories: seq<Memory>, editing: Option<string>, content: string, newEditing: Option<string>)
      returns (emitted: Option<seq<Memory>>)
      modifies this
      ensures emitted.None? <==> !Truthy(editing)
      ensures emitted.Some? ==> emitted.value == EditedMemories(memories, editing.value, content)
      ensures realEditing == newEditing && edited == ContentOf(memories, newEditing)
    {
      emitted := None;
      if Truthy(editing) {
        emitted := Some(EditedMemories(memories, editing.value, content));
      }
      realEditing := newEditing;
      edited := ContentOf(memories, newEditing);
    }
  }

  /** `(a, b) => -compareDay(a.date, b.date)`: later dates first. */
  function NewestFirst(cmp: (Day, Day) -> int): (Memory, Memory) -> int {
    (a: Memory, b: Memory) => -cmp(a.date, b.date)
  }

  /** Reversing a comparator on dates keeps it one the sort can rely on. */
  lemma NewestFirstConsistent(cmp: (Day, Day) -> int)
    requires Consistent(cmp)
    ensures Consistent(NewestFirst(cmp))
  {
    var newest := NewestFirst(cmp);
    forall a: Memory, b: Memory ensures Antisymmetric(newest, a, b) {
      assert Antisymmetric(cmp, b.date, a.date);
    }
    forall a: Memory, b: Memory, c: Memory ensures Transitive(newest, a, b, c) {
      assert Antisymmetric(cmp, b.date, a.date) && Antisymmetric(cmp, c.date, b.date);
      assert Antisymmetric(cmp, c.date, a.date);
      assert Transitive(cmp, c.date, b.date, a.date);
    }
  }

  /** `sortedMemories`: the list the memo list was given, sorted newest first in place. */
  method SortMemories(a: array<Memory>, cmp: (Day, Day) -> int)
    modifies a
    ensures a[..] == Sorted(old(a[..]), NewestFirst(cmp))
  {
    Sort(a, NewestFirst(cmp));
  }

  /**
   * The sorted memories are the same memories, each date compares no lower than every
   * later one, and memories of one date keep their order.
   */
  lemma SortedMemoriesOrder(s: seq<Memory>, cmp: (Day, Day) -> int, e: Memory)
    requires Consistent(cmp)
    ensures var r := Sorted(s, NewestFirst(cmp));
      && multiset(r) == multiset(s)
      && (forall i, j :: 0 <= i < j < |r| ==> cmp(r[i].date, r[j].date) >= 0)
      && Filter(r, SameRank(NewestFirst(cmp), e)) == Filter(s, SameRank(NewestFirst(cmp), e))
  {
    NewestFirstConsistent(cmp);
    SortedPermutes(s, NewestFirst(cmp));
    SortedIsOrdered(s, NewestFirst(cmp));
    SortedIsStable(s, NewestFirst(cmp), e);
  }

  /**
   * The `dateMemories` loop as a function: the keys of the memories whose date compares
   * unequal to `current`, the date of the last memory marked so far.
   */
  function Scan(s: seq<Memory>, cmp: (Day, Day) -> int, current: Option<Day>): (r: seq<string>)
    ensures |r| <= |s|
    ensures s != [] && current.None? ==> |r| >= 1 && r[0] == s[0].key
  {
    if s == [] then []
    else if current.None? || cmp(current.value, s[0].date) != 0 then [s[0].key] + Scan(s[1..], cmp, Some(s[0].date))
    else Scan(s[1..], cmp, current)
  }

  /** `dateMemories`: walks the sorted memories, marking each whose date differs from the last marked one. */
  method DateMarkers(sorted: seq<Memory>, cmp: (Day, Day) -> int) returns (markers: seq<string>)
    ensures markers == Scan(sorted, cmp, None)
  {
    var current: Option<Day> := None;
    markers := [];
    for i := 0 to |sorted|
      invariant markers + Scan(sorted[i..], cmp, current) == Scan(sorted, cmp, None)
    {
      assert sorted[i..][1..] == sorted[i + 1..];
      var m := sorted[i];
      if current.None? || cmp(current.value, m.date) != 0 {
        current := Some(m.date);
        markers := markers + [m.key];
      }
    }
    assert sorted[|sorted|..] == [];
  }

  /** Memory `i` opens a run: it is the first, or its date compares unequal to its predecessor's. */
  predicate OpensRun(s: seq<Memory>, cmp: (Day, Day) -> int, previous: Option<Day>, i: nat)
    requires i < |s|
  {
    if i == 0 then previous.None? || cmp(previous.value, s[0].date) != 0
    else cmp(s[i - 1].date, s[i].date) != 0
  }

  /** The keys of the memories that open a run, in list order; `previous` is the date before the list. */
  function RunStarts(s: seq<Memory>, cmp: (Day, Day) -> int, previous: Option<Day>): seq<string> {
    if s == [] then []
    else (if OpensRun(s, cmp, previous, 0) then [s[0].key] else []) + RunStarts(s[1..], cmp, Some(s[0].date))
  }

  /** Two dates the comparator puts level with each other. */
  predicate Level(cmp: (Day, Day) -> int, a: Day, b: Day) {
    cmp(a, b) == 0 && cmp(b, a) == 0
  }

  /** A date level with another compares equal to exactly the dates that one does. */
  lemma LevelCompares(cmp: (Day, Day) -> int, a: Day, b: Day, d: Day)
    requires Consistent(cmp) && Level(cmp, a, b)
    ensures cmp(a, d) == 0 <==> cmp(b, d) == 0
  {
    assert Antisymmetric(cmp, a, d) && Antisymmetric(cmp, b, d);
    assert Antisymmetric(cmp, d, a) && Antisymmetric(cmp, d, b);
    assert Transitive(cmp, a, b, d) && Transitive(cmp, b, a, d);
    assert Transitive(cmp, d, a, b) && Transitive(cmp, d, b, a);
  }

  /**
   * Comparing with the last marked date, as the loop does, marks the same memories as
   * comparing with the predecessor's date, because the two are level.
   */
  lemma {:induction false} ScanIsRunStarts(s: seq<Memory>, cmp: (Day, Day) -> int, current: Option<Day>, previous: Option<Day>)
    requires Consistent(cmp)
    requires current.None? <==> previous.None?
    requires current.Some? ==> Level(cmp, current.value, previous.value)
    ensures Scan(s, cmp, current) == RunStarts(s, cmp, previous)
    decreases |s|
  {
    if s != [] {
      var d := s[0].date;
      if current.Some? {
        LevelCompares(cmp, current.value, previous.value, d);
      }
      assert Antisymmetric(cmp, d, d);
      if current.None? || cmp(current.value, d) != 0 {
        ScanIsRunStarts(s[1..], cmp, Some(d), Some(d));
      } else {
        assert Antisymmetric(cmp, current.value, d) && Antisymmetric(cmp, d, current.value);
        ScanIsRunStarts(s[1..], cmp, current, Some(d));
      }
    }
  }

  lemma OpensRunShift(s: seq<Memory>, cmp: (Day, Day) -> int, previous: Option<Day>, j: nat)
    requires 0 < |s| && j < |s| - 1
    ensures OpensRun(s[1..], cmp, Some(s[0].date), j) == OpensRun(s, cmp, previous, j + 1)
  {
  }

  /** A key is among the run starts exactly when some memory carrying it opens a run. */
  lemma {:induction false} RunStartsMembership(s: seq<Memory>, cmp: (Day, Day) -> int, previous: Option<Day>, key: string)
    ensures key in RunStarts(s, cmp, previous) <==> exists i :: 0 <= i < |s| && s[i].key == key && OpensRun(s, cmp, previous, i)
    decreases |s|
  {
    if s != [] {
      var rest := s[1..];
      RunStartsMembership(rest, cmp, Some(s[0].date), key);
      if key in RunStarts(rest, cmp, Some(s[0].date)) {
        var j :| 0 <= j < |rest| && rest[j].key == key && OpensRun(rest, cmp, Some(s[0].date), j);
        OpensRunShift(s, cmp, previous, j);
        assert s[j + 1].key == key && OpensRun(s, cmp, previous, j + 1);
      }
      if exists i :: 0 <= i < |s| && s[i].key == key && OpensRun(s, cmp, previous, i) {
        var i :| 0 <= i < |s| && s[i].key == key && OpensRun(s, cmp, previous, i);
        if i > 0 {
          OpensRunShift(s, cmp, previous, i - 1);
          assert rest[i - 1].key == key && OpensRun(rest, cmp, Some(s[0].date), i - 1);
        }
      }
    }
  }

  /**
   * `dateMemories` holds a key exactly when a memory carrying it is the first of the sorted
   * list or compares unequal by date to the memory before it.
   */
  lemma DateMarkersMembership(sorted: seq<Memory>, cmp: (Day, Day) -> int, key: string)
    requires Consistent(cmp)
    ensures key in Scan(sorted, cmp, None) <==>
      exists i :: 0 <= i < |sorted| && sorted[i].key == key && (i == 0 || cmp(sorted[i - 1].date, sorted[i].date) != 0)
  {
    ScanIsRunStarts(sorted, cmp, None, None);
    RunStartsMembership(sorted, cmp, None, key);
    assert forall i :: 0 <= i < |sorted| ==> (OpensRun(sorted, cmp, None, i) <==> (i == 0 || cmp(sorted[i - 1].date, sorted[i].date) != 0));
  }
}
