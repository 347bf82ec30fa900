/**
 * `Array.prototype.sort(compareFn)`: a stable sort, in place, that puts `b` before `a`
 * exactly when `compareFn(a, b) > 0`. Modelled by insertion sort; `Sorted` is its
 * result as a function of the input.
 */
module ArraySort {
  import opened Arrays

  /**
   * A comparator the sort can rely on: the sign of `cmp(a, b)` is the opposite of the
   * sign of `cmp(b, a)`, and "not after" (`cmp(a, b) <= 0`) is transitive.
   */
  ghost predicate Consistent<T(!new)>(cmp: (T, T) -> int) {
    && (forall a, b :: Antisymmetric(cmp, a, b))
    && (forall a, b, c :: Transitive(cmp, a, b, c))
  }

  // The two laws are stated per element so that a proof uses each only where it names it.
  ghost predicate Antisymmetric<T>(cmp: (T, T) -> int, a: T, b: T) {
    cmp(a, b) > 0 <==> cmp(b, a) < 0
  }

  ghost predicate Transitive<T>(cmp: (T, T) -> int, a: T, b: T, c: T) {
    cmp(a, b) <= 0 && cmp(b, c) <= 0 ==> cmp(a, c) <= 0
  }

  /** No element is placed after one that compares below it. */
  ghost predicate SortedBy<T>(s: seq<T>, cmp: (T, T) -> int) {
    forall i, j :: 0 <= i < j < |s| ==> cmp(s[i], s[j]) <= 0
  }

  /**
   * Where insertion sort puts `x` into `t`: just after the last element that does not
   * compare above `x`, found by scanning from the right.
   */
  function InsertPos<T>(x: T, t: seq<T>, cmp: (T, T) -> int): (p: nat)
    ensures p <= |t|
    ensures forall k :: p <= k < |t| ==> cmp(t[k], x) > 0
    ensures p > 0 ==> cmp(t[p - 1], x) <= 0
  {
    if t == [] then 0
    else if cmp(t[|t| - 1], x) > 0 then InsertPos(x, t[..|t| - 1], cmp)
    else |t|
  }

  function Insert<T>(x: T, t: seq<T>, cmp: (T, T) -> int): (r: seq<T>)
    ensures |r| == |t| + 1
  {
    var p := InsertPos(x, t, cmp);
    t[..p] + [x] + t[p..]
  }

  /** The array `s` after `s.sort(cmp)`: each element in turn inserted into the sorted prefix. */
  function Sorted<T>(s: seq<T>, cmp: (T, T) -> int): (r: seq<T>)
    ensures |r| == |s|
  {
    if s == [] then [] else Insert(s[|s| - 1], Sorted(s[..|s| - 1], cmp), cmp)
  }

  lemma InsertPermutes<T>(x: T, t: seq<T>, cmp: (T, T) -> int)
    ensures multiset(Insert(x, t, cmp)) == multiset(t) + multiset{x}
  {
    var p := InsertPos(x, t, cmp);
    assert t == t[..p] + t[p..];
  }

  /** `sort` only reorders: the result holds each element exactly as often as the input. */
  lemma {:induction false} SortedPermutes<T>(s: seq<T>, cmp: (T, T) -> int)
    ensures multiset(Sorted(s, cmp)) == multiset(s)
    decreases |s|
  {
    if s != [] {
      var init, last := s[..|s| - 1], s[|s| - 1];
      SortedPermutes(init, cmp);
      InsertPermutes(last, Sorted(init, cmp), cmp);
      assert s == init + [last];
    }
  }

  /** The elements equivalent to `e` under `cmp`. */
  function SameRank<T>(cmp: (T, T) -> int, e: T): T -> bool {
    x => cmp(x, e) == 0
  }

  /** Where each element of `t`, and `x`, ends up in `Insert(x, t, cmp)`. */
  lemma InsertLayout<T>(x: T, t: seq<T>, cmp: (T, T) -> int)
    ensures var p, r := InsertPos(x, t, cmp), Insert(x, t, cmp);
      && r[p] == x
      && (forall k :: 0 <= k < p ==> r[k] == t[k])
      && (forall k :: p < k < |r| ==> r[k] == t[k - 1])
  {
  }

  lemma InsertKeepsOrder<T(!new)>(x: T, t: seq<T>, cmp: (T, T) -> int)
    requires Consistent(cmp) && SortedBy(t, cmp)
    ensures SortedBy(Insert(x, t, cmp), cmp)
  {
    var p := InsertPos(x, t, cmp);
    var r := Insert(x, t, cmp);
    InsertLayout(x, t, cmp);
    forall i, j | 0 <= i < j < |r| ensures cmp(r[i], r[j]) <= 0 {
      if j < p {
        assert cmp(t[i], t[j]) <= 0;
      } else if j == p {
        assert Transitive(cmp, t[i], t[p - 1], x);
      } else if i < p {
        assert cmp(t[i], t[j - 1]) <= 0;
      } else if i == p {
        assert Antisymmetric(cmp, t[j - 1], x);
      } else {
        assert cmp(t[i - 1], t[j - 1]) <= 0;
      }
    }
  }

  /** After `sort`, no element comes after one that compares below it. */
  lemma {:induction false} SortedIsOrdered<T(!new)>(s: seq<T>, cmp: (T, T) -> int)
    requires Consistent(cmp)
    ensures SortedBy(Sorted(s, cmp), cmp)
    decreases |s|
  {
    if s != [] {
      SortedIsOrdered(s[..|s| - 1], cmp);
      InsertKeepsOrder(s[|s| - 1], Sorted(s[..|s| - 1], cmp), cmp);
    }
  }

  /** An element ranked strictly above one of `e`'s rank is not of that rank. */
  lemma AboveIsOtherRank<T(!new)>(x: T, y: T, cmp: (T, T) -> int, e: T)
    requires Consistent(cmp) && cmp(x, e) == 0 && cmp(y, x) > 0
    ensures cmp(y, e) != 0
  {
    assert Antisymmetric(cmp, e, x);
    assert Transitive(cmp, y, e, x);
  }

  /** Nothing after the insertion point of an element of `e`'s rank is of that rank. */
  lemma NoneOfRankAfter<T(!new)>(x: T, t: seq<T>, cmp: (T, T) -> int, e: T)
    requires Consistent(cmp) && cmp(x, e) == 0
    ensures Filter(t[InsertPos(x, t, cmp)..], SameRank(cmp, e)) == []
  {
    var after := t[InsertPos(x, t, cmp)..];
    forall k | 0 <= k < |after| ensures !SameRank(cmp, e)(after[k]) {
      AboveIsOtherRank(x, after[k], cmp, e);
    }
    FilterNone(after, SameRank(cmp, e));
  }

  lemma InsertIsStable<T(!new)>(x: T, t: seq<T>, cmp: (T, T) -> int, e: T)
    requires Consistent(cmp)
    ensures Filter(Insert(x, t, cmp), SameRank(cmp, e)) == Filter(t, SameRank(cmp, e)) + Filter([x], SameRank(cmp, e))
  {
    var same := SameRank(cmp, e);
    var p := InsertPos(x, t, cmp);
    var before, after := t[..p], t[p..];
    FilterOfThree(before, x, after, same);
    assert t == before + after;
    FilterAppend(before, after, same);
    FilterSingle(x, same);
    if same(x) {
      NoneOfRankAfter(x, t, cmp, e);
    }
    SwapPastEmpty(Filter(before, same), Filter([x], same), Filter(after, same));
  }

  lemma SwapPastEmpty<T>(a: seq<T>, b: seq<T>, c: seq<T>)
    requires b == [] || c == []
    ensures a + b + c == a + c + b
  {
  }

  /** `sort` is stable: the elements of any one rank keep their original relative order. */
  lemma {:induction false} SortedIsStable<T(!new)>(s: seq<T>, cmp: (T, T) -> int, e: T)
    requires Consistent(cmp)
    ensures Filter(Sorted(s, cmp), SameRank(cmp, e)) == Filter(s, SameRank(cmp, e))
    decreases |s|
  {
    if s != [] {
      var init, last := s[..|s| - 1], s[|s| - 1];
      var same := SameRank(cmp, e);
      calc {
        Filter(Sorted(s, cmp), same);
        Filter(Insert(last, Sorted(init, cmp), cmp), same);
        { InsertIsStable(last, Sorted(init, cmp), cmp, e); }
        Filter(Sorted(init, cmp), same) + Filter([last], same);
        { SortedIsStable(init, cmp, e); }
        Filter(init, same) + Filter([last], same);
        { FilterAppend(init, [last], same); }
        Filter(init + [last], same);
        { assert s == init + [last]; }
        Filter(s, same);
      }
    }
  }

  lemma InsertPosPastLarger<T>(x: T, t: seq<T>, j: nat, cmp: (T, T) -> int)
    requires 0 < j <= |t| && cmp(t[j - 1], x) > 0
    ensures InsertPos(x, t[..j], cmp) == InsertPos(x, t[..j - 1], cmp)
  {
    assert t[..j][..j - 1] == t[..j - 1];
  }

  /** Sorts `a` in place: each element is moved left past the elements that compare above it. */
  method Sort<T>(a: array<T>, cmp: (T, T) -> int)
    modifies a
    ensures a[..] == Sorted(old(a[..]), cmp)
  {
    ghost var input := a[..];
    var i := 0;
    while i < a.Length
      invariant 0 <= i <= a.Length
      invariant a[..i] == Sorted(input[..i], cmp)
      invariant a[i..] == input[i..]
    {
      InsertInto(a, i, cmp);
      assert input[..i + 1] == input[..i] + [input[i]];
      i := i + 1;
    }
    assert input[..a.Length] == input;
  }

  /** One step of the sort: moves `a[i]` left into the sorted prefix `a[..i]`. */
  method InsertInto<T>(a: array<T>, i: nat, cmp: (T, T) -> int)
    requires i < a.Length
    modifies a
    ensures a[..i + 1] == Insert(old(a[i]), old(a[..i]), cmp)
    ensures a[i + 1..] == old(a[i + 1..])
  {
    ghost var t, x := a[..i], a[i];
    var j := ShiftInto(a, i, cmp);
    InsertLayout(x, t, cmp);
    assert a[..i + 1] == Insert(x, t, cmp) by {
      forall k | 0 <= k <= i ensures a[..i + 1][k] == Insert(x, t, cmp)[k] {
        if k < j {
          assert a[k] == t[k];
        } else if k > j {
          assert a[k] == t[k - 1];
        }
      }
    }
  }

  /**
   * The loop of one sort step: swaps `a[i]` left past the elements that compare above it
   * and returns where it stops, which is its insertion point in `a[..i]`.
   */
  method ShiftInto<T>(a: array<T>, i: nat, cmp: (T, T) -> int) returns (j: nat)
    requires i < a.Length
    modifies a
    ensures j <= i && j == InsertPos(old(a[i]), old(a[..i]), cmp)
    ensures a[j] == old(a[i])
    ensures forall k :: 0 <= k < j ==> a[k] == old(a[k])
    ensures forall k :: j < k <= i ==> a[k] == old(a[k - 1])
    ensures forall k :: i < k < a.Length ==> a[k] == old(a[k])
  {
    ghost var t := a[..i];
    var x := a[i];
    j := i;
    assert t[..j] == t;
    while j > 0 && cmp(a[j - 1], x) > 0
      invariant 0 <= j <= i
      invariant a[j] == x
      invariant forall k :: 0 <= k < j ==> a[k] == old(a[k])
      invariant forall k :: j < k <= i ==> a[k] == old(a[k - 1])
      invariant forall k :: i < k < a.Length ==> a[k] == old(a[k])
      invariant InsertPos(x, t, cmp) == InsertPos(x, t[..j], cmp)
    {
      assert a[j - 1] == t[j - 1];
      InsertPosPastLarger(x, t, j, cmp);
      a[j - 1], a[j] := x, a[j - 1];
      j := j - 1;
    }
    assert InsertPos(x, t, cmp) == j by {
      assert j > 0 ==> t[..j][j - 1] == t[j - 1];
    }
  }

  /**
   * The order `sort()` uses when given no comparator, on strings: character by character,
   * a proper prefix first; -1, 0 or 1.
   */
  function CompareStrings(a: string, b: string): int {
    if a == [] && b == [] then 0
    else if a == [] then -1
    else if b == [] then 1
    else if a[0] < b[0] then -1
    else if a[0] > b[0] then 1
    else CompareStrings(a[1..], b[1..])
  }

  /** Two strings compare equal exactly when they are the same string. */
  lemma {:induction false} CompareStringsZero(a: string, b: string)
    ensures CompareStrings(a, b) == 0 <==> a == b
    decreases |a|
  {
    if a != [] && b != [] && a[0] == b[0] {
      CompareStringsZero(a[1..], b[1..]);
      assert a == [a[0]] + a[1..] && b == [b[0]] + b[1..];
    }
  }

  /** Swapping the operands negates the result. */
  lemma {:induction false} CompareStringsFlip(a: string, b: string)
    ensures CompareStrings(a, b) == -CompareStrings(b, a)
    decreases |a|
  {
    if a != [] && b != [] && a[0] == b[0] {
      CompareStringsFlip(a[1..], b[1..]);
    }
  }

  /** "Not after" is transitive. */
  lemma {:induction false} CompareStringsTransitive(a: string, b: string, c: string)
    requires CompareStrings(a, b) <= 0 && CompareStrings(b, c) <= 0
    ensures CompareStrings(a, c) <= 0
    decreases |a|
  {
    if a != [] && b != [] && c != [] && a[0] == b[0] == c[0] {
      CompareStringsTransitive(a[1..], b[1..], c[1..]);
    }
  }

  lemma CompareStringsConsistent()
    ensures Consistent(CompareStrings)
  {
    forall a: string, b: string ensures Antisymmetric(CompareStrings, a, b) {
      CompareStringsFlip(a, b);
    }
    forall a: string, b: string, c: string ensures Transitive(CompareStrings, a, b, c) {
      if CompareStrings(a, b) <= 0 && CompareStrings(b, c) <= 0 {
        CompareStringsTransitive(a, b, c);
      }
    }
  }
}
