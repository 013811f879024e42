/**
 * The generic list helpers of the reconciliation scripts: `Array.prototype.some`,
 * `findIndex`, and the two filters built from them, `onlyInLeft` and `duplicates`.
 * A compare function is a total function of two elements; nothing requires it to
 * be an equivalence unless a lemma says so.
 */
module ListOps {

  /** `a` can be obtained from `b` by deleting elements: it keeps `b`'s order. */
  predicate IsSubseq<T(==)>(a: seq<T>, b: seq<T>)
    decreases |b|
  {
    a == [] || (b != [] && ((a[0] == b[0] && IsSubseq(a[1..], b[1..])) || IsSubseq(a, b[1..])))
  }

  /** `right.some(y => eq(x, y))`: some element of `right` matches `x`. */
  function AnyMatch<T>(x: T, right: seq<T>, eq: (T, T) -> bool): (b: bool)
    ensures b <==> exists j :: 0 <= j < |right| && eq(x, right[j])
  {
    if right == [] then false
    else
      assert forall j :: 1 <= j < |right| ==> right[j] == right[1..][j - 1];
      eq(x, right[0]) || AnyMatch(x, right[1..], eq)
  }

  /**
   * `onlyInLeft(left, right, eq)`: the elements of `left` that match nothing in
   * `right`, in their order in `left`, each as often as it occurs there.
   */
  function OnlyInLeft<T(==,!new)>(left: seq<T>, right: seq<T>, eq: (T, T) -> bool): (r: seq<T>)
    ensures |r| <= |left|
    ensures forall x :: x in r <==> x in left && !AnyMatch(x, right, eq)
    ensures forall x :: multiset(r)[x] == if AnyMatch(x, right, eq) then 0 else multiset(left)[x]
  {
    if left == [] then []
    else
      var rest := OnlyInLeft(left[1..], right, eq);
      assert left == [left[0]] + left[1..];
      if AnyMatch(left[0], right, eq) then rest else [left[0]] + rest
  }

  /** What `onlyInLeft` keeps, it keeps in the order of `left`. */
  lemma {:induction false} OnlyInLeftIsSubseq<T(!new)>(left: seq<T>, right: seq<T>, eq: (T, T) -> bool)
    ensures IsSubseq(OnlyInLeft(left, right, eq), left)
  {
    if left != [] {
      OnlyInLeftIsSubseq(left[1..], right, eq);
    }
  }

  /** With nothing on the right, every element of the left survives. */
  lemma {:induction false} OnlyInLeftOfEmptyRight<T(!new)>(left: seq<T>, eq: (T, T) -> bool)
    ensures OnlyInLeft(left, [], eq) == left
  {
    if left != [] {
      OnlyInLeftOfEmptyRight(left[1..], eq);
      assert left == [left[0]] + left[1..];
    }
  }

  lemma OnlyInLeftOfEmptyLeft<T(!new)>(right: seq<T>, eq: (T, T) -> bool)
    ensures OnlyInLeft([], right, eq) == []
  {
  }

  /**
   * `arr.findIndex(y => eq(x, y))`, scanning from index `from`: the first index
   * whose element `x` matches, or -1 when there is none.
   */
  function FindIndex<T>(arr: seq<T>, x: T, eq: (T, T) -> bool, from: nat): (k: int)
    requires from <= |arr|
    ensures k == -1 || from <= k < |arr|
    ensures k >= 0 ==> eq(x, arr[k]) && forall j :: from <= j < k ==> !eq(x, arr[j])
    ensures k == -1 ==> forall j :: from <= j < |arr| ==> !eq(x, arr[j])
    decreases |arr| - from
  {
    if from == |arr| then -1
    else if eq(x, arr[from]) then from
    else FindIndex(arr, x, eq, from + 1)
  }

  /** The filter callback of `duplicates`: the first match of `arr[i]` is not at `i`. */
  predicate IsDuplicateAt<T>(arr: seq<T>, eq: (T, T) -> bool, i: nat)
    requires i < |arr|
  {
    FindIndex(arr, arr[i], eq, 0) != i
  }

  /** The elements `duplicates` keeps among the indices `i..`, in index order. */
  function DuplicatesFrom<T(==,!new)>(arr: seq<T>, eq: (T, T) -> bool, i: nat): (r: seq<T>)
    requires i <= |arr|
    ensures |r| <= |arr| - i
    ensures forall x :: x in r <==> exists j :: i <= j < |arr| && arr[j] == x && IsDuplicateAt(arr, eq, j)
    decreases |arr| - i
  {
    if i == |arr| then []
    else
      var rest := DuplicatesFrom(arr, eq, i + 1);
      assert arr[i..][1..] == arr[i + 1..];
      if IsDuplicateAt(arr, eq, i) then [arr[i]] + rest else rest
  }

  /**
   * `duplicates(arr, eq)`: the elements whose first match under `eq` lies elsewhere.
   * Each value is reported once for every index it stands at, less the one index
   * where `findIndex` finds it, if that index holds the value itself.
   */
  function Duplicates<T(==,!new)>(arr: seq<T>, eq: (T, T) -> bool): (r: seq<T>)
    ensures |r| <= |arr|
    ensures forall x :: x in r <==> exists j :: 0 <= j < |arr| && arr[j] == x && IsDuplicateAt(arr, eq, j)
    ensures forall x :: var k := FindIndex(arr, x, eq, 0);
      multiset(r)[x] == multiset(arr)[x] - (if k >= 0 && arr[k] == x then 1 else 0)
  {
    assert arr[0..] == arr;
    DuplicatesFromCount(arr, eq, 0);
    DuplicatesFrom(arr, eq, 0)
  }

  /** Among the indices `i..`, each value is reported at all its indices but the one `findIndex` finds. */
  lemma DuplicatesFromCount<T(!new)>(arr: seq<T>, eq: (T, T) -> bool, i: nat)
    requires i <= |arr|
    ensures forall x :: var k := FindIndex(arr, x, eq, 0);
      multiset(DuplicatesFrom(arr, eq, i))[x] == multiset(arr[i..])[x] - (if k >= i && arr[k] == x then 1 else 0)
  {
    forall x
      ensures var k := FindIndex(arr, x, eq, 0);
        multiset(DuplicatesFrom(arr, eq, i))[x] == multiset(arr[i..])[x] - (if k >= i && arr[k] == x then 1 else 0)
    {
      DuplicatesFromCountOf(arr, eq, i, x);
    }
  }

  lemma {:induction false} DuplicatesFromCountOf<T(!new)>(arr: seq<T>, eq: (T, T) -> bool, i: nat, x: T)
    requires i <= |arr|
    ensures var k := FindIndex(arr, x, eq, 0);
      multiset(DuplicatesFrom(arr, eq, i))[x] == multiset(arr[i..])[x] - (if k >= i && arr[k] == x then 1 else 0)
    decreases |arr| - i
  {
    if i < |arr| {
      DuplicatesFromCountOf(arr, eq, i + 1, x);
      assert arr[i..] == [arr[i]] + arr[i + 1..];
    }
  }

  /**
   * The index-wise rule of `duplicates`: the result lists, in increasing index
   * order, the elements at exactly the indices the filter callback keeps.
   */
  lemma DuplicatesByIndex<T(!new)>(arr: seq<T>, eq: (T, T) -> bool)
    ensures exists idx: seq<nat> ::
      && |idx| == |Duplicates(arr, eq)|
      && (forall m, n :: 0 <= m < n < |idx| ==> idx[m] < idx[n])
      && (forall m :: 0 <= m < |idx| ==> idx[m] < |arr| && Duplicates(arr, eq)[m] == arr[idx[m]])
      && (forall i :: 0 <= i < |arr| ==> (i in idx <==> IsDuplicateAt(arr, eq, i)))
  {
    var keep := KeepsDuplicate(arr, eq);
    var idx := Kept(|arr|, keep, 0);
    KeptShape(|arr|, keep, 0);
    assert Duplicates(arr, eq) == Pick(arr, idx) by {
      DuplicatesFromPick(arr, eq, 0);
      assert arr[0..] == arr;
    }
    assert forall i :: 0 <= i < |arr| ==> (i in idx <==> IsDuplicateAt(arr, eq, i)) by {
      KeptMembers(|arr|, keep, 0);
    }
  }

  /** The filter callback of `duplicates` as a test on indices. */
  function KeepsDuplicate<T>(arr: seq<T>, eq: (T, T) -> bool): nat -> bool {
    (j: nat) => j < |arr| && IsDuplicateAt(arr, eq, j)
  }

  /** The indices in `i..n` that `keep` holds of, in increasing order. */
  function Kept(n: nat, keep: nat -> bool, i: nat): seq<nat>
    requires i <= n
    decreases n - i
  {
    if i == n then [] else (if keep(i) then [i] else []) + Kept(n, keep, i + 1)
  }

  /** Each index is smaller than every later one. */
  predicate Increasing(idx: seq<nat>) {
    forall m, n :: 0 <= m < n < |idx| ==> idx[m] < idx[n]
  }

  lemma IncreasingCons(i: nat, rest: seq<nat>)
    requires Increasing(rest) && forall m :: 0 <= m < |rest| ==> i < rest[m]
    ensures Increasing([i] + rest)
  {
    var idx := [i] + rest;
    forall m, n | 0 <= m < n < |idx|
      ensures idx[m] < idx[n]
    {
      assert idx[n] == rest[n - 1];
      if m > 0 {
        assert idx[m] == rest[m - 1];
      }
    }
  }

  /** The kept indices are increasing and lie in `i..n`. */
  lemma {:induction false} KeptShape(n: nat, keep: nat -> bool, i: nat)
    requires i <= n
    ensures Increasing(Kept(n, keep, i))
    ensures forall m :: 0 <= m < |Kept(n, keep, i)| ==> i <= Kept(n, keep, i)[m] < n
    decreases n - i
  {
    if i < n {
      KeptShape(n, keep, i + 1);
      var rest := Kept(n, keep, i + 1);
      if keep(i) {
        var idx := [i] + rest;
        assert Kept(n, keep, i) == idx;
        IncreasingCons(i, rest);
        forall m | 0 <= m < |idx|
          ensures i <= idx[m] < n
        {
          if m > 0 {
            assert idx[m] == rest[m - 1];
          }
        }
      } else {
        assert Kept(n, keep, i) == rest;
      }
    }
  }

  /** An index in `i..n` is kept exactly when `keep` holds of it. */
  lemma {:induction false} KeptMembers(n: nat, keep: nat -> bool, i: nat)
    requires i <= n
    ensures forall j :: i <= j < n ==> (j in Kept(n, keep, i) <==> keep(j))
    decreases n - i
  {
    if i < n {
      KeptMembers(n, keep, i + 1);
      KeptShape(n, keep, i + 1);
      assert i !in Kept(n, keep, i + 1);
    }
  }

  /** The elements of `arr` at the indices `idx`, in the order of `idx`. */
  function Pick<T>(arr: seq<T>, idx: seq<nat>): (r: seq<T>)
    requires forall m :: 0 <= m < |idx| ==> idx[m] < |arr|
    ensures |r| == |idx| && forall m :: 0 <= m < |idx| ==> r[m] == arr[idx[m]]
  {
    if idx == [] then [] else [arr[idx[0]]] + Pick(arr, idx[1..])
  }

  /** The elements `duplicates` keeps from `i` on are those at the indices its callback keeps. */
  lemma {:induction false} DuplicatesFromPick<T(!new)>(arr: seq<T>, eq: (T, T) -> bool, i: nat)
    requires i <= |arr|
    ensures forall m :: 0 <= m < |Kept(|arr|, KeepsDuplicate(arr, eq), i)| ==> Kept(|arr|, KeepsDuplicate(arr, eq), i)[m] < |arr|
    ensures DuplicatesFrom(arr, eq, i) == Pick(arr, Kept(|arr|, KeepsDuplicate(arr, eq), i))
    decreases |arr| - i
  {
    var keep := KeepsDuplicate(arr, eq);
    KeptShape(|arr|, keep, i);
    if i < |arr| {
      DuplicatesFromPick(arr, eq, i + 1);
      var rest := Kept(|arr|, keep, i + 1);
      if IsDuplicateAt(arr, eq, i) {
        assert Kept(|arr|, keep, i) == [i] + rest;
        assert ([i] + rest)[1..] == rest;
      } else {
        assert Kept(|arr|, keep, i) == rest;
      }
    }
  }

  /** What `duplicates` keeps, it keeps in the order of `arr`. */
  lemma DuplicatesIsSubseq<T(!new)>(arr: seq<T>, eq: (T, T) -> bool)
    ensures IsSubseq(Duplicates(arr, eq), arr)
  {
    DuplicatesFromIsSubseq(arr, eq, 0);
    assert arr[0..] == arr;
  }

  lemma {:induction false} DuplicatesFromIsSubseq<T(!new)>(arr: seq<T>, eq: (T, T) -> bool, i: nat)
    requires i <= |arr|
    ensures IsSubseq(DuplicatesFrom(arr, eq, i), arr[i..])
    decreases |arr| - i
  {
    if i < |arr| {
      DuplicatesFromIsSubseq(arr, eq, i + 1);
      assert arr[i..][1..] == arr[i + 1..];
    }
  }

  /** `eq` holds of each element of `arr` with itself. */
  predicate ReflexiveOn<T>(arr: seq<T>, eq: (T, T) -> bool) {
    forall j :: 0 <= j < |arr| ==> eq(arr[j], arr[j])
  }

  /**
   * For a compare function reflexive on the array, an element is reported as a
   * duplicate exactly when it stands at some index with a match at an earlier one.
   */
  lemma DuplicatesAreLaterMatches<T(!new)>(arr: seq<T>, eq: (T, T) -> bool)
    requires ReflexiveOn(arr, eq)
    ensures forall x :: x in Duplicates(arr, eq) <==>
      exists i, j :: 0 <= i < j < |arr| && arr[j] == x && eq(x, arr[i])
  {
    forall x | x in Duplicates(arr, eq)
      ensures exists i, j :: 0 <= i < j < |arr| && arr[j] == x && eq(x, arr[i])
    {
      var j :| 0 <= j < |arr| && arr[j] == x && IsDuplicateAt(arr, eq, j);
      var i := FindIndex(arr, x, eq, 0);
      assert 0 <= i < j;
    }
    forall x, i, j | 0 <= i < j < |arr| && arr[j] == x && eq(x, arr[i])
      ensures x in Duplicates(arr, eq)
    {
      assert FindIndex(arr, x, eq, 0) <= i;
      assert IsDuplicateAt(arr, eq, j);
    }
  }

  /** The first index of each class is never reported. */
  lemma FirstOccurrenceNotDuplicate<T(!new)>(arr: seq<T>, eq: (T, T) -> bool, j: nat)
    requires j < |arr| && eq(arr[j], arr[j])
    requires forall i :: 0 <= i < j ==> !eq(arr[j], arr[i])
    ensures !IsDuplicateAt(arr, eq, j)
  {
  }

  /** When no element matches an earlier one, there are no duplicates. */
  lemma NoDuplicatesWhenDistinct<T(!new)>(arr: seq<T>, eq: (T, T) -> bool)
    requires ReflexiveOn(arr, eq)
    requires forall i, j :: 0 <= i < j < |arr| ==> !eq(arr[j], arr[i])
    ensures Duplicates(arr, eq) == []
  {
    NoDuplicatesFrom(arr, eq, 0);
  }

  lemma {:induction false} NoDuplicatesFrom<T(!new)>(arr: seq<T>, eq: (T, T) -> bool, k: nat)
    requires k <= |arr| && ReflexiveOn(arr, eq)
    requires forall i, j :: 0 <= i < j < |arr| ==> !eq(arr[j], arr[i])
    ensures DuplicatesFrom(arr, eq, k) == []
    decreases |arr| - k
  {
    if k < |arr| {
      FirstOccurrenceNotDuplicate(arr, eq, k);
      NoDuplicatesFrom(arr, eq, k + 1);
    }
  }
}
