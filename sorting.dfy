/** Sorting and de-duplication of sequences, shared by both jobs. Java's
    `Arrays.sort(char[])` and `Collections.sort(List)` are both modelled by one
    in-place insertion sort, specified by the functional insertion sort `SortBy`.
    Both Java sorts order by a total order here, so any correct sort gives the
    same result (`SortedUnique`). */
module Sorting {

  // ---------------------------------------------------------------------------
  // Orders

  ghost predicate IsTotalPreorder<T(!new)>(le: (T, T) -> bool) {
    && (forall a, b :: le(a, b) || le(b, a))
    && (forall a, b, c :: le(a, b) && le(b, c) ==> le(a, c))
  }

  ghost predicate IsTotalOrder<T(!new)>(le: (T, T) -> bool) {
    && IsTotalPreorder(le)
    && (forall a, b :: le(a, b) && le(b, a) ==> a == b)
  }

  ghost predicate SortedBy<T>(s: seq<T>, le: (T, T) -> bool) {
    forall i, j :: 0 <= i < j < |s| ==> le(s[i], s[j])
  }

  // ---------------------------------------------------------------------------
  // Functional insertion sort

  /** Inserts `x` into `s` from the right: `x` moves left past every element it
      does not follow, exactly as the shifting loop of `InsertionSort` does. */
  function Insert<T>(s: seq<T>, x: T, le: (T, T) -> bool): (r: seq<T>)
    ensures |r| == |s| + 1
    decreases |s|
  {
    if s == [] || le(s[|s| - 1], x) then s + [x]
    else Insert(s[..|s| - 1], x, le) + [s[|s| - 1]]
  }

  /** Sorts `s` by inserting its elements one at a time, left to right. */
  function SortBy<T>(s: seq<T>, le: (T, T) -> bool): (r: seq<T>)
    ensures |r| == |s|
    decreases |s|
  {
    if s == [] then [] else Insert(SortBy(s[..|s| - 1], le), s[|s| - 1], le)
  }

  lemma {:induction false} InsertPermutes<T>(s: seq<T>, x: T, le: (T, T) -> bool)
    ensures multiset(Insert(s, x, le)) == multiset(s) + multiset{x}
    decreases |s|
  {
    if s != [] && !le(s[|s| - 1], x) {
      var init := s[..|s| - 1];
      assert s == init + [s[|s| - 1]];
      InsertPermutes(init, x, le);
    }
  }

  lemma {:induction false} SortByPermutes<T>(s: seq<T>, le: (T, T) -> bool)
    ensures multiset(SortBy(s, le)) == multiset(s)
    decreases |s|
  {
    if s != [] {
      assert s == s[..|s| - 1] + [s[|s| - 1]];
      SortByPermutes(s[..|s| - 1], le);
      InsertPermutes(SortBy(s[..|s| - 1], le), s[|s| - 1], le);
    }
  }

  lemma {:induction false} InsertSorted<T(!new)>(s: seq<T>, x: T, le: (T, T) -> bool)
    requires IsTotalPreorder(le)
    requires SortedBy(s, le)
    ensures SortedBy(Insert(s, x, le), le)
    decreases |s|
  {
    if s == [] || le(s[|s| - 1], x) {
    } else {
      var init, last := s[..|s| - 1], s[|s| - 1];
      assert le(x, last);
      InsertSorted(init, x, le);
      InsertPermutes(init, x, le);
      var r := Insert(init, x, le);
      forall y | y in multiset(r) ensures le(y, last) {
        assert y in multiset(init) + multiset{x};
        if y in multiset(init) {
          var k :| 0 <= k < |init| && init[k] == y;
          assert s[k] == y;
        }
      }
      forall i | 0 <= i < |r| ensures le(r[i], last) {
        assert r[i] in multiset(r);
      }
    }
  }

  /** `SortBy` sorts: its result is ordered and a permutation of its input. */
  lemma {:induction false} SortBySorted<T(!new)>(s: seq<T>, le: (T, T) -> bool)
    requires IsTotalPreorder(le)
    ensures SortedBy(SortBy(s, le), le)
    ensures multiset(SortBy(s, le)) == multiset(s)
    decreases |s|
  {
    SortByPermutes(s, le);
    if s != [] {
      SortBySorted(s[..|s| - 1], le);
      InsertSorted(SortBy(s[..|s| - 1], le), s[|s| - 1], le);
    }
  }

  /** The head of a sorted sequence precedes every element of it. */
  lemma SortedHeadFirst<T(!new)>(a: seq<T>, x: T, le: (T, T) -> bool)
    requires IsTotalPreorder(le)
    requires SortedBy(a, le) && x in a
    ensures le(a[0], x)
  {
    var i :| 0 <= i < |a| && a[i] == x;
    if i == 0 {
      assert le(x, x) || le(x, x);
    }
  }

  /** A sequence is determined by its multiset of elements once it is sorted
      by a total order. */
  lemma {:induction false} SortedUnique<T(!new)>(a: seq<T>, b: seq<T>, le: (T, T) -> bool)
    requires IsTotalOrder(le)
    requires SortedBy(a, le) && SortedBy(b, le)
    requires multiset(a) == multiset(b)
    ensures a == b
    decreases |a|
  {
    assert |a| == |multiset(a)| == |b|;
    if a != [] {
      SameHead(a, b, le);
      TailMultiset(a);
      TailMultiset(b);
      SortedTail(a, le);
      SortedTail(b, le);
      SortedUnique(a[1..], b[1..], le);
      assert a == [a[0]] + a[1..] && b == [b[0]] + b[1..];
    }
  }

  /** Two sorted permutations of each other start with the same element. */
  lemma SameHead<T(!new)>(a: seq<T>, b: seq<T>, le: (T, T) -> bool)
    requires IsTotalOrder(le)
    requires SortedBy(a, le) && SortedBy(b, le)
    requires multiset(a) == multiset(b) && a != [] && b != []
    ensures a[0] == b[0]
  {
    assert b[0] in multiset(a) && a[0] in multiset(b);
    SortedHeadFirst(a, b[0], le);
    SortedHeadFirst(b, a[0], le);
  }

  lemma TailMultiset<T>(a: seq<T>)
    requires a != []
    ensures multiset(a[1..]) == multiset(a) - multiset{a[0]}
  {
    assert a == [a[0]] + a[1..];
  }

  lemma SortedTail<T>(a: seq<T>, le: (T, T) -> bool)
    requires SortedBy(a, le) && a != []
    ensures SortedBy(a[1..], le)
  {
    forall i, j | 0 <= i < j < |a[1..]| ensures le(a[1..][i], a[1..][j]) {
      assert a[1..][i] == a[i + 1] && a[1..][j] == a[j + 1];
    }
  }

  /** Any sorted permutation of `s` is `SortBy(s, le)`. */
  lemma SortedPermutationIsSortBy<T(!new)>(s: seq<T>, r: seq<T>, le: (T, T) -> bool)
    requires IsTotalOrder(le)
    requires SortedBy(r, le) && multiset(r) == multiset(s)
    ensures r == SortBy(s, le)
  {
    SortBySorted(s, le);
    SortedUnique(r, SortBy(s, le), le);
  }

  // ---------------------------------------------------------------------------
  // In-place insertion sort on an array

  /** Sorts `a` in place; the result is `SortBy` of the original contents. */
  method InsertionSort<T>(a: array<T>, le: (T, T) -> bool)
    modifies a
    ensures a[..] == SortBy(old(a[..]), le)
  {
    ghost var orig := a[..];
    var i := 0;
    while i < a.Length
      invariant 0 <= i <= a.Length
      invariant a[..i] == SortBy(orig[..i], le)
      invariant forall k :: i <= k < a.Length ==> a[k] == orig[k]
    {
      ghost var before, next := a[..i], a[i];
      InsertLast(a, i, le);
      SortByStep(orig, i, le);
      assert a[..i + 1] == Insert(before, next, le);
      i := i + 1;
    }
    assert orig == orig[..a.Length];
  }

  /** Sorting one more element of `s` inserts it into the sorted prefix. */
  lemma SortByStep<T>(s: seq<T>, i: nat, le: (T, T) -> bool)
    requires i < |s|
    ensures SortBy(s[..i + 1], le) == Insert(SortBy(s[..i], le), s[i], le)
  {
    assert s[..i + 1][..i] == s[..i];
  }

  /** One step of the insertion sort: moves `a[i]` left into the prefix `a[..i]`,
      shifting every element it does not follow one place right. */
  method InsertLast<T>(a: array<T>, i: nat, le: (T, T) -> bool)
    requires i < a.Length
    modifies a
    ensures a[..i + 1] == Insert(old(a[..i]), old(a[i]), le)
    ensures forall k :: i < k < a.Length ==> a[k] == old(a[k])
  {
    var x := a[i];
    ghost var p := a[..i];
    var j := i;
    assert p[..j] == p && p[j..] == [];
    while j > 0 && !le(a[j - 1], x)
      invariant 0 <= j <= i
      invariant forall k :: 0 <= k < j ==> a[k] == p[k]
      invariant forall k :: j < k <= i ==> a[k] == p[k - 1]
      invariant forall k :: i < k < a.Length ==> a[k] == old(a[k])
      invariant Insert(p, x, le) == Insert(p[..j], x, le) + p[j..]
    {
      ShiftStep(p, j, x, le);
      a[j] := a[j - 1];
      j := j - 1;
    }
    InsertStops(p, j, x, le);
    a[j] := x;
    PlaceAt(a[..i + 1], p, j, x);
  }

  /** The insertion stops in front of an element `x` follows. */
  lemma InsertStops<T>(p: seq<T>, j: nat, x: T, le: (T, T) -> bool)
    requires j <= |p|
    requires j == 0 || le(p[j - 1], x)
    ensures Insert(p[..j], x, le) == p[..j] + [x]
  {
    if j > 0 {
      assert p[..j][j - 1] == p[j - 1];
    }
  }

  /** The array prefix after the last write of `InsertLast`, as a sequence. */
  lemma PlaceAt<T>(b: seq<T>, p: seq<T>, j: nat, x: T)
    requires |b| == |p| + 1 && j <= |p|
    requires forall k :: 0 <= k < j ==> b[k] == p[k]
    requires b[j] == x
    requires forall k :: j < k < |b| ==> b[k] == p[k - 1]
    ensures b == p[..j] + [x] + p[j..]
  {
  }

  /** Moving `x` one place left past `p[j - 1]`, which it does not follow. */
  lemma ShiftStep<T>(p: seq<T>, j: nat, x: T, le: (T, T) -> bool)
    requires 0 < j <= |p| && !le(p[j - 1], x)
    ensures Insert(p[..j], x, le) + p[j..] == Insert(p[..j - 1], x, le) + p[j - 1..]
  {
    assert p[..j][..j - 1] == p[..j - 1];
    assert p[j - 1..] == [p[j - 1]] + p[j..];
  }

  // ---------------------------------------------------------------------------
  // De-duplication in first-occurrence order

  /** The set of elements of `s`. */
  function Elements<T>(s: seq<T>): set<T> {
    set x | x in s
  }

  predicate NoDuplicates<T(==)>(s: seq<T>) {
    forall i, j :: 0 <= i < j < |s| ==> s[i] != s[j]
  }

  /** The distinct elements of `s`, each at the place it first occurs. */
  function Dedup<T(==,!new)>(s: seq<T>): (r: seq<T>)
    ensures NoDuplicates(r)
    ensures forall x :: x in r <==> x in s
    decreases |s|
  {
    if s == [] then []
    else
      var d, last := Dedup(s[..|s| - 1]), s[|s| - 1];
      assert s == s[..|s| - 1] + [last];
      if last in d then d else d + [last]
  }

  /** The index at which `x` first occurs in `s`. */
  function FirstIndex<T(==)>(s: seq<T>, x: T): (i: nat)
    requires x in s
    ensures i < |s| && s[i] == x
    ensures forall k :: 0 <= k < i ==> s[k] != x
  {
    if s[0] == x then 0 else 1 + FirstIndex(s[1..], x)
  }

  /** `Dedup` keeps the elements in the order of their first occurrences. */
  lemma {:induction false} DedupFirstOccurrenceOrder<T(!new)>(s: seq<T>)
    ensures forall i, j :: 0 <= i < j < |Dedup(s)| ==>
      FirstIndex(s, Dedup(s)[i]) < FirstIndex(s, Dedup(s)[j])
    decreases |s|
  {
    if s != [] {
      var init, last := s[..|s| - 1], s[|s| - 1];
      assert s == init + [last];
      DedupFirstOccurrenceOrder(init);
      DedupOrderStep(init, last);
    }
  }

  /** The step of `DedupFirstOccurrenceOrder`: one more element at the end. */
  lemma DedupOrderStep<T(!new)>(init: seq<T>, last: T)
    requires forall i, j :: 0 <= i < j < |Dedup(init)| ==>
      FirstIndex(init, Dedup(init)[i]) < FirstIndex(init, Dedup(init)[j])
    ensures forall i, j :: 0 <= i < j < |Dedup(init + [last])| ==>
      FirstIndex(init + [last], Dedup(init + [last])[i]) < FirstIndex(init + [last], Dedup(init + [last])[j])
  {
    var s := init + [last];
    assert s[..|s| - 1] == init && s[|s| - 1] == last;
    var d, r := Dedup(init), Dedup(s);
    forall i | 0 <= i < |d| ensures FirstIndex(s, d[i]) == FirstIndex(init, d[i]) < |init| {
      FirstIndexPrefix(init, [last], d[i]);
    }
    if last in d {
      assert r == d;
    } else {
      assert r == d + [last];
      assert last !in init;
      assert FirstIndex(s, last) == |init|;
      forall i, j | 0 <= i < j < |r| ensures FirstIndex(s, r[i]) < FirstIndex(s, r[j]) {
        assert r[i] == d[i];
        if j < |d| {
          assert r[j] == d[j];
        }
      }
    }
  }

  lemma {:induction false} FirstIndexPrefix<T>(a: seq<T>, b: seq<T>, x: T)
    requires x in a
    ensures FirstIndex(a + b, x) == FirstIndex(a, x)
    decreases |a|
  {
    if a[0] != x {
      assert (a + b)[1..] == a[1..] + b;
      FirstIndexPrefix(a[1..], b, x);
    }
  }

  lemma {:induction false} NoDuplicatesOccurOnce<T>(s: seq<T>, x: T)
    requires NoDuplicates(s)
    ensures multiset(s)[x] <= 1
    decreases |s|
  {
    if s != [] {
      assert s == [s[0]] + s[1..];
      NoDuplicatesOccurOnce(s[1..], x);
      if s[0] == x {
        assert x !in s[1..];
      }
    }
  }

  /** A permutation of a duplicate-free sequence is duplicate-free. */
  lemma PermutationNoDuplicates<T>(a: seq<T>, b: seq<T>)
    requires NoDuplicates(a) && multiset(a) == multiset(b)
    ensures NoDuplicates(b)
  {
    forall i, j | 0 <= i < j < |b| ensures b[i] != b[j] {
      if b[i] == b[j] {
        assert b == b[..i] + [b[i]] + b[i + 1..j] + [b[j]] + b[j + 1..];
        assert multiset(b)[b[i]] >= 2;
        NoDuplicatesOccurOnce(a, b[i]);
      }
    }
  }

  /** A sequence without duplicates is its own `Dedup`. */
  lemma DedupOfDistinct<T(!new)>(s: seq<T>)
    requires NoDuplicates(s)
    ensures Dedup(s) == s
    decreases |s|
  {
    if s != [] {
      var init := s[..|s| - 1];
      assert s == init + [s[|s| - 1]];
      DedupOfDistinct(init);
    }
  }
}
