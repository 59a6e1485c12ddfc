/** Sets of strings in their natural (`compareTo`) order: the iteration order of
    a `java.util.TreeSet<String>`, and the order `Collections.sort` puts a list
    of distinct strings in. */
module TreeSetOrder {
  import opened JavaString
  import opened Sorting

  predicate IsLeast(m: string, s: set<string>) {
    m in s && forall y :: y in s ==> Le(m, y)
  }

  predicate StrictlyAscending(xs: seq<string>) {
    forall i, j :: 0 <= i < j < |xs| ==> Less(xs[i], xs[j])
  }

  /** A non-empty finite set of strings has a least element. */
  lemma {:induction false} LeastExists(s: set<string>)
    requires s != {}
    ensures exists m :: IsLeast(m, s)
    decreases |s|
  {
    var x :| x in s;
    if s - {x} == {} {
      assert s == {x};
      LeTotal(x, x);
      assert IsLeast(x, s);
    } else {
      LeastExists(s - {x});
      var m :| IsLeast(m, s - {x});
      LeTotal(m, x);
      if Le(m, x) {
        assert IsLeast(m, s);
      } else {
        forall y | y in s ensures Le(x, y) {
          if y != x {
            LeTransitive(x, m, y);
          } else {
            LeTotal(x, x);
          }
        }
        assert IsLeast(x, s);
      }
    }
  }

  lemma LeastUnique(m1: string, m2: string, s: set<string>)
    requires IsLeast(m1, s) && IsLeast(m2, s)
    ensures m1 == m2
  {
    CompareToAntisymmetric(m1, m2);
  }

  /** The elements of `s` in ascending order, as a `TreeSet` iterates them:
      the least element first, then the rest. */
  ghost function Ascending(s: set<string>): (r: seq<string>)
    ensures |r| == |s|
    decreases |s|
  {
    if s == {} then []
    else
      LeastExists(s);
      var m :| IsLeast(m, s);
      [m] + Ascending(s - {m})
  }

  /** `Ascending(s)` lists exactly the elements of `s`, each smaller than the next. */
  lemma {:induction false} AscendingSpec(s: set<string>)
    ensures StrictlyAscending(Ascending(s))
    ensures forall x :: x in Ascending(s) <==> x in s
    decreases |s|
  {
    if s != {} {
      var r := Ascending(s);
      var m := r[0];
      var rest := Ascending(s - {m});
      assert IsLeast(m, s) && r == [m] + rest;
      AscendingSpec(s - {m});
      forall k | k in rest ensures Less(m, k) {
        assert k in s && k != m;
      }
      AscendingCons(m, rest);
    }
  }

  /** A string below every element of a strictly ascending sequence can be put
      in front of it. */
  lemma AscendingCons(k: string, ks: seq<string>)
    requires StrictlyAscending(ks)
    requires forall k' :: k' in ks ==> Less(k, k')
    ensures StrictlyAscending([k] + ks)
  {
    var xs := [k] + ks;
    forall i, j | 0 <= i < j < |xs| ensures Less(xs[i], xs[j]) {
      assert xs[j] == ks[j - 1] && xs[j] in ks;
      if i > 0 {
        assert xs[i] == ks[i - 1];
      }
    }
  }

  /** The head of a strictly ascending sequence is its least element. */
  lemma HeadIsLeast(xs: seq<string>, s: set<string>)
    requires xs != [] && StrictlyAscending(xs)
    requires forall x :: x in xs <==> x in s
    ensures IsLeast(xs[0], s)
  {
    forall y | y in s ensures Le(xs[0], y) {
      var i :| 0 <= i < |xs| && xs[i] == y;
      if i == 0 { LeTotal(y, y); }
    }
  }

  /** Dropping the head of a strictly ascending sequence drops its least element. */
  lemma AscendingTail(xs: seq<string>, s: set<string>)
    requires xs != [] && StrictlyAscending(xs)
    requires forall x :: x in xs <==> x in s
    ensures StrictlyAscending(xs[1..])
    ensures forall x :: x in xs[1..] <==> x in s - {xs[0]}
  {
    forall x ensures x in xs[1..] <==> x in s - {xs[0]} {
      if x in xs[1..] {
        var i :| 1 <= i < |xs| && xs[i] == x;
        assert Less(xs[0], xs[i]);
      }
    }
  }

  /** A strictly ascending sequence is as long as its set of elements. */
  lemma {:induction false} AscendingLength(xs: seq<string>, s: set<string>)
    requires StrictlyAscending(xs)
    requires forall x :: x in xs <==> x in s
    ensures |xs| == |s|
    decreases |xs|
  {
    if xs == [] {
      assert s == {};
    } else {
      AscendingTail(xs, s);
      AscendingLength(xs[1..], s - {xs[0]});
    }
  }

  /** Two strictly ascending sequences with the same elements are equal. */
  lemma {:induction false} StrictlyAscendingUnique(xs: seq<string>, ys: seq<string>, s: set<string>)
    requires StrictlyAscending(xs) && StrictlyAscending(ys)
    requires forall x :: x in xs <==> x in s
    requires forall y :: y in ys <==> y in s
    ensures xs == ys
    decreases |xs|
  {
    AscendingLength(xs, s);
    AscendingLength(ys, s);
    if xs != [] {
      HeadIsLeast(xs, s);
      HeadIsLeast(ys, s);
      LeastUnique(xs[0], ys[0], s);
      var m := xs[0];
      AscendingTail(xs, s);
      AscendingTail(ys, s);
      StrictlyAscendingUnique(xs[1..], ys[1..], s - {m});
      assert xs == [m] + xs[1..] && ys == [m] + ys[1..];
    }
  }

  /** A strictly ascending sequence is the ascending enumeration of its elements. */
  lemma AscendingUnique(xs: seq<string>, s: set<string>)
    requires StrictlyAscending(xs)
    requires forall x :: x in xs <==> x in s
    ensures xs == Ascending(s)
  {
    AscendingSpec(s);
    StrictlyAscendingUnique(xs, Ascending(s), s);
  }

  /** The ascending enumeration starts with the least element, followed by the
      ascending enumeration of the others: a `TreeSet` iterator's first step. */
  lemma AscendingFirst(m: string, s: set<string>)
    requires IsLeast(m, s)
    ensures Ascending(s) == [m] + Ascending(s - {m})
  {
    var rest := Ascending(s - {m});
    AscendingSpec(s - {m});
    forall k | k in rest ensures Less(m, k) {
      assert k in s && k != m;
    }
    AscendingCons(m, rest);
    AscendingUnique([m] + rest, s);
  }

  /** `Le` is a total order, as `Collections.sort` and `TreeSet` require. */
  lemma LeTotalOrder()
    ensures IsTotalOrder(Le)
  {
    LeIsTotalOrder();
  }

  /** Sorting a duplicate-free list of strings yields the ascending enumeration
      of its elements. */
  lemma SortedDistinctIsAscending(xs: seq<string>, s: set<string>)
    requires SortedBy(xs, Le) && NoDuplicates(xs)
    requires forall x :: x in xs <==> x in s
    ensures xs == Ascending(s)
  {
    forall i, j | 0 <= i < j < |xs| ensures Less(xs[i], xs[j]) {
      assert Le(xs[i], xs[j]) && xs[i] != xs[j];
    }
    AscendingUnique(xs, s);
  }
}
