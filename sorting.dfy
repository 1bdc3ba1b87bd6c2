/**
 * A stable sort by a comparator. Python's `list.sort(key=..., reverse=True)`
 * and JavaScript's `Array.prototype.sort` (stable since ES2019) behave as
 * this sort does: the result is ordered by the comparator, is a permutation
 * of the input, and keeps the input order among elements the comparator
 * ranks equal. The history's ORDER BY is modelled with it too, which fixes
 * rowid order among ties where SQL leaves that order open.
 */
module Sorting {

  /** `le(a, b)` says that `a` may be placed before `b`: total and transitive. */
  ghost predicate TotalPreorder<T(!new)>(le: (T, T) -> bool)
  {
    && (forall a, b :: le(a, b) || le(b, a))
    && (forall a, b, c :: le(a, b) && le(b, c) ==> le(a, c))
  }

  ghost predicate SortedBy<T>(s: seq<T>, le: (T, T) -> bool)
  {
    forall i, j | 0 <= i < j < |s| :: le(s[i], s[j])
  }

  /** The elements of `s` that satisfy `p`, in their order in `s`. */
  function Filter<T>(s: seq<T>, p: T -> bool): (r: seq<T>)
    ensures |r| <= |s|
    ensures forall x <- r :: x in s && p(x)
  {
    if s == [] then [] else (if p(s[0]) then [s[0]] else []) + Filter(s[1..], p)
  }

  /** Every element that satisfies `p` is kept. */
  lemma {:induction false} FilterKeeps<T>(s: seq<T>, p: T -> bool)
    ensures forall x <- s :: p(x) ==> x in Filter(s, p)
  {
    if s != [] {
      FilterKeeps(s[1..], p);
      assert forall x <- s :: x == s[0] || x in s[1..];
    }
  }

  /** Filtering by a predicate that holds everywhere keeps the whole list. */
  lemma {:induction false} FilterAll<T>(s: seq<T>, p: T -> bool)
    requires forall x <- s :: p(x)
    ensures Filter(s, p) == s
  {
    if s != [] {
      assert forall x <- s[1..] :: x in s;
      FilterAll(s[1..], p);
      assert s == [s[0]] + s[1..];
    }
  }

  /** Filtering twice is filtering once by both predicates. */
  lemma {:induction false} FilterFilter<T>(s: seq<T>, p: T -> bool, q: T -> bool, both: T -> bool)
    requires forall x <- s :: both(x) == (p(x) && q(x))
    ensures Filter(Filter(s, p), q) == Filter(s, both)
  {
    if s != [] {
      assert forall x <- s[1..] :: x in s;
      FilterFilter(s[1..], p, q, both);
      assert both(s[0]) == (p(s[0]) && q(s[0]));
      if p(s[0]) {
        assert Filter(s, p) == [s[0]] + Filter(s[1..], p);
        FilterCons(s[0], Filter(s[1..], p), q);
        assert Filter(s, both) == (if both(s[0]) then [s[0]] else []) + Filter(s[1..], both);
      } else {
        assert Filter(s, p) == Filter(s[1..], p);
      }
    }
  }

  /** The elements the comparator ranks equal to `z`. */
  function RankedWith<T>(le: (T, T) -> bool, z: T): T -> bool
  {
    x => le(x, z) && le(z, x)
  }

  /** Places `x` in front of the first element it may precede. */
  function Insert<T>(x: T, s: seq<T>, le: (T, T) -> bool): (r: seq<T>)
    ensures multiset(r) == multiset(s) + multiset{x}
  {
    if s == [] || le(x, s[0]) then [x] + s
    else
      assert s == [s[0]] + s[1..];
      [s[0]] + Insert(x, s[1..], le)
  }

  /** Insertion sort: the head goes in front of every later element it ranks equal to. */
  function Sort<T>(s: seq<T>, le: (T, T) -> bool): (r: seq<T>)
    ensures multiset(r) == multiset(s)
  {
    if s == [] then []
    else
      assert s == [s[0]] + s[1..];
      Insert(s[0], Sort(s[1..], le), le)
  }

  lemma SortMembers<T>(s: seq<T>, le: (T, T) -> bool)
    ensures forall x <- Sort(s, le) :: x in s
  {
    var r := Sort(s, le);
    forall x <- r ensures x in s {
      assert x in multiset(r);
    }
  }

  /** Sorting keeps exactly the elements it was given. */
  lemma SortSameElements<T>(s: seq<T>, le: (T, T) -> bool)
    ensures forall x :: x in Sort(s, le) <==> x in s
  {
    var r := Sort(s, le);
    forall x ensures x in r <==> x in s {
      assert x in r <==> x in multiset(r);
      assert x in s <==> x in multiset(s);
    }
  }

  /**
   * Under a comparator that tells any two distinct elements apart, a list
   * without repeats has one sorted arrangement: the result does not depend
   * on the order the elements came in.
   */
  lemma {:induction false} SortedUnique<T(!new)>(r1: seq<T>, r2: seq<T>, le: (T, T) -> bool)
    requires TotalPreorder(le)
    requires forall a, b :: le(a, b) && le(b, a) ==> a == b
    requires SortedBy(r1, le) && SortedBy(r2, le) && Distinct(r1) && Distinct(r2)
    requires |r1| == |r2| && forall x :: x in r1 <==> x in r2
    ensures r1 == r2
  {
    if r1 != [] {
      assert forall k | 0 <= k < |r1| :: le(r1[0], r1[k]);
      assert forall k | 0 <= k < |r2| :: le(r2[0], r2[k]);
      assert r1[0] in r2 && r2[0] in r1;
      var i :| 0 <= i < |r2| && r2[i] == r1[0];
      var j :| 0 <= j < |r1| && r1[j] == r2[0];
      assert le(r2[0], r1[0]) && le(r1[0], r2[0]);
      assert r1[0] == r2[0];
      var t1, t2 := r1[1..], r2[1..];
      assert Distinct(t1) && Distinct(t2);
      assert SortedBy(t1, le) && SortedBy(t2, le);
      forall x ensures x in t1 <==> x in t2 {
        if x in t1 {
          var k :| 0 <= k < |t1| && t1[k] == x;
          assert r1[k + 1] == x && x != r1[0];
          assert x in r1 && x in r2;
          var m :| 0 <= m < |r2| && r2[m] == x;
          assert m != 0 && t2[m - 1] == x;
        }
        if x in t2 {
          var k :| 0 <= k < |t2| && t2[k] == x;
          assert r2[k + 1] == x && x != r2[0];
          assert x in r2 && x in r1;
          var m :| 0 <= m < |r1| && r1[m] == x;
          assert m != 0 && t1[m - 1] == x;
        }
      }
      SortedUnique(t1, t2, le);
      assert r1 == [r1[0]] + t1 && r2 == [r2[0]] + t2;
    }
  }

  lemma SortLength<T>(s: seq<T>, le: (T, T) -> bool)
    ensures |Sort(s, le)| == |s|
  {
    assert |multiset(Sort(s, le))| == |multiset(s)|;
  }

  lemma {:induction false} InsertSorted<T(!new)>(x: T, s: seq<T>, le: (T, T) -> bool)
    requires TotalPreorder(le)
    requires SortedBy(s, le)
    ensures SortedBy(Insert(x, s, le), le)
  {
    if s == [] || le(x, s[0]) {
      var r := [x] + s;
      forall i, j | 0 <= i < j < |r| ensures le(r[i], r[j]) {
        if i == 0 && j > 1 { assert le(x, s[0]) && le(s[0], s[j - 1]); }
      }
    } else {
      var tail := Insert(x, s[1..], le);
      InsertSorted(x, s[1..], le);
      var r := [s[0]] + tail;
      forall j | 0 <= j < |tail| ensures le(s[0], tail[j]) {
        assert tail[j] in multiset(tail);
        assert tail[j] in multiset(s[1..]) || tail[j] == x;
        if tail[j] != x {
          var k :| 0 <= k < |s[1..]| && s[1..][k] == tail[j];
          assert le(s[0], s[k + 1]);
        }
      }
      forall i, j | 0 <= i < j < |r| ensures le(r[i], r[j]) {
        if i == 0 { assert r[j] == tail[j - 1]; } else { assert r[i] == tail[i - 1] && r[j] == tail[j - 1]; }
      }
    }
  }

  /** The result is ordered by the comparator. */
  lemma {:induction false} SortSorted<T(!new)>(s: seq<T>, le: (T, T) -> bool)
    requires TotalPreorder(le)
    ensures SortedBy(Sort(s, le), le)
  {
    if s != [] {
      SortSorted(s[1..], le);
      InsertSorted(s[0], Sort(s[1..], le), le);
    }
  }

  predicate Distinct<T(==)>(s: seq<T>)
  {
    forall i, j | 0 <= i < j < |s| :: s[i] != s[j]
  }

  lemma {:induction false} InsertDistinct<T>(x: T, s: seq<T>, le: (T, T) -> bool)
    requires Distinct(s) && x !in s
    ensures Distinct(Insert(x, s, le))
  {
    if s == [] || le(x, s[0]) {
      var r := [x] + s;
      forall i, j | 0 <= i < j < |r| ensures r[i] != r[j] {
        if i == 0 { assert r[j] == s[j - 1]; } else { assert r[i] == s[i - 1] && r[j] == s[j - 1]; }
      }
    } else {
      assert Distinct(s[1..]);
      var tail := Insert(x, s[1..], le);
      InsertDistinct(x, s[1..], le);
      assert s[0] !in tail by {
        assert s[0] != x;
        forall k | 0 <= k < |s[1..]| ensures s[1..][k] != s[0] {
          assert s[1..][k] == s[k + 1];
        }
        assert s[0] !in multiset(s[1..]);
        assert multiset(tail) == multiset(s[1..]) + multiset{x};
        assert s[0] !in multiset(tail);
      }
      var r := [s[0]] + tail;
      forall i, j | 0 <= i < j < |r| ensures r[i] != r[j] {
        if i == 0 { assert r[j] == tail[j - 1]; } else { assert r[i] == tail[i - 1] && r[j] == tail[j - 1]; }
      }
    }
  }

  /** A rearrangement of a list without repeats has no repeats. */
  lemma PermutationDistinct<T>(s: seq<T>, t: seq<T>)
    requires Distinct(s) && multiset(t) == multiset(s)
    ensures Distinct(t)
  {
    forall i, j | 0 <= i < j < |t| ensures t[i] != t[j] {
      if t[i] == t[j] {
        assert multiset(t)[t[i]] >= 2 by {
          var rest := t[..i] + t[i + 1..];
          assert t == t[..i] + [t[i]] + t[i + 1..];
          assert t[j] in rest by { assert rest[j - 1] == t[j]; }
        }
        DistinctCount(s, t[i]);
      }
    }
  }

  lemma {:induction false} DistinctCount<T>(s: seq<T>, x: T)
    requires Distinct(s)
    ensures multiset(s)[x] <= 1
  {
    if s != [] {
      var init := s[..|s| - 1];
      assert s == init + [s[|s| - 1]];
      assert Distinct(init);
      DistinctCount(init, x);
      if s[|s| - 1] == x {
        assert x !in init by {
          forall k | 0 <= k < |init| ensures init[k] != x { assert init[k] == s[k]; }
        }
      }
    }
  }

  lemma {:induction false} SortDistinct<T>(s: seq<T>, le: (T, T) -> bool)
    requires Distinct(s)
    ensures Distinct(Sort(s, le))
  {
    if s != [] {
      assert Distinct(s[1..]);
      SortDistinct(s[1..], le);
      assert s[0] !in Sort(s[1..], le) by {
        assert s[0] !in multiset(s[1..]);
        assert multiset(Sort(s[1..], le)) == multiset(s[1..]);
      }
      InsertDistinct(s[0], Sort(s[1..], le), le);
    }
  }

  lemma FilterCons<T>(x: T, s: seq<T>, p: T -> bool)
    ensures Filter([x] + s, p) == (if p(x) then [x] else []) + Filter(s, p)
  {
    assert ([x] + s)[1..] == s;
  }

  lemma {:induction false} InsertKeepsRank<T(!new)>(x: T, s: seq<T>, le: (T, T) -> bool, z: T)
    requires TotalPreorder(le)
    ensures Filter(Insert(x, s, le), RankedWith(le, z))
         == (if RankedWith(le, z)(x) then [x] else []) + Filter(s, RankedWith(le, z))
  {
    var p := RankedWith(le, z);
    if s == [] || le(x, s[0]) {
      FilterCons(x, s, p);
    } else {
      InsertKeepsRank(x, s[1..], le, z);
      SameRankOrdered(le, z, x, s[0]);
      InsertPastHead(x, s, le, p);
    }
  }

  /** Two elements ranked equal to `z` may be placed either way round. */
  lemma SameRankOrdered<T(!new)>(le: (T, T) -> bool, z: T, x: T, y: T)
    requires TotalPreorder(le)
    ensures RankedWith(le, z)(x) && RankedWith(le, z)(y) ==> le(x, y)
  {
    if RankedWith(le, z)(x) && RankedWith(le, z)(y) {
      assert le(x, z) && le(z, y);
    }
  }

  /** Inserting past the head keeps what the filter sees of the head in front. */
  lemma InsertPastHead<T>(x: T, s: seq<T>, le: (T, T) -> bool, p: T -> bool)
    requires s != [] && !le(x, s[0])
    requires !(p(x) && p(s[0]))
    requires Filter(Insert(x, s[1..], le), p) == (if p(x) then [x] else []) + Filter(s[1..], p)
    ensures Filter(Insert(x, s, le), p) == (if p(x) then [x] else []) + Filter(s, p)
  {
    var tail := Insert(x, s[1..], le);
    var rest := Filter(s[1..], p);
    var head := if p(s[0]) then [s[0]] else [];
    var moved := if p(x) then [x] else [];
    assert Insert(x, s, le) == [s[0]] + tail;
    FilterCons(s[0], tail, p);
    assert Filter(Insert(x, s, le), p) == head + (moved + rest);
    assert Filter(s, p) == head + rest;
    SwapEmpty(head, moved, rest);
  }

  /** When one of two pieces is empty, their order does not matter. */
  lemma SwapEmpty<T>(a: seq<T>, b: seq<T>, r: seq<T>)
    requires a == [] || b == []
    ensures a + (b + r) == b + (a + r)
  {
    if a == [] {
      assert a + (b + r) == b + r == b + (a + r);
    } else {
      assert a + (b + r) == a + r == b + (a + r);
    }
  }


  /** Stability: the elements ranked equal to any `z` appear in the result in their input order. */
  lemma {:induction false} SortStable<T(!new)>(s: seq<T>, le: (T, T) -> bool, z: T)
    requires TotalPreorder(le)
    ensures Filter(Sort(s, le), RankedWith(le, z)) == Filter(s, RankedWith(le, z))
  {
    if s != [] {
      SortStable(s[1..], le, z);
      InsertKeepsRank(s[0], Sort(s[1..], le), le, z);
    }
  }
}
