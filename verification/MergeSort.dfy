/** The theory of the natural merge sort in lib/kernel/list.c, on sequences: strict weak
    orders, merging, stability and natural runs. */
module MergeSort {
  import opened Slices

  /** What list_sort demands of the comparison function, on the elements of s. */
  ghost predicate StrictWeakOrder<T>(less: (T, T) -> bool, s: seq<T>)
  {
    && (forall x :: x in s ==> !less(x, x))
    && (forall x, y, z :: x in s && y in s && z in s ==> Ordered(less, x, y, z))
  }

  /** Transitivity of less, and of "not less" in the other direction. */
  ghost predicate Ordered<T>(less: (T, T) -> bool, x: T, y: T, z: T)
  {
    && (less(x, y) && less(y, z) ==> less(x, z))
    && (less(x, z) ==> less(x, y) || less(y, z))
  }

  ghost predicate Sorted<T>(less: (T, T) -> bool, s: seq<T>)
  {
    forall i, j :: 0 <= i < j < |s| ==> !less(s[j], s[i])
  }

  ghost predicate Equivalent<T>(less: (T, T) -> bool, x: T, y: T)
  {
    !less(x, y) && !less(y, x)
  }

  /** The elements of s equivalent to x, in order. */
  ghost function Class<T>(less: (T, T) -> bool, s: seq<T>, x: T): seq<T>
  {
    if s == [] then []
    else (if Equivalent(less, s[0], x) then [s[0]] else []) + Class(less, s[1..], x)
  }

  /** Reordering s into t keeps every group of equivalent elements in order. */
  ghost predicate Stable<T>(less: (T, T) -> bool, s: seq<T>, t: seq<T>)
  {
    multiset(s) == multiset(t) && forall x :: x in s ==> Class(less, s, x) == Class(less, t, x)
  }

  lemma SameMembers<T>(s: seq<T>, t: seq<T>)
    requires multiset(s) == multiset(t)
    ensures |s| == |t| && forall x :: x in s <==> x in t
  {
    assert forall x :: x in s <==> x in multiset(s);
    assert forall x :: x in t <==> x in multiset(t);
    assert |s| == |multiset(s)| && |t| == |multiset(t)|;
  }

  lemma StableTransitive<T>(less: (T, T) -> bool, s: seq<T>, t: seq<T>, u: seq<T>)
    requires Stable(less, s, t) && Stable(less, t, u)
    ensures Stable(less, s, u)
  {
    SameMembers(s, t);
  }

  lemma {:induction false} ClassConcat<T>(less: (T, T) -> bool, s: seq<T>, t: seq<T>, x: T)
    ensures Class(less, s + t, x) == Class(less, s, x) + Class(less, t, x)
    decreases |s|
  {
    if s == [] {
      assert s + t == t;
    } else {
      ClassConcat(less, s[1..], t, x);
      CatTail(s, t);
      if Equivalent(less, s[0], x) { CatAssoc([s[0]], Class(less, s[1..], x), Class(less, t, x)); }
    }
  }

  // ----- merging

  /** The merge computed by inplace_merge: on ties, elements of a come first. */
  ghost function Merge<T>(less: (T, T) -> bool, a: seq<T>, b: seq<T>): seq<T>
    decreases |a| + |b|
  {
    if a == [] then b
    else if b == [] then a
    else if !less(b[0], a[0]) then [a[0]] + Merge(less, a[1..], b)
    else [b[0]] + Merge(less, a, b[1..])
  }

  lemma HeadMultiset<T>(s: seq<T>)
    requires s != []
    ensures multiset(s) == multiset{s[0]} + multiset(s[1..])
  {
    assert s == [s[0]] + s[1..];
  }

  lemma {:induction false} MergeMultiset<T>(less: (T, T) -> bool, a: seq<T>, b: seq<T>)
    ensures multiset(Merge(less, a, b)) == multiset(a) + multiset(b)
    decreases |a| + |b|
  {
    if a != [] && b != [] {
      if !less(b[0], a[0]) {
        MergeMultiset(less, a[1..], b);
        HeadMultiset(a);
        HeadMultiset([a[0]] + Merge(less, a[1..], b));
      } else {
        MergeMultiset(less, a, b[1..]);
        HeadMultiset(b);
        HeadMultiset([b[0]] + Merge(less, a, b[1..]));
      }
    }
  }

  lemma MergeMembers<T>(less: (T, T) -> bool, a: seq<T>, b: seq<T>, x: T)
    requires x in Merge(less, a, b)
    ensures x in a || x in b
  {
    MergeMultiset(less, a, b);
    assert x in multiset(Merge(less, a, b));
  }

  lemma {:induction false} MergeSorted<T>(less: (T, T) -> bool, a: seq<T>, b: seq<T>, s: seq<T>)
    requires Sorted(less, a) && Sorted(less, b) && StrictWeakOrder(less, s)
    requires (forall x :: x in a ==> x in s) && (forall x :: x in b ==> x in s)
    ensures Sorted(less, Merge(less, a, b))
    decreases |a| + |b|
  {
    if a != [] && b != [] {
      assert Ordered(less, b[0], a[0], b[0]);
      if !less(b[0], a[0]) {
        MergeSorted(less, a[1..], b, s);
        LeastFirst(less, a[0], a, b, Merge(less, a[1..], b), s) by {
          forall x | x in Merge(less, a[1..], b) ensures x in a || x in b { MergeMembers(less, a[1..], b, x); }
        }
      } else {
        MergeSorted(less, a, b[1..], s);
        LeastFirst(less, b[0], b, a, Merge(less, a, b[1..]), s) by {
          forall x | x in Merge(less, a, b[1..]) ensures x in a || x in b { MergeMembers(less, a, b[1..], x); }
        }
      }
    }
  }

  /** Putting a least element in front of a sorted merge keeps it sorted. */
  lemma LeastFirst<T>(less: (T, T) -> bool, h: T, a: seq<T>, b: seq<T>, m: seq<T>, s: seq<T>)
    requires StrictWeakOrder(less, s) && Sorted(less, a) && Sorted(less, b) && Sorted(less, m)
    requires a != [] && b != [] && h == a[0] && !less(b[0], h)
    requires (forall x :: x in a ==> x in s) && (forall x :: x in b ==> x in s)
    requires forall x :: x in m ==> x in a || x in b
    ensures Sorted(less, [h] + m)
  {
    forall x | x in m
      ensures !less(x, h)
    {
      if x in a {
        var i :| 0 <= i < |a| && a[i] == x;
        assert !less(a[0], a[0]);
      } else {
        var i :| 0 <= i < |b| && b[i] == x;
        assert b[0] in s && Ordered(less, x, b[0], h);
      }
    }
  }

  /** Merging sorted runs is stable. */
  lemma {:induction false} MergeClass<T>(less: (T, T) -> bool, a: seq<T>, b: seq<T>, s: seq<T>, x: T)
    requires Sorted(less, a) && Sorted(less, b) && StrictWeakOrder(less, s) && x in s
    requires (forall y :: y in a ==> y in s) && (forall y :: y in b ==> y in s)
    ensures Class(less, Merge(less, a, b), x) == Class(less, a, x) + Class(less, b, x)
    decreases |a| + |b|
  {
    if a != [] && b != [] {
      if !less(b[0], a[0]) {
        assert Merge(less, a, b) == [a[0]] + Merge(less, a[1..], b);
        MergeClass(less, a[1..], b, s, x);
      } else {
        assert Merge(less, a, b) == [b[0]] + Merge(less, a, b[1..]);
        MergeClass(less, a, b[1..], s, x);
        if Equivalent(less, b[0], x) {
          ClassEmpty(less, a, b[0], x, s);
        }
      }
    }
  }

  /** If everything in a is above z, nothing in a is equivalent to anything equivalent to z. */
  lemma {:induction false} ClassEmpty<T>(less: (T, T) -> bool, a: seq<T>, z: T, x: T, s: seq<T>)
    requires Sorted(less, a) && StrictWeakOrder(less, s) && (forall y :: y in a ==> y in s) && z in s && x in s
    requires a != [] ==> less(z, a[0])
    requires Equivalent(less, z, x)
    ensures Class(less, a, x) == []
    decreases |a|
  {
    if a != [] {
      if |a| > 1 {
        assert a[0] in s && a[1] in s;
        assert Ordered(less, z, a[1], a[0]);
      }
      assert a[0] in s && Ordered(less, z, x, a[0]);
      ClassEmpty(less, a[1..], z, x, s);
    }
  }

  // ----- natural runs

  /** The number of maximal nondecreasing runs. */
  ghost function Runs<T>(less: (T, T) -> bool, s: seq<T>): nat
  {
    if |s| <= 1 then |s|
    else (if less(s[1], s[0]) then 1 else 0) + Runs(less, s[1..])
  }

  lemma {:induction false} RunsConcat<T>(less: (T, T) -> bool, s: seq<T>, t: seq<T>)
    ensures Runs(less, s + t) <= Runs(less, s) + Runs(less, t)
    ensures s != [] && t != [] && less(t[0], s[|s| - 1]) ==> Runs(less, s + t) == Runs(less, s) + Runs(less, t)
    decreases |s|
  {
    if s == [] {
      assert s + t == t;
    } else if |s| == 1 {
      if t != [] { assert (s + t)[1..] == t; } else { assert s + t == s; }
    } else {
      RunsConcat(less, s[1..], t);
      CatTail(s, t);
    }
  }

  lemma {:induction false} SortedOneRun<T>(less: (T, T) -> bool, s: seq<T>)
    requires Sorted(less, s) && s != []
    ensures Runs(less, s) == 1
    decreases |s|
  {
    if |s| > 1 { SortedOneRun(less, s[1..]); }
  }

  lemma {:induction false} OneRunSorted<T>(less: (T, T) -> bool, s: seq<T>, all: seq<T>)
    requires Runs(less, s) <= 1 && StrictWeakOrder(less, all) && forall x :: x in s ==> x in all
    ensures Sorted(less, s)
    decreases |s|
  {
    if |s| > 1 {
      RunsPositive(less, s[1..]);
      OneRunSorted(less, s[1..], all);
      PrependSorted(less, s, all);
    }
  }

  lemma {:induction false} RunsPositive<T>(less: (T, T) -> bool, s: seq<T>)
    requires s != []
    ensures Runs(less, s) >= 1
    decreases |s|
  {
    if |s| > 1 { RunsPositive(less, s[1..]); }
  }

  /** One more element at the front, in order with its successor. */
  lemma PrependSorted<T>(less: (T, T) -> bool, s: seq<T>, all: seq<T>)
    requires |s| > 1 && Sorted(less, s[1..]) && !less(s[1], s[0]) && StrictWeakOrder(less, all)
    requires forall x :: x in s ==> x in all
    ensures Sorted(less, s)
  {
    forall i, j | 0 <= i < j < |s|
      ensures !less(s[j], s[i])
    {
      assert s[i] in all && s[j] in all && s[1] in all;
      assert Ordered(less, s[j], s[1], s[i]);
      if i > 0 { assert s[1..][i - 1] == s[i] && s[1..][j - 1] == s[j]; }
      else if j > 1 { assert s[1..][0] == s[1] && s[1..][j - 1] == s[j]; }
    }
  }

  // ----- one pass of list_sort

  /** Length of the first run of s. */
  ghost function RunLength<T>(less: (T, T) -> bool, s: seq<T>): (m: nat)
    requires s != []
    ensures 1 <= m <= |s|
  {
    if |s| == 1 || less(s[1], s[0]) then 1 else 1 + RunLength(less, s[1..])
  }

  /** The list after one pass: adjacent runs merged pairwise. */
  ghost function PassOf<T>(less: (T, T) -> bool, s: seq<T>): seq<T>
    decreases |s|
  {
    if s == [] then []
    else
      var m := RunLength(less, s);
      if m == |s| then s
      else
        var k := m + RunLength(less, s[m..]);
        Merge(less, s[..m], s[m..k]) + PassOf(less, s[k..])
  }

  /** The number of runs that pass outputs. */
  ghost function PassCount<T>(less: (T, T) -> bool, s: seq<T>): nat
    decreases |s|
  {
    if s == [] then 0
    else
      var m := RunLength(less, s);
      if m == |s| then 1 else 1 + PassCount(less, s[m + RunLength(less, s[m..])..])
  }

  lemma {:induction false} PassParts<T>(less: (T, T) -> bool, s: seq<T>, a: seq<T>, t: seq<T>, b: seq<T>, r: seq<T>)
    requires s != [] && RunLength(less, s) == |a| < |s| && a == s[..|a|] && t == s[|a|..]
    requires RunLength(less, t) == |b| && b == s[|a|..|a| + |b|] && r == s[|a| + |b|..]
    ensures PassOf(less, s) == Merge(less, a, b) + PassOf(less, r)
  {
    PassOfUnfold(less, s, |a|, |a| + |b|);
  }

  lemma {:induction false} PassCountParts<T>(less: (T, T) -> bool, s: seq<T>, m: nat, t: seq<T>, k: nat, r: seq<T>)
    requires s != [] && RunLength(less, s) == m < |s| && t == s[m..] && k == m + RunLength(less, t) && r == s[k..]
    ensures PassCount(less, s) == 1 + PassCount(less, r)
  {
    PassCountUnfold(less, s, m, k);
  }

  lemma {:induction false} PassOfUnfold<T>(less: (T, T) -> bool, s: seq<T>, m: nat, k: nat)
    requires s != [] && m == RunLength(less, s) < |s| && k == m + RunLength(less, s[m..])
    ensures PassOf(less, s) == Merge(less, s[..m], s[m..k]) + PassOf(less, s[k..])
  {
  }

  lemma {:induction false} PassCountUnfold<T>(less: (T, T) -> bool, s: seq<T>, m: nat, k: nat)
    requires s != [] && m == RunLength(less, s) < |s| && k == m + RunLength(less, s[m..])
    ensures PassCount(less, s) == 1 + PassCount(less, s[k..])
  {
  }

  lemma {:induction false} RunFacts<T>(less: (T, T) -> bool, s: seq<T>)
    requires s != []
    ensures var m := RunLength(less, s); Runs(less, s[..m]) == 1 && (m < |s| ==> less(s[m], s[m - 1]))
    decreases |s|
  {
    if |s| > 1 && !less(s[1], s[0]) {
      RunFacts(less, s[1..]);
      var m := RunLength(less, s);
      assert s[..m][1..] == s[1..][..m - 1];
      assert m < |s| ==> s[m] == s[1..][m - 1] && s[m - 1] == s[1..][m - 2];
    }
  }

  /** Two adjacent runs ending in descents account for exactly two runs. */
  lemma {:induction false} CountRuns<T>(less: (T, T) -> bool, s: seq<T>, m: nat, k: nat)
    requires s != [] && m == RunLength(less, s) < |s| && k == m + RunLength(less, s[m..])
    ensures Runs(less, s[..m]) == Runs(less, s[m..k]) == 1
    ensures Runs(less, s) == 2 + Runs(less, s[k..])
  {
    RunFacts(less, s);
    RunFacts(less, s[m..]);
    SliceOfSlice(s, m, |s|, 0, k - m);
    SliceCat(s, 0, m, |s|);
    SliceCat(s, m, k, |s|);
    Whole(s);
    assert k < |s| ==> s[k] == s[m..][k - m] && s[k - 1] == s[m..][k - m - 1];
    RunsConcat(less, s[..m], s[m..]);
    RunsConcat(less, s[m..k], s[k..]);
  }

  /** A pass keeps every equivalence class in order. */
  lemma {:induction false} PassStable<T>(less: (T, T) -> bool, s: seq<T>, all: seq<T>)
    requires StrictWeakOrder(less, all) && forall x :: x in s ==> x in all
    ensures multiset(PassOf(less, s)) == multiset(s)
    ensures forall x :: x in all ==> Class(less, PassOf(less, s), x) == Class(less, s, x)
    decreases |s|
  {
    if s != [] && RunLength(less, s) < |s| {
      var m := RunLength(less, s);
      var k := m + RunLength(less, s[m..]);
      var a, b, r := s[..m], s[m..k], s[k..];
      PassStable(less, r, all);
      CountRuns(less, s, m, k);
      OneRunSorted(less, a, all);
      OneRunSorted(less, b, all);
      MergeMultiset(less, a, b);
      SliceCat(s, 0, m, k);
      SliceCat(s, 0, k, |s|);
      Whole(s);
      forall x | x in all
        ensures Class(less, PassOf(less, s), x) == Class(less, s, x)
      {
        MergeClass(less, a, b, all, x);
        ConcatClasses(less, a, b, r, Merge(less, a, b), PassOf(less, r), x);
      }
    }
  }

  lemma ConcatClasses<T>(less: (T, T) -> bool, a: seq<T>, b: seq<T>, r: seq<T>, m: seq<T>, q: seq<T>, x: T)
    requires Class(less, m, x) == Class(less, a, x) + Class(less, b, x) && Class(less, q, x) == Class(less, r, x)
    ensures Class(less, m + q, x) == Class(less, (a + b) + r, x)
  {
    ClassConcat(less, a, b, x);
    ClassConcat(less, a + b, r, x);
    ClassConcat(less, m, q, x);
  }

  lemma MergedRunIsOne<T>(less: (T, T) -> bool, a: seq<T>, b: seq<T>, all: seq<T>)
    requires Runs(less, a) <= 1 && Runs(less, b) <= 1 && StrictWeakOrder(less, all)
    requires (forall x :: x in a ==> x in all) && (forall x :: x in b ==> x in all)
    ensures Runs(less, Merge(less, a, b)) <= 1
  {
    OneRunSorted(less, a, all);
    OneRunSorted(less, b, all);
    MergeSorted(less, a, b, all);
    if Merge(less, a, b) != [] { SortedOneRun(less, Merge(less, a, b)); }
  }

  /** A pass at least halves the number of runs, rounding up. */
  lemma {:induction false} PassHalves<T>(less: (T, T) -> bool, s: seq<T>, all: seq<T>)
    requires StrictWeakOrder(less, all) && forall x :: x in s ==> x in all
    ensures Runs(less, PassOf(less, s)) <= PassCount(less, s)
    ensures 2 * PassCount(less, s) <= Runs(less, s) + 1
    decreases |s|
  {
    if s != [] {
      var m := RunLength(less, s);
      RunFacts(less, s);
      if m == |s| {
        assert s[..m] == s;
      } else {
        var k := m + RunLength(less, s[m..]);
        var a, b, r := s[..m], s[m..k], s[k..];
        PassHalves(less, r, all);
        CountRuns(less, s, m, k);
        MergedRunIsOne(less, a, b, all);
        SliceOfSlice(s, m, |s|, 0, k - m);
        PassOfUnfold(less, s, m, k);
        PassCountUnfold(less, s, m, k);
        RunsConcat(less, Merge(less, a, b), PassOf(less, r));
      }
    }
  }
}
