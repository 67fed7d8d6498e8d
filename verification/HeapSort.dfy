/** The in-place heap sort and binary search of lib/stdlib.c. Heap positions are 1-based, as in
    the source: position j is array element j - 1. */
module HeapSort {
  import opened Wrappers

  /** A strcmp-style comparison function that orders its arguments consistently. */
  ghost predicate Consistent<T(!new)>(cmp: (T, T) -> int)
  {
    && (forall x, y :: Antisymmetric(cmp, x, y))
    && (forall x, y, z :: Transitive(cmp, x, y, z))
  }

  ghost predicate Antisymmetric<T>(cmp: (T, T) -> int, x: T, y: T)
  {
    cmp(x, y) > 0 <==> cmp(y, x) < 0
  }

  ghost predicate Transitive<T>(cmp: (T, T) -> int, x: T, y: T, z: T)
  {
    cmp(x, y) <= 0 && cmp(y, z) <= 0 ==> cmp(x, z) <= 0
  }

  ghost predicate Sorted<T>(cmp: (T, T) -> int, s: seq<T>)
  {
    forall i, j :: 0 <= i < j < |s| ==> cmp(s[i], s[j]) <= 0
  }

  /** The element at a 1-based position. */
  function At<T>(s: seq<T>, j: nat): T
    requires 1 <= j <= |s|
  {
    s[j - 1]
  }

  /** Every position from 2 * lo to cnt is in order with its parent. */
  ghost predicate Heap<T>(cmp: (T, T) -> int, s: seq<T>, lo: nat, cnt: nat)
    requires cnt <= |s| && lo > 0
  {
    forall c :: 2 * lo <= c <= cnt ==> cmp(At(s, c), At(s, c / 2)) <= 0
  }

  /** The element at position m is no smaller than the children of position k. */
  ghost predicate Dominates<T>(cmp: (T, T) -> int, s: seq<T>, k: nat, cnt: nat, m: nat)
    requires cnt <= |s| && 1 <= m <= |s|
  {
    forall c :: 2 * k <= c <= 2 * k + 1 && 1 <= c <= cnt ==> cmp(At(s, c), At(s, m)) <= 0
  }

  /** A heap from position i on, except that the element at position k may be too small; it
      may stand in for its children below its parent. */
  ghost predicate HeapBut<T>(cmp: (T, T) -> int, s: seq<T>, i: nat, cnt: nat, k: nat)
    requires cnt <= |s| && 0 < i <= k <= |s|
  {
    && (forall c :: 2 * i <= c <= cnt && c / 2 != k ==> cmp(At(s, c), At(s, c / 2)) <= 0)
    && (k >= 2 * i ==> Dominates(cmp, s, k, cnt, k / 2))
  }

  function Swapped<T>(s: seq<T>, i: nat, j: nat): seq<T>
    requires i < |s| && j < |s|
  {
    s[i := s[j]][j := s[i]]
  }

  lemma SwappedPermutes<T>(s: seq<T>, i: nat, j: nat, n: nat)
    requires i < n <= |s| && j < n
    ensures multiset(Swapped(s, i, j)[..n]) == multiset(s[..n])
    ensures Swapped(s, i, j)[n..] == s[n..]
  {
    var p := s[..n];
    assert Swapped(s, i, j)[..n] == p[i := p[j]][j := p[i]];
  }

  /** One sinking step: after the exchange with the larger child m, only m may be too small. */
  lemma SinkStep<T(!new)>(cmp: (T, T) -> int, s: seq<T>, i: nat, cnt: nat, k: nat, m: nat)
    requires Consistent(cmp) && cnt <= |s| && 0 < i <= k <= |s| && HeapBut(cmp, s, i, cnt, k)
    requires 2 * k <= m <= 2 * k + 1 && m <= cnt && cmp(At(s, m), At(s, k)) > 0
    requires Dominates(cmp, s, k, cnt, m)
    ensures HeapBut(cmp, Swapped(s, k - 1, m - 1), i, cnt, m)
  {
    var t := Swapped(s, k - 1, m - 1);
    assert Antisymmetric(cmp, At(s, m), At(s, k));
    forall c | 2 * i <= c <= cnt && c / 2 != m
      ensures cmp(At(t, c), At(t, c / 2)) <= 0
    {
      if c / 2 == k {
        if c == m { assert At(t, c) == At(s, k); } else { assert At(t, c) == At(s, c); }
      } else if c == k {
        assert At(t, c) == At(s, m) && At(t, c / 2) == At(s, k / 2);
      } else {
        assert At(t, c) == At(s, c) && At(t, c / 2) == At(s, c / 2);
      }
    }
    forall c | 2 * m <= c <= 2 * m + 1 && 1 <= c <= cnt
      ensures cmp(At(t, c), At(t, m / 2)) <= 0
    {
      assert m / 2 == k && At(t, k) == At(s, m) && At(t, c) == At(s, c);
      assert c / 2 == m;
    }
  }

  /** The root of a heap is its maximum. */
  lemma {:induction false} RootIsMax<T(!new)>(cmp: (T, T) -> int, s: seq<T>, cnt: nat, c: nat)
    requires Consistent(cmp) && cnt <= |s| && Heap(cmp, s, 1, cnt) && 1 <= c <= cnt
    ensures cmp(At(s, c), At(s, 1)) <= 0
    decreases c
  {
    if c > 1 {
      RootIsMax(cmp, s, cnt, c / 2);
      assert Transitive(cmp, At(s, c), At(s, c / 2), At(s, 1));
    } else {
      assert Antisymmetric(cmp, At(s, 1), At(s, 1));
    }
  }

  method Swap<T>(a: array<T>, i: nat, j: nat)
    requires 1 <= i <= a.Length && 1 <= j <= a.Length
    modifies a
    ensures a[..] == Swapped(old(a[..]), i - 1, j - 1)
  {
    a[i - 1], a[j - 1] := a[j - 1], a[i - 1];
  }

  /** The position of the largest among k and its children. */
  method Largest<T(!new)>(a: array<T>, k: nat, cnt: nat, cmp: (T, T) -> int) returns (m: nat)
    requires Consistent(cmp) && 1 <= k <= cnt <= a.Length
    ensures m == k || (2 * k <= m <= 2 * k + 1 && m <= cnt && cmp(At(a[..], m), At(a[..], k)) > 0)
    ensures Dominates(cmp, a[..], k, cnt, m)
  {
    var left, right := 2 * k, 2 * k + 1;
    m := k;
    assert Antisymmetric(cmp, a[k - 1], a[k - 1]);
    if left <= cnt && cmp(a[left - 1], a[m - 1]) > 0 {
      m := left;
      assert Antisymmetric(cmp, a[left - 1], a[left - 1]);
    }
    if right <= cnt && cmp(a[right - 1], a[m - 1]) > 0 {
      assert Antisymmetric(cmp, a[right - 1], a[right - 1]) && Antisymmetric(cmp, a[right - 1], a[m - 1]);
      assert Antisymmetric(cmp, a[left - 1], a[k - 1]) && Antisymmetric(cmp, a[right - 1], a[k - 1]);
      assert Transitive(cmp, a[left - 1], a[m - 1], a[right - 1]);
      assert Transitive(cmp, a[right - 1], a[k - 1], a[m - 1]);
      m := right;
    }
  }

  /** heapify: sinks the element at position i into the heaps below it. */
  method Heapify<T(!new)>(a: array<T>, i: nat, cnt: nat, cmp: (T, T) -> int)
    requires Consistent(cmp) && 1 <= i && cnt <= a.Length && Heap(cmp, a[..], i + 1, cnt)
    modifies a
    ensures Heap(cmp, a[..], i, cnt)
    ensures multiset(a[..cnt]) == multiset(old(a[..cnt])) && a[cnt..] == old(a[cnt..])
  {
    if i > cnt {
      return;
    }
    var k := i;
    while true
      invariant i <= k <= cnt
      invariant HeapBut(cmp, a[..], i, cnt, k)
      invariant multiset(a[..cnt]) == multiset(old(a[..cnt])) && a[cnt..] == old(a[cnt..])
      decreases cnt - k
    {
      var m := Largest(a, k, cnt, cmp);
      if m == k {
        Settled(cmp, a[..], i, cnt, k);
        break;
      }
      Sink(a, i, cnt, k, m, cmp);
      k := m;
    }
  }

  lemma Settled<T>(cmp: (T, T) -> int, s: seq<T>, i: nat, cnt: nat, k: nat)
    requires cnt <= |s| && 0 < i <= k <= |s| && HeapBut(cmp, s, i, cnt, k) && Dominates(cmp, s, k, cnt, k)
    ensures Heap(cmp, s, i, cnt)
  {
  }

  method Sink<T(!new)>(a: array<T>, ghost i: nat, ghost cnt: nat, k: nat, m: nat, ghost cmp: (T, T) -> int)
    requires Consistent(cmp) && cnt <= a.Length && 0 < i <= k <= cnt && HeapBut(cmp, a[..], i, cnt, k)
    requires 2 * k <= m <= 2 * k + 1 && m <= cnt && cmp(At(a[..], m), At(a[..], k)) > 0
    requires Dominates(cmp, a[..], k, cnt, m)
    modifies a
    ensures HeapBut(cmp, a[..], i, cnt, m)
    ensures multiset(a[..cnt]) == multiset(old(a[..cnt])) && a[cnt..] == old(a[cnt..])
  {
    ghost var s := a[..];
    SinkStep(cmp, s, i, cnt, k, m);
    SwappedPermutes(s, k - 1, m - 1, cnt);
    assert a[..cnt] == s[..cnt] && a[cnt..] == s[cnt..];
    Swap(a, k, m);
    PrefixAndSuffix(a, s, k, m, cnt);
  }

  lemma PrefixAndSuffix<T>(a: array<T>, s: seq<T>, k: nat, m: nat, cnt: nat)
    requires |s| == a.Length && cnt <= a.Length && 1 <= k <= cnt && 1 <= m <= cnt
    requires a[..] == Swapped(s, k - 1, m - 1)
    ensures a[..cnt] == Swapped(s, k - 1, m - 1)[..cnt] && a[cnt..] == Swapped(s, k - 1, m - 1)[cnt..]
  {
    assert a[..cnt] == a[..][..cnt] && a[cnt..] == a[..][cnt..];
  }

  /** The state of the second phase: a heap of i elements, then the rest in final order. */
  ghost predicate PartlySorted<T>(cmp: (T, T) -> int, s: seq<T>, i: nat)
    requires i <= |s|
  {
    && Heap(cmp, s, 1, i)
    && Sorted(cmp, s[i..])
    && (forall x, j :: 0 <= x < i <= j < |s| ==> cmp(s[x], s[j]) <= 0)
  }

  /** Moving the maximum to position i and restoring the heap below extends the sorted part. */
  lemma MaxMoved<T(!new)>(cmp: (T, T) -> int, s: seq<T>, t: seq<T>, u: seq<T>, i: nat)
    requires Consistent(cmp) && 1 < i <= |s| == |u| && PartlySorted(cmp, s, i)
    requires t == Swapped(s, 0, i - 1)
    requires multiset(u[..i - 1]) == multiset(t[..i - 1]) && u[i - 1..] == t[i - 1..]
    requires Heap(cmp, u, 1, i - 1)
    ensures PartlySorted(cmp, u, i - 1)
  {
    assert t[i - 1] == s[0] && u[i - 1] == u[i - 1..][0];
    assert forall j :: i <= j < |s| ==> u[j] == u[i - 1..][j - (i - 1)] && u[j] == s[j];
    forall x | 0 <= x < i - 1
      ensures cmp(u[x], s[0]) <= 0 && forall j :: i <= j < |s| ==> cmp(u[x], s[j]) <= 0
    {
      var v := FromHeap(s, t, u, i, x);
      RootIsMax(cmp, s, i, v + 1);
      assert At(s, v + 1) == u[x];
    }
    var w, r := u[i - 1..], s[i..];
    forall p, q | 0 <= p < q < |w|
      ensures cmp(w[p], w[q]) <= 0
    {
      if p > 0 { assert r[p - 1] == s[i - 1 + p] && r[q - 1] == s[i - 1 + q]; }
    }
  }

  /** Every element of the restored heap was in the old heap. */
  lemma FromHeap<T>(s: seq<T>, t: seq<T>, u: seq<T>, i: nat, x: nat) returns (v: nat)
    requires 1 < i <= |s| == |u| && t == Swapped(s, 0, i - 1) && multiset(u[..i - 1]) == multiset(t[..i - 1]) && x < i - 1
    ensures v < i && s[v] == u[x]
  {
    assert u[..i - 1][x] in multiset(u[..i - 1]);
    assert u[x] in t[..i - 1];
    var w :| 0 <= w < i - 1 && t[..i - 1][w] == u[x];
    v := if w == 0 then i - 1 else w;
  }

  /** sort: for every array and consistent comparison, a sorted permutation. */
  method Sort<T(!new)>(a: array<T>, cmp: (T, T) -> int)
    requires Consistent(cmp)
    modifies a
    ensures Sorted(cmp, a[..]) && multiset(a[..]) == multiset(old(a[..]))
  {
    var cnt := a.Length;
    BuildHeap(a, cmp);
    var i := cnt;
    assert a[..cnt] == a[..];
    while i > 1
      invariant 0 <= i <= cnt && (cnt > 0 ==> i > 0)
      invariant PartlySorted(cmp, a[..], i) && multiset(a[..]) == multiset(old(a[..]))
    {
      ghost var s := a[..];
      Swap(a, 1, i);
      ghost var t := a[..];
      SwapKeepsHeap(cmp, s, i);
      Heapify(a, 1, i - 1, cmp);
      WholePermutes(s, t, a[..], i);
      MaxMoved(cmp, s, t, a[..], i);
      i := i - 1;
    }
    FinallySorted(cmp, a[..], i);
  }

  method BuildHeap<T(!new)>(a: array<T>, cmp: (T, T) -> int)
    requires Consistent(cmp)
    modifies a
    ensures Heap(cmp, a[..], 1, a.Length) && multiset(a[..]) == multiset(old(a[..]))
  {
    var cnt := a.Length;
    var i := cnt / 2;
    assert a[..cnt] == a[..];
    while i > 0
      invariant 0 <= i <= cnt / 2 && Heap(cmp, a[..], i + 1, cnt)
      invariant multiset(a[..]) == multiset(old(a[..]))
    {
      assert a[..cnt] == a[..];
      Heapify(a, i, cnt, cmp);
      assert a[..cnt] == a[..];
      i := i - 1;
    }
  }

  lemma SwapKeepsHeap<T>(cmp: (T, T) -> int, s: seq<T>, i: nat)
    requires 1 < i <= |s| && Heap(cmp, s, 1, i)
    ensures Heap(cmp, Swapped(s, 0, i - 1), 2, i - 1)
  {
    var t := Swapped(s, 0, i - 1);
    forall c | 4 <= c <= i - 1 ensures cmp(At(t, c), At(t, c / 2)) <= 0 {
      assert At(t, c) == At(s, c) && At(t, c / 2) == At(s, c / 2);
    }
  }

  lemma WholePermutes<T>(s: seq<T>, t: seq<T>, u: seq<T>, i: nat)
    requires 1 < i <= |s| == |u| && t == Swapped(s, 0, i - 1)
    requires multiset(u[..i - 1]) == multiset(t[..i - 1]) && u[i - 1..] == t[i - 1..]
    ensures multiset(u) == multiset(s)
  {
    SwappedPermutes(s, 0, i - 1, |s|);
    assert s[..|s|] == s && t[..|s|] == t;
    assert u == u[..i - 1] + u[i - 1..] && t == t[..i - 1] + t[i - 1..];
  }

  lemma FinallySorted<T>(cmp: (T, T) -> int, s: seq<T>, i: nat)
    requires i <= 1 && i <= |s| && PartlySorted(cmp, s, i) && (|s| > 0 ==> i == 1)
    ensures Sorted(cmp, s)
  {
    forall p, q | 0 <= p < q < |s|
      ensures cmp(s[p], s[q]) <= 0
    {
      if p > 0 { assert s[1..][p - 1] == s[p] && s[1..][q - 1] == s[q]; }
    }
  }

  /** binary_search: finds a match exactly when there is one. */
  method BinarySearch<T(!new)>(key: T, a: array<T>, cmp: (T, T) -> int) returns (r: Option<nat>)
    requires Consistent(cmp) && Sorted(cmp, a[..])
    ensures r.Some? ==> r.value < a.Length && cmp(key, a[r.value]) == 0
    ensures r.None? ==> forall i :: 0 <= i < a.Length ==> cmp(key, a[i]) != 0
  {
    var first, last := 0, a.Length;
    while first < last
      invariant 0 <= first <= last <= a.Length
      invariant forall i :: 0 <= i < first ==> cmp(key, a[i]) > 0
      invariant forall i :: last <= i < a.Length ==> cmp(key, a[i]) < 0
    {
      var range := last - first;
      var middle := first + range / 2;
      var c := cmp(key, a[middle]);
      assert a[..][middle] == a[middle];
      if c < 0 {
        forall i | middle <= i < a.Length
          ensures cmp(key, a[i]) < 0
        {
          Below(cmp, key, a[..], middle, i);
        }
        last := middle;
      } else if c > 0 {
        forall i | 0 <= i <= middle
          ensures cmp(key, a[i]) > 0
        {
          Above(cmp, key, a[..], middle, i);
        }
        first := middle + 1;
      } else {
        return Some(middle);
      }
    }
    r := None;
  }

  lemma Below<T(!new)>(cmp: (T, T) -> int, key: T, s: seq<T>, m: nat, i: nat)
    requires Consistent(cmp) && Sorted(cmp, s) && m <= i < |s| && cmp(key, s[m]) < 0
    ensures cmp(key, s[i]) < 0
  {
    assert Antisymmetric(cmp, s[i], key) && Antisymmetric(cmp, s[m], key);
    assert Transitive(cmp, s[m], s[i], key);
  }

  lemma Above<T(!new)>(cmp: (T, T) -> int, key: T, s: seq<T>, m: nat, i: nat)
    requires Consistent(cmp) && Sorted(cmp, s) && i <= m < |s| && cmp(key, s[m]) > 0
    ensures cmp(key, s[i]) > 0
  {
    assert Transitive(cmp, key, s[i], s[m]);
  }
}
