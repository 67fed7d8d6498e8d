/** The resizing chained hash table of lib/kernel/hash.c. Buckets are lists in the sequence
    abstraction; whether allocating a new bucket array succeeds is a parameter. */
module Hash {
  import opened Wrappers
  import opened Slices
  import opened Powers

  // ----- bits

  /** Bitwise conjunction. */
  function And(x: nat, y: nat): (r: nat)
    ensures r <= x && r <= y
  {
    if x == 0 || y == 0 then 0 else 2 * And(x / 2, y / 2) + (x % 2) * (y % 2)
  }

  /** x & (x - 1) */
  function TurnOffLeast1Bit(x: nat): nat
    requires x > 0
  {
    And(x, x - 1)
  }

  ghost predicate PowerOfTwo(x: nat)
  {
    exists k: nat :: x == Pow2(k)
  }

  lemma OddCase(x: nat)
    requires x % 2 == 1
    ensures And(x, x - 1) == x - 1
  {
    if x > 1 { AndSelf(x / 2); }
  }

  lemma {:induction false} AndSelf(x: nat)
    ensures And(x, x) == x
  {
    if x > 0 { AndSelf(x / 2); }
  }

  lemma EvenCase(x: nat)
    requires x > 0 && x % 2 == 0
    ensures And(x, x - 1) == 2 * And(x / 2, x / 2 - 1)
  {
    assert (x - 1) / 2 == x / 2 - 1;
  }

  lemma PowerHalves(x: nat)
    requires x > 0 && x % 2 == 0
    ensures PowerOfTwo(x) <==> PowerOfTwo(x / 2)
  {
    if PowerOfTwo(x) {
      var k: nat :| x == Pow2(k);
      assert x / 2 == Pow2(k - 1);
    }
    if PowerOfTwo(x / 2) {
      var k: nat :| x / 2 == Pow2(k);
      assert x == Pow2(k + 1);
    }
  }

  lemma OddPower(x: nat)
    requires x % 2 == 1
    ensures PowerOfTwo(x) <==> x == 1
  {
    assert Pow2(0) == 1;
    if PowerOfTwo(x) {
      var k: nat :| x == Pow2(k);
      assert k > 0 ==> Pow2(k) == 2 * Pow2(k - 1);
    }
  }

  /** The test used by is_power_of_2, and what clearing the least bit keeps: every power of two
      below a number that is not one itself. */
  lemma {:induction false} LeastBit(x: nat)
    requires x > 0
    ensures And(x, x - 1) == 0 <==> PowerOfTwo(x)
    ensures And(x, x - 1) < x
    ensures !PowerOfTwo(x) ==> forall k: nat :: Pow2(k) <= x ==> Pow2(k) <= And(x, x - 1)
    decreases x
  {
    if x % 2 == 1 {
      OddCase(x);
      OddPower(x);
      forall k: nat | Pow2(k) <= x && !PowerOfTwo(x) ensures Pow2(k) <= x - 1 { assert Pow2(k) != x; }
    } else {
      EvenCase(x);
      PowerHalves(x);
      LeastBit(x / 2);
      forall k: nat | Pow2(k) <= x && !PowerOfTwo(x)
        ensures Pow2(k) <= And(x, x - 1)
      {
        if k == 0 { assert Pow2(0) <= x / 2; } else { assert Pow2(k - 1) <= x / 2; }
      }
    }
  }

  function Wanted(elemCnt: nat): nat { if elemCnt / 2 < 4 then 4 else elemCnt / 2 }

  /** n is the greatest power of two that is at most max (4, elem_cnt / 2). */
  ghost predicate Ideal(elemCnt: nat, n: nat)
  {
    4 <= n <= Wanted(elemCnt) && PowerOfTwo(n) && CoversPowers(elemCnt, n)
  }

  ghost predicate CoversPowers(elemCnt: nat, n: nat)
  {
    forall k: nat :: Pow2(k) <= Wanted(elemCnt) ==> Pow2(k) <= n
  }

  /** The bucket count for elem_cnt elements. */
  method NewBucketCount(elemCnt: nat) returns (n: nat)
    ensures Ideal(elemCnt, n)
  {
    n := elemCnt / 2;
    if n < 4 {
      n := 4;
    }
    assert Pow2(2) == 4;
    while TurnOffLeast1Bit(n) != 0
      invariant 4 <= n <= Wanted(elemCnt) && CoversPowers(elemCnt, n)
      decreases n
    {
      LeastBit(n);
      n := TurnOffLeast1Bit(n);
    }
    LeastBit(n);
  }

  // ----- placement of elements in buckets

  /** find_bucket */
  function Index<T>(hash: T -> nat, e: T, n: nat): (i: nat)
    requires n > 0
    ensures i < n
  {
    And(hash(e), n - 1)
  }

  lemma {:induction false} AndIsRemainder(x: nat, k: nat) returns (q: nat)
    ensures x == q * Pow2(k) + And(x, Pow2(k) - 1)
    decreases k
  {
    if k == 0 {
      q := x;
    } else if x == 0 {
      q := 0;
    } else {
      q := AndIsRemainder(x / 2, k - 1);
      Doubled(x, q, Pow2(k - 1), And(x / 2, Pow2(k - 1) - 1));
      AndHalves(x, Pow2(k - 1));
    }
  }

  lemma Doubled(x: nat, q: nat, p: nat, r: nat)
    requires x / 2 == q * p + r
    ensures x == q * (2 * p) + (2 * r + x % 2)
  {
    assert q * (2 * p) == 2 * (q * p);
  }

  lemma AndHalves(x: nat, p: nat)
    requires x > 0 && p > 0
    ensures And(x, 2 * p - 1) == 2 * And(x / 2, p - 1) + x % 2
  {
    assert (2 * p - 1) / 2 == p - 1 && (2 * p - 1) % 2 == 1;
  }

  /** The bucket of an element is what its hash value leaves when divided by the number of buckets. */
  lemma IndexIsRemainder<T>(hash: T -> nat, e: T, n: nat) returns (q: nat)
    requires PowerOfTwo(n)
    ensures Index(hash, e, n) < n && hash(e) == q * n + Index(hash, e, n)
  {
    var k: nat :| n == Pow2(k);
    q := AndIsRemainder(hash(e), k);
  }

  /** With the ideal number of buckets there are from two to four elements to a bucket, or 4 buckets for
      fewer than eight. */
  lemma LoadFactor(elemCnt: nat, n: nat)
    requires Ideal(elemCnt, n)
    ensures if elemCnt < 8 then n == 4 else 2 * n <= elemCnt < 4 * n
  {
    var k: nat :| n == Pow2(k);
    assert Pow2(k + 1) == 2 * n;
    assert Pow2(2) == 4;
  }

  /** The buckets hold exactly the elements of s, each once, in its own bucket. */
  ghost predicate Placed<T>(hash: T -> nat, buckets: seq<seq<T>>, s: set<T>)
    requires |buckets| > 0
  {
    && (forall i :: 0 <= i < |buckets| ==> NoDup(buckets[i]))
    && (forall i, x :: 0 <= i < |buckets| && x in buckets[i] ==> x in s && Index(hash, x, |buckets|) == i)
    && (forall x :: x in s ==> x in buckets[Index(hash, x, |buckets|)])
  }

  lemma PushFrontPlaced<T>(hash: T -> nat, buckets: seq<seq<T>>, s: set<T>, x: T)
    requires |buckets| > 0 && Placed(hash, buckets, s) && x !in s
    ensures var i := Index(hash, x, |buckets|); Placed(hash, buckets[i := [x] + buckets[i]], s + {x})
  {
    var i := Index(hash, x, |buckets|);
    var b := buckets[i := [x] + buckets[i]];
    assert b[i][0] == x;
    forall y | y in s + {x}
      ensures y in b[Index(hash, y, |b|)]
    {
      if y in s { assert y in buckets[Index(hash, y, |buckets|)]; }
    }
  }

  lemma RemovePlaced<T>(hash: T -> nat, buckets: seq<seq<T>>, s: set<T>, i: nat, n: nat)
    requires |buckets| > 0 && Placed(hash, buckets, s) && i < |buckets| && n < |buckets[i]|
    ensures Placed(hash, buckets[i := RemoveAt(buckets[i], n)], s - {buckets[i][n]})
  {
    RemoveAtFacts(buckets[i], n);
    var b := buckets[i := RemoveAt(buckets[i], n)];
    forall y | y in s - {buckets[i][n]}
      ensures y in b[Index(hash, y, |b|)]
    {
      assert y in buckets[Index(hash, y, |buckets|)];
    }
    forall j, x | 0 <= j < |b| && x in b[j]
      ensures x in s - {buckets[i][n]} && Index(hash, x, |b|) == j
    {
      assert x in buckets[j] && Index(hash, buckets[i][n], |buckets|) == i;
    }
  }

  /** The elements whose bucket has a number below i. */
  ghost function Below<T>(hash: T -> nat, s: set<T>, n: nat, i: nat): set<T>
    requires n > 0
  {
    set x | x in s && Index(hash, x, n) < i
  }

  lemma BelowStep<T>(hash: T -> nat, buckets: seq<seq<T>>, s: set<T>, i: nat)
    requires |buckets| > 0 && Placed(hash, buckets, s) && i < |buckets|
    ensures Below(hash, s, |buckets|, i + 1) == Below(hash, s, |buckets|, i) + (set x | x in buckets[i])
    ensures NoDup(buckets[i]) && forall x :: x in buckets[i] ==> x !in Below(hash, s, |buckets|, i)
  {
    forall x
      ensures x in buckets[i] <==> x in s && Index(hash, x, |buckets|) == i
    {
      OwnBucket(hash, buckets, s, i, x);
    }
  }

  // ----- flattening

  ghost function Flatten<T>(buckets: seq<seq<T>>, i: nat): seq<T>
    requires i <= |buckets|
    decreases |buckets| - i
  {
    if i == |buckets| then [] else buckets[i] + Flatten(buckets, i + 1)
  }

  ghost predicate InBuckets<T>(buckets: seq<seq<T>>, i: nat, x: T)
  {
    exists j :: i <= j < |buckets| && x in buckets[j]
  }

  lemma {:induction false} FlattenMembers<T>(buckets: seq<seq<T>>, i: nat, x: T)
    requires i <= |buckets|
    ensures x in Flatten(buckets, i) <==> InBuckets(buckets, i, x)
    decreases |buckets| - i
  {
    if i < |buckets| {
      FlattenMembers(buckets, i + 1, x);
      if j :| i + 1 <= j < |buckets| && x in buckets[j] { assert InBuckets(buckets, i, x); }
    }
  }

  lemma OwnBucket<T>(hash: T -> nat, buckets: seq<seq<T>>, s: set<T>, j: nat, x: T)
    requires |buckets| > 0 && Placed(hash, buckets, s) && j < |buckets|
    ensures x in buckets[j] ==> Index(hash, x, |buckets|) == j
  {
  }

  lemma {:induction false} FlattenNoDup<T>(hash: T -> nat, buckets: seq<seq<T>>, s: set<T>, i: nat)
    requires |buckets| > 0 && Placed(hash, buckets, s) && i <= |buckets|
    ensures NoDup(Flatten(buckets, i))
    decreases |buckets| - i
  {
    if i < |buckets| {
      FlattenNoDup(hash, buckets, s, i + 1);
      var a, b := buckets[i], Flatten(buckets, i + 1);
      forall x | x in a
        ensures x !in b
      {
        FlattenMembers(buckets, i + 1, x);
        assert Index(hash, x, |buckets|) == i;
        forall j | i + 1 <= j < |buckets|
          ensures x !in buckets[j]
        {
          OwnBucket(hash, buckets, s, j, x);
        }
      }
      var f := a + b;
      assert f == Flatten(buckets, i);
      forall p, q | 0 <= p < q < |f|
        ensures f[p] != f[q]
      {
        if p < |a| <= q { assert f[p] in a && f[q] == b[q - |a|]; }
        else if |a| <= p { assert f[p] == b[p - |a|] && f[q] == b[q - |a|]; }
      }
    }
  }

  // ----- the table

  class Table<T(!new, ==)> {
    const hash: T -> nat
    const less: (T, T) -> bool
    var elemCnt: nat
    var buckets: seq<seq<T>>
    ghost var elems: set<T>

    /** Equality as induced by less. */
    predicate Eq(x: T, y: T)
    {
      !less(x, y) && !less(y, x)
    }

    /** What the table demands of its functions: equality is an equivalence that hash respects. */
    ghost predicate GoodFunctions()
    {
      && (forall x :: Eq(x, x))
      && (forall x, y, z :: Eq(x, y) && Eq(y, z) ==> Eq(x, z))
      && (forall x, y :: Eq(x, y) ==> hash(x) == hash(y))
    }

    ghost predicate Valid()
      reads this
    {
      && GoodFunctions()
      && |buckets| >= 4 && PowerOfTwo(|buckets|)
      && Placed(hash, buckets, elems)
      && elemCnt == |elems|
      && AllDiffer(elems)
    }

    /** No two elements are equal in the table's sense. */
    ghost predicate AllDiffer(s: set<T>)
    {
      forall x, y :: x in s && y in s && Eq(x, y) ==> x == y
    }

    constructor (hash: T -> nat, less: (T, T) -> bool)
      requires forall x :: !less(x, x)
      requires forall x, y, z :: !less(x, y) && !less(y, x) && !less(y, z) && !less(z, y) ==> !less(x, z) && !less(z, x)
      requires forall x, y :: !less(x, y) && !less(y, x) ==> hash(x) == hash(y)
      ensures Valid() && elems == {} && |buckets| == 4 && this.hash == hash && this.less == less
    {
      this.hash, this.less := hash, less;
      elemCnt := 0;
      buckets := seq(4, _ => []);
      elems := {};
      assert Pow2(2) == 4;
    }

    /** find_elem: position of an element equal to e in bucket i, or its length. */
    method FindElem(i: nat, e: T) returns (n: nat)
      requires Valid() && i < |buckets|
      ensures n <= |buckets[i]| && (n < |buckets[i]| ==> Eq(buckets[i][n], e))
      ensures n == |buckets[i]| ==> forall x :: x in buckets[i] ==> !Eq(x, e)
    {
      n := 0;
      while n < |buckets[i]|
        invariant n <= |buckets[i]| && forall m :: 0 <= m < n ==> !Eq(buckets[i][m], e)
      {
        if Eq(buckets[i][n], e) {
          return;
        }
        n := n + 1;
      }
    }

    /** An element equal to e can only be in e's bucket. */
    lemma OnlyInOwnBucket(e: T)
      requires Valid() && forall x :: x in buckets[Index(hash, e, |buckets|)] ==> !Eq(x, e)
      ensures forall x :: x in elems ==> !Eq(x, e)
    {
      forall x | x in elems
        ensures !Eq(x, e)
      {
        assert x in buckets[Index(hash, x, |buckets|)];
      }
    }

    method Find(e: T) returns (r: Option<T>)
      requires Valid()
      ensures r.Some? <==> exists x :: x in elems && Eq(x, e)
      ensures r.Some? ==> r.value in elems && Eq(r.value, e)
    {
      var i := Index(hash, e, |buckets|);
      var n := FindElem(i, e);
      if n < |buckets[i]| {
        r := Some(buckets[i][n]);
        assert buckets[i][n] in elems;
      } else {
        OnlyInOwnBucket(e);
        r := None;
      }
    }

    /** rehash: moves every element to its bucket in a table of the ideal size; if no memory is
        available, nothing changes. */
    method Rehash(allocOk: bool)
      requires Valid()
      modifies this`buckets
      ensures Valid()
      ensures if allocOk then Ideal(elemCnt, |buckets|) else buckets == old(buckets)
    {
      var n := NewBucketCount(elemCnt);
      if n == |buckets| || !allocOk {
        return;
      }
      var oldBuckets := buckets;
      var newBuckets: seq<seq<T>> := seq(n, _ => []);
      ghost var moved := {};
      var i := 0;
      while i < |oldBuckets|
        invariant i <= |oldBuckets| && |newBuckets| == n && Placed(hash, newBuckets, moved)
        invariant moved == Below(hash, elems, |oldBuckets|, i)
      {
        BelowStep(hash, oldBuckets, elems, i);
        newBuckets, moved := MoveBucket(oldBuckets[i], newBuckets, moved);
        i := i + 1;
      }
      assert moved == elems;
      buckets := newBuckets;
    }

    /** The inner loop of rehash: every element of the bucket goes to the front of its new one. */
    method MoveBucket(bucket: seq<T>, buckets0: seq<seq<T>>, ghost moved0: set<T>) returns (newBuckets: seq<seq<T>>, ghost moved: set<T>)
      requires |buckets0| > 0 && Placed(hash, buckets0, moved0) && NoDup(bucket) && forall x :: x in bucket ==> x !in moved0
      ensures |newBuckets| == |buckets0| && moved == moved0 + (set x | x in bucket) && Placed(hash, newBuckets, moved)
    {
      newBuckets, moved := buckets0, moved0;
      var j := 0;
      while j < |bucket|
        invariant j <= |bucket| && |newBuckets| == |buckets0| && Placed(hash, newBuckets, moved)
        invariant moved == moved0 + (set x | x in bucket[..j])
      {
        var e := bucket[j];
        var b := Index(hash, e, |newBuckets|);
        assert bucket[..j + 1] == bucket[..j] + [e];
        assert e !in bucket[..j];
        PushFrontPlaced(hash, newBuckets, moved, e);
        newBuckets := newBuckets[b := [e] + newBuckets[b]];
        moved := moved + {e};
        j := j + 1;
      }
      assert bucket[..j] == bucket;
    }

    /** hash_insert: adds the element unless an equal one is present, which is then returned. */
    method Insert(e: T, allocOk: bool) returns (r: Option<T>)
      requires Valid()
      modifies this`buckets, this`elemCnt, this`elems
      ensures Valid() && (allocOk ==> Ideal(elemCnt, |buckets|))
      ensures r.Some? <==> exists x :: x in old(elems) && Eq(x, e)
      ensures r.Some? ==> r.value in old(elems) && Eq(r.value, e) && elems == old(elems)
      ensures r.None? ==> elems == old(elems) + {e}
    {
      r := Find(e);
      if r.None? {
        PushNew(e);
      }
      Rehash(allocOk);
    }

    /** insert_elem: the new element goes to the front of its bucket. */
    method PushNew(e: T)
      requires Valid() && forall x :: x in elems ==> !Eq(x, e)
      modifies this`buckets, this`elemCnt, this`elems
      ensures Valid() && elems == old(elems) + {e}
    {
      assert Eq(e, e) && e !in elems;
      PushFrontPlaced(hash, buckets, elems, e);
      DifferAdd(elems, e);
      var i := Index(hash, e, |buckets|);
      elemCnt := elemCnt + 1;
      buckets := buckets[i := [e] + buckets[i]];
      elems := elems + {e};
    }

    lemma DifferAdd(s: set<T>, e: T)
      requires AllDiffer(s) && forall x :: x in s ==> !Eq(x, e)
      ensures AllDiffer(s + {e})
    {
      forall x | x in s
        ensures !Eq(e, x)
      {
        EqSymmetric(x, e);
      }
    }

    lemma EqSymmetric(x: T, y: T)
      ensures Eq(x, y) <==> Eq(y, x)
    {
    }

    /** remove_elem */
    method Remove(i: nat, n: nat)
      requires Valid() && i < |buckets| && n < |buckets[i]|
      modifies this`buckets, this`elemCnt, this`elems
      ensures Valid() && elems == old(elems) - {old(buckets)[i][n]} && old(buckets)[i][n] in old(elems)
    {
      var e := buckets[i][n];
      assert e in elems;
      RemovePlaced(hash, buckets, elems, i, n);
      elemCnt := elemCnt - 1;
      buckets := buckets[i := RemoveAt(buckets[i], n)];
      elems := elems - {e};
    }

    /** hash_replace: the element is present afterwards, in place of an equal one. */
    method Replace(e: T, allocOk: bool) returns (r: Option<T>)
      requires Valid()
      modifies this`buckets, this`elemCnt, this`elems
      ensures Valid() && (allocOk ==> Ideal(elemCnt, |buckets|))
      ensures r.Some? <==> exists x :: x in old(elems) && Eq(x, e)
      ensures r.Some? ==> r.value in old(elems) && Eq(r.value, e) && elems == old(elems) - {r.value} + {e}
      ensures r.None? ==> elems == old(elems) + {e}
    {
      var i := Index(hash, e, |buckets|);
      var n := FindElem(i, e);
      if n < |buckets[i]| {
        r := Some(buckets[i][n]);
        ghost var x := buckets[i][n];
        assert x in elems && Eq(x, e);
        OthersDiffer(x, e);
        Remove(i, n);
      } else {
        r := None;
        OnlyInOwnBucket(e);
      }
      PushNew(e);
      Rehash(allocOk);
    }

    /** Elements other than x are not equal to anything equal to x. */
    lemma OthersDiffer(x: T, e: T)
      requires Valid() && x in elems && Eq(x, e)
      ensures forall y :: y in elems && y != x ==> !Eq(y, e)
    {
      forall y | y in elems && y != x
        ensures !Eq(y, e)
      {
        EqSymmetric(x, e);
        assert Eq(y, e) ==> Eq(y, x);
      }
    }

    /** hash_delete: removes and returns the element equal to e, if any. */
    method Delete(e: T, allocOk: bool) returns (r: Option<T>)
      requires Valid()
      modifies this`buckets, this`elemCnt, this`elems
      ensures Valid() && (allocOk && r.Some? ==> Ideal(elemCnt, |buckets|))
      ensures r.Some? <==> exists x :: x in old(elems) && Eq(x, e)
      ensures r.Some? ==> r.value in old(elems) && Eq(r.value, e) && elems == old(elems) - {r.value}
      ensures r.None? ==> elems == old(elems)
    {
      var i := Index(hash, e, |buckets|);
      var n := FindElem(i, e);
      if n < |buckets[i]| {
        r := Some(buckets[i][n]);
        assert r.value in elems;
        Remove(i, n);
        Rehash(allocOk);
      } else {
        OnlyInOwnBucket(e);
        r := None;
      }
    }

    // ----- iteration

    /** What is left to iterate over: the rest of bucket b after position p (position 0 is the
        list head), then the later buckets. */
    ghost function Remaining(b: nat, p: nat): seq<T>
      requires b < |buckets| && p <= |buckets[b]|
      reads this
    {
      buckets[b][p..] + Flatten(buckets, b + 1)
    }

    /** hash_next on an iterator standing after p elements of bucket b. */
    method Next(b: nat, p: nat) returns (r: Option<T>, b': nat, p': nat)
      requires Valid() && b < |buckets| && p <= |buckets[b]|
      ensures r.None? <==> Remaining(b, p) == []
      ensures r.Some? ==> b' < |buckets| && p' <= |buckets[b']| && Remaining(b, p) == [r.value] + Remaining(b', p')
    {
      b', p' := b, p;
      while p' == |buckets[b']|
        invariant b' < |buckets| && p' <= |buckets[b']| && Remaining(b', p') == Remaining(b, p)
        decreases |buckets| - b'
      {
        b' := b' + 1;
        if b' >= |buckets| {
          return None, b', p';
        }
        p' := 0;
        assert buckets[b'][0..] == buckets[b'];
      }
      r := Some(buckets[b'][p']);
      assert buckets[b'][p'..] == [buckets[b'][p']] + buckets[b'][p' + 1..];
      p' := p' + 1;
    }

    /** The iteration idiom: hash_first, then hash_next until it returns null. It visits every
        element of the table exactly once. */
    method Iterate() returns (visited: seq<T>)
      requires Valid()
      ensures NoDup(visited) && |visited| == elemCnt
      ensures forall x :: x in visited <==> x in elems
    {
      visited := [];
      var b: nat, p: nat := 0, 0;
      assert buckets[0][0..] == buckets[0];
      var r;
      while true
        invariant b < |buckets| && p <= |buckets[b]| && visited + Remaining(b, p) == Flatten(buckets, 0)
        decreases |Remaining(b, p)|
      {
        ghost var rest := Remaining(b, p);
        r, b, p := Next(b, p);
        if r.None? {
          assert visited + rest == visited;
          break;
        }
        assert visited + rest == (visited + [r.value]) + Remaining(b, p);
        visited := visited + [r.value];
      }
      assert visited == Flatten(buckets, 0);
      FlattenNoDup(hash, buckets, elems, 0);
      forall x ensures x in visited <==> x in elems {
        FlattenMembers(buckets, 0, x);
      }
      CountDistinct(visited, elems);
    }
  }

  /** hash_init; without memory for the buckets there is no table. */
  method Init<T(!new, ==)>(hash: T -> nat, less: (T, T) -> bool, mallocOk: bool) returns (t: Table?<T>)
    requires forall x :: !less(x, x)
    requires forall x, y, z :: !less(x, y) && !less(y, x) && !less(y, z) && !less(z, y) ==> !less(x, z) && !less(z, x)
    requires forall x, y :: !less(x, y) && !less(y, x) ==> hash(x) == hash(y)
    ensures t == null <==> !mallocOk
    ensures t != null ==> fresh(t) && t.Valid() && t.elems == {} && |t.buckets| == 4 && t.hash == hash && t.less == less
  {
    t := null;
    if mallocOk {
      t := new Table(hash, less);
    }
  }

  lemma {:induction false} CountDistinct<T>(s: seq<T>, e: set<T>)
    requires NoDup(s) && forall x :: x in s <==> x in e
    ensures |s| == |e|
    decreases |s|
  {
    if s == [] {
      assert e == {};
    } else {
      var n := |s| - 1;
      assert s == s[..n] + [s[n]];
      CountDistinct(s[..n], e - {s[n]});
    }
  }
}
