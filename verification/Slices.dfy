/** Equalities between slices and concatenations of sequences, and sequences without repetition. */
module Slices {

  lemma SliceOfSlice<T>(s: seq<T>, a: nat, b: nat, c: nat, d: nat)
    requires a <= b <= |s| && c <= d <= b - a
    ensures s[a..b][c..d] == s[a + c..a + d]
  {
    var x, y := s[a..b][c..d], s[a + c..a + d];
    forall i | 0 <= i < |x| ensures x[i] == y[i] {
      assert s[a..b][c + i] == s[a + (c + i)];
    }
  }

  lemma SliceCat<T>(s: seq<T>, a: nat, b: nat, c: nat)
    requires a <= b <= c <= |s|
    ensures s[a..b] + s[b..c] == s[a..c]
  {
  }

  lemma CatAssoc<T>(a: seq<T>, b: seq<T>, c: seq<T>)
    ensures (a + b) + c == a + (b + c)
  {
  }

  lemma CatTail<T>(s: seq<T>, t: seq<T>)
    requires s != []
    ensures (s + t)[1..] == s[1..] + t && (s + t)[0] == s[0]
  {
  }

  lemma Whole<T>(s: seq<T>)
    ensures s[..|s|] == s && s[0..] == s && s[0..|s|] == s
  {
  }

  /** Sequences that agree up to p agree on every slice below p; likewise from k on. */
  lemma SameBelow<T>(s: seq<T>, t: seq<T>, p: nat, a: nat, b: nat)
    requires p <= |s| && p <= |t| && s[..p] == t[..p] && a <= b <= p
    ensures s[a..b] == t[a..b]
  {
    SliceOfSlice(s, 0, p, a, b);
    SliceOfSlice(t, 0, p, a, b);
  }

  lemma SameAbove<T>(s: seq<T>, t: seq<T>, k: nat, a: nat, b: nat)
    requires |s| == |t| && k <= a <= b <= |s| && s[k..] == t[k..]
    ensures s[a..b] == t[a..b]
  {
    SliceOfSlice(s, k, |s|, a - k, b - k);
    SliceOfSlice(t, k, |t|, a - k, b - k);
  }

  // ----- sequences without repetition

  ghost predicate NoDup<T>(s: seq<T>)
  {
    forall i, j :: 0 <= i < j < |s| ==> s[i] != s[j]
  }

  lemma AppendNoDup<T>(s: seq<T>, x: T)
    requires NoDup(s) && x !in s
    ensures NoDup(s + [x])
  {
  }

  function RemoveAt<T>(s: seq<T>, n: nat): seq<T>
    requires n < |s|
  {
    s[..n] + s[n + 1..]
  }

  lemma RemoveAtFacts<T>(s: seq<T>, n: nat)
    requires n < |s| && NoDup(s)
    ensures NoDup(RemoveAt(s, n))
    ensures forall x :: x in RemoveAt(s, n) <==> x in s && x != s[n]
  {
    var r := RemoveAt(s, n);
    forall x | x in s && x != s[n]
      ensures x in r
    {
      var i :| 0 <= i < |s| && s[i] == x;
      assert x == r[if i < n then i else i - 1];
    }
  }
}
