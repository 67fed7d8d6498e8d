/** The intrusive doubly linked list of lib/kernel/list.c on heap nodes, and its natural
    merge sort. A list owns a head and a tail sentinel; the ghost field `nodes` is the
    sequence of all its nodes, sentinels included. Node arguments come with their ghost
    position. */
module KernelList {
  import opened MergeSort
  import opened Slices

  class Elem {
    var prev: Elem?
    var next: Elem?

    constructor ()
      ensures prev == null && next == null
    {
      prev, next := null, null;
    }
  }

  /** Both link directions agree along s. */
  ghost predicate Chain(s: seq<Elem>)
    reads s
  {
    && (forall i {:trigger s[i].next} :: 0 <= i < |s| - 1 ==> s[i].next == s[i + 1])
    && (forall i {:trigger s[i].prev} :: 0 < i < |s| ==> s[i].prev == s[i - 1])
  }

  /** s after its elements [f, l) have been taken out and put back just before the element
      that was at position b. */
  ghost function Moved<T>(s: seq<T>, b: nat, f: nat, l: nat): seq<T>
    requires f <= l <= |s| && b <= |s| && (b < f || l <= b)
  {
    var rest, pos := s[..f] + s[l..], if b < f then b else b - (l - f);
    rest[..pos] + s[f..l] + rest[pos..]
  }

  ghost predicate Disjoint(s: seq<Elem>, g: seq<Elem>)
  {
    forall i, j :: 0 <= i < |s| && 0 <= j < |g| ==> s[i] != g[j]
  }

  lemma CutWithin<T>(s: seq<T>, r: set<T>, f: nat, l: nat)
    requires f <= l <= |s| && forall i :: 0 <= i < |s| ==> s[i] in r
    ensures forall i :: 0 <= i < |s[..f] + s[l..]| ==> (s[..f] + s[l..])[i] in r
    ensures forall i :: 0 <= i < |s[f..l]| ==> s[f..l][i] in r
  {
  }

  lemma CutDistinct(s: seq<Elem>, f: nat, l: nat)
    requires NoDup(s) && f <= l <= |s|
    ensures NoDup(s[..f] + s[l..]) && NoDup(s[f..l]) && Disjoint(s[..f] + s[l..], s[f..l])
  {
  }

  /** Moving the element at j down to i: what one splice of inplace_merge does. */
  lemma MovedOne<T>(s: seq<T>, i: nat, j: nat)
    requires i < j < |s|
    ensures Moved(s, i, j, j + 1) == s[..i] + [s[j]] + s[i..j] + s[j + 1..]
  {
    var rest := s[..j] + s[j + 1..];
    assert rest[..i] == s[..i] && rest[i..] == s[i..j] + s[j + 1..];
  }

  // ----- the two kinds of step of inplace_merge, on the node sequence

  /** The merge of [i, j) and [j, k) appended to what has been merged since i0. */
  ghost function Pending<T>(less: (T, T) -> bool, s: seq<T>, i0: nat, i: nat, j: nat, k: nat): seq<T>
    requires i0 <= i <= j <= k <= |s|
  {
    s[i0..i] + Merge(less, s[i..j], s[j..k])
  }

  lemma MergeDone<T>(less: (T, T) -> bool, s: seq<T>, i0: nat, i: nat, j: nat, k: nat)
    requires i0 <= i <= j <= k <= |s| && (i == j || j == k)
    ensures Pending(less, s, i0, i, j, k) == s[i0..k]
  {
    SliceCat(s, i0, i, k);
  }

  lemma KeepLeft<T>(less: (T, T) -> bool, s: seq<T>, i0: nat, i: nat, j: nat, k: nat)
    requires i0 <= i < j < k <= |s| && !less(s[j], s[i])
    ensures Pending(less, s, i0, i, j, k) == Pending(less, s, i0, i + 1, j, k)
  {
    assert s[i..j][0] == s[i] && s[j..k][0] == s[j] && s[i..j][1..] == s[i + 1..j];
    assert s[i0..i + 1] == s[i0..i] + [s[i]];
  }

  lemma TakeRight<T>(less: (T, T) -> bool, s: seq<T>, i0: nat, i: nat, j: nat, k: nat, t: seq<T>)
    requires i0 <= i < j < k <= |s| && less(s[j], s[i]) && t == Moved(s, i, j, j + 1)
    ensures |t| == |s| && t[..i0] == s[..i0] && t[k..] == s[k..]
    ensures Pending(less, s, i0, i, j, k) == Pending(less, t, i0, i + 1, j + 1, k)
    ensures t[i + 1] == s[i] && t[i] == s[j] && t[j + 1..] == s[j + 1..]
  {
    MovedOne(s, i, j);
    assert s[i..j][0] == s[i] && s[j..k][0] == s[j] && s[j..k][1..] == s[j + 1..k];
    assert t[i0..i + 1] == s[i0..i] + [s[j]];
    assert t[i + 1..j + 1] == s[i..j];
    assert t[j + 1..k] == s[j + 1..k];
  }

  lemma MovedWithin<T>(s: seq<T>, r: set<T>, b: nat, f: nat, l: nat)
    requires f <= l <= |s| && b <= |s| && (b < f || l <= b)
    requires forall i :: 0 <= i < |s| ==> s[i] in r
    ensures |Moved(s, b, f, l)| == |s| && forall i :: 0 <= i < |s| ==> Moved(s, b, f, l)[i] in r
  {
  }

  lemma OrderTransfers<T>(less: (T, T) -> bool, s: seq<T>, t: seq<T>)
    requires StrictWeakOrder(less, s) && multiset(s) == multiset(t)
    ensures StrictWeakOrder(less, t)
  {
    SameMembers(s, t);
  }

  /** One step of find_end_of_run: the element at k continues the run that started at i. */
  lemma RunGrows<T>(less: (T, T) -> bool, s: seq<T>, i: nat, k: nat, e: nat)
    requires i < k < e <= |s| && !less(s[k], s[k - 1])
    requires k - 1 - i + RunLength(less, s[k - 1..e]) == RunLength(less, s[i..e])
    ensures k - i + RunLength(less, s[k..e]) == RunLength(less, s[i..e])
  {
    assert s[k - 1..e][1..] == s[k..e];
  }

  lemma PassUnfolds<T>(less: (T, T) -> bool, n: seq<T>, p: nat, m: nat, k: nat, e: nat)
    requires p < m < e <= |n| && m == p + RunLength(less, n[p..e]) && k == m + RunLength(less, n[m..e])
    ensures PassOf(less, n[p..e]) == Merge(less, n[p..m], n[m..k]) + PassOf(less, n[k..e])
  {
    SliceOfSlice(n, p, e, 0, m - p);
    SliceOfSlice(n, p, e, m - p, e - p);
    SliceOfSlice(n, p, e, m - p, k - p);
    SliceOfSlice(n, p, e, k - p, e - p);
    PassParts(less, n[p..e], n[p..m], n[m..e], n[m..k], n[k..e]);
  }

  lemma CountUnfolds<T>(less: (T, T) -> bool, n: seq<T>, p: nat, m: nat, k: nat, e: nat)
    requires p < m < e <= |n| && m == p + RunLength(less, n[p..e]) && k == m + RunLength(less, n[m..e])
    ensures PassCount(less, n[p..e]) == 1 + PassCount(less, n[k..e])
  {
    SliceOfSlice(n, p, e, m - p, e - p);
    SliceOfSlice(n, p, e, k - p, e - p);
    PassCountParts(less, n[p..e], m - p, n[m..e], k - p, n[k..e]);
  }

  /** One output run of a pass: what is still to be passed over starts at k instead of p. */
  lemma PassStep<T>(less: (T, T) -> bool, n: seq<T>, n': seq<T>, p: nat, m: nat, k: nat, e: nat)
    requires 0 < p < m < e < |n| == |n'| && m == p + RunLength(less, n[p..e])
    requires k == m + RunLength(less, n[m..e])
    requires n'[..p] == n[..p] && n'[k..] == n[k..] && n'[p..k] == Merge(less, n[p..m], n[m..k])
    ensures n'[1..k] + PassOf(less, n'[k..e]) == n[1..p] + PassOf(less, n[p..e])
    ensures 1 + PassCount(less, n'[k..e]) == PassCount(less, n[p..e])
  {
    PassUnfolds(less, n, p, m, k, e);
    CountUnfolds(less, n, p, m, k, e);
    SameAbove(n, n', k, k, e);
    SameBelow(n, n', p, 1, p);
    SliceCat(n', 1, p, k);
    CatAssoc(n[1..p], n'[p..k], PassOf(less, n[k..e]));
  }

  lemma InsertedDistinct(s: seq<Elem>, g: seq<Elem>, b: nat)
    requires NoDup(s) && NoDup(g) && Disjoint(s, g) && b <= |s|
    ensures NoDup(s[..b] + g + s[b..])
  {
  }

  /** The nodes of s, each with its links exchanged up to position k; sentinels keep theirs. */
  ghost predicate HalfReversed(s: seq<Elem>, k: nat)
    reads s
  {
    && (forall i {:trigger s[i].next} :: 0 < i < k && i < |s| - 1 ==> s[i].next == s[i - 1])
    && (forall i {:trigger s[i].prev} :: 0 < i < k && i < |s| - 1 ==> s[i].prev == s[i + 1])
    && (forall i {:trigger s[i].next} :: k <= i < |s| - 1 ==> s[i].next == s[i + 1])
    && (forall i {:trigger s[i].prev} :: k <= i < |s| && i > 0 ==> s[i].prev == s[i - 1])
  }

  ghost function Reversed<T>(s: seq<T>): (r: seq<T>)
    ensures |r| == |s| && forall i :: 0 <= i < |s| ==> r[i] == s[|s| - 1 - i]
  {
    seq(|s|, i requires 0 <= i < |s| => s[|s| - 1 - i])
  }

  /** s with its interior reversed. */
  ghost function Turned<T>(s: seq<T>): (r: seq<T>)
    requires |s| >= 2
    ensures |r| == |s| && r[0] == s[0] && r[|s| - 1] == s[|s| - 1]
    ensures forall i :: 0 < i < |s| - 1 ==> r[i] == s[|s| - 1 - i]
  {
    [s[0]] + Reversed(s[1..|s| - 1]) + [s[|s| - 1]]
  }

  /** The links once the end links are exchanged too. */
  ghost predicate FullyReversed(s: seq<Elem>)
    requires |s| >= 3
    reads s
  {
    && (forall i {:trigger s[i].next} :: 1 < i < |s| - 1 ==> s[i].next == s[i - 1])
    && (forall i {:trigger s[i].prev} :: 0 < i < |s| - 2 ==> s[i].prev == s[i + 1])
    && s[1].next == s[|s| - 1] && s[|s| - 2].prev == s[0] && s[0].next == s[|s| - 2] && s[|s| - 1].prev == s[1]
  }

  lemma TurnedChain(s: seq<Elem>)
    requires |s| >= 3 && FullyReversed(s)
    ensures Chain(Turned(s))
  {
    var t, n := Turned(s), |s|;
    forall i {:trigger t[i].next} | 0 <= i < n - 1
      ensures t[i].next == t[i + 1]
    {
      if 0 < i < n - 2 { assert t[i] == s[n - 1 - i] && t[i + 1] == s[n - 1 - i - 1]; }
    }
    forall i {:trigger t[i].prev} | 0 < i < n
      ensures t[i].prev == t[i - 1]
    {
      if 1 < i < n - 1 { assert t[i] == s[n - 1 - i] && t[i - 1] == s[n - 1 - i + 1]; }
    }
  }

  lemma TurnedDistinct(s: seq<Elem>)
    requires |s| >= 2 && NoDup(s)
    ensures NoDup(Turned(s))
  {
  }

  class List {
    const head: Elem
    const tail: Elem
    ghost var nodes: seq<Elem>
    ghost var repr: set<Elem>        // includes all nodes

    ghost predicate Valid()
      reads this, repr
    {
      && (forall i :: 0 <= i < |nodes| ==> nodes[i] in repr)
      && |nodes| >= 2 && nodes[0] == head && nodes[|nodes| - 1] == tail
      && NoDup(nodes) && Chain(nodes)
      && head.prev == null && tail.next == null
    }

    /** The interior elements, in order. */
    ghost function Contents(): seq<Elem>
      requires |nodes| >= 2
      reads this
    {
      nodes[1..|nodes| - 1]
    }

    constructor ()
      ensures Valid() && Contents() == [] && fresh(head) && fresh(tail) && fresh(repr)
    {
      var h := new Elem();
      var t := new Elem();
      head := h;
      tail := t;
      nodes := [h, t];
      repr := {h, t};
      new;
      head.next := tail;
      tail.prev := head;
    }

    method IsEmpty() returns (r: bool)
      requires Valid()
      ensures r <==> Contents() == []
    {
      r := head.next == tail;
    }

    /** list_insert: elem goes just before the node at position i. */
    method Insert(before: Elem, elem: Elem, ghost i: nat)
      requires Valid() && 0 < i < |nodes| && nodes[i] == before && elem !in nodes
      modifies this, elem, before, nodes[i - 1]
      ensures Valid() && repr == old(repr) + {elem} && nodes == old(nodes)[..i] + [elem] + old(nodes)[i..]
    {
      InsertedDistinct(nodes, [elem], i);
      LinkOne(before, elem, nodes, i);
      repr := repr + {elem};
      nodes := nodes[..i] + [elem] + nodes[i..];
    }

    static method LinkOne(before: Elem, elem: Elem, ghost s: seq<Elem>, ghost i: nat)
      requires Chain(s) && NoDup(s) && 0 < i < |s| && before == s[i] && elem !in s
      modifies elem, before, s[i - 1]
      ensures Chain(s[..i] + [elem] + s[i..])
      ensures s[0].prev == old(s[0].prev) && s[|s| - 1].next == old(s[|s| - 1].next)
    {
      elem.prev := before.prev;
      elem.next := before;
      before.prev.next := elem;
      before.prev := elem;
    }

    /** list_remove: returns the node that followed. */
    method Remove(elem: Elem, ghost i: nat) returns (following: Elem)
      requires Valid() && 0 < i < |nodes| - 1 && nodes[i] == elem
      modifies this`nodes, nodes[i - 1], nodes[i + 1]
      ensures Valid() && nodes == old(nodes)[..i] + old(nodes)[i + 1..]
      ensures following == nodes[i]
    {
      elem.prev.next := elem.next;
      elem.next.prev := elem.prev;
      following := elem.next;
      nodes := nodes[..i] + nodes[i + 1..];
    }

    /** First half of list_splice: cuts the nodes [f, l) out of the list. */
    static method Unlink(first: Elem, end: Elem, ghost s: seq<Elem>, ghost f: nat, ghost l: nat)
      requires Chain(s) && NoDup(s) && 0 < f < l < |s| && first == s[f] && end == s[l - 1]
      modifies s[f - 1], s[l]
      ensures Chain(s[..f] + s[l..]) && Chain(s[f..l])
      ensures first.prev == old(first.prev) && s[0].prev == old(s[0].prev) && s[|s| - 1].next == old(s[|s| - 1].next)
    {
      first.prev.next := end.next;
      end.next.prev := first.prev;
    }

    /** Second half: links the chain g in before position b of the chain s. */
    static method Link(before: Elem, first: Elem, end: Elem, ghost s: seq<Elem>, ghost g: seq<Elem>, ghost b: nat)
      requires Chain(s) && Chain(g) && NoDup(s) && NoDup(g) && Disjoint(s, g) && 0 < b < |s| && g != []
      requires before == s[b] && first == g[0] && end == g[|g| - 1]
      modifies s[b - 1], s[b], g[0], g[|g| - 1]
      ensures Chain(s[..b] + g + s[b..])
      ensures s[0].prev == old(s[0].prev) && s[|s| - 1].next == old(s[|s| - 1].next)
    {
      first.prev := before.prev;
      end.next := before;
      before.prev.next := first;
      before.prev := end;
    }

    /** list_splice within one list: moves the nodes [f, l) to just before position b. */
    method Splice(before: Elem, first: Elem, last: Elem, ghost b: nat, ghost f: nat, ghost l: nat)
      requires Valid() && 0 < b < |nodes| && 0 < f <= l < |nodes|
      requires before == nodes[b] && first == nodes[f] && last == nodes[l]
      requires f < l ==> b < f || l <= b
      modifies this`nodes, repr
      ensures Valid() && |nodes| == |old(nodes)|
      ensures nodes == if f == l then old(nodes) else Moved(old(nodes), b, f, l)
    {
      if first == last {
        return;
      }
      var end := last.prev;
      ghost var rest, seg := nodes[..f] + nodes[l..], nodes[f..l];
      ghost var pos := if b < f then b else b - (l - f);
      CutDistinct(nodes, f, l);
      CutWithin(nodes, repr, f, l);
      assert rest[pos] == before;
      Unlink(first, end, nodes, f, l);
      assert rest[0] == head && rest[|rest| - 1] == tail;
      Link(before, first, end, rest, seg, pos);
      InsertedDistinct(rest, seg, pos);
      MovedWithin(nodes, repr, b, f, l);
      nodes := rest[..pos] + seg + rest[pos..];
    }

    // ----- sorting

    /** list_splice from another list: the nodes [f, l) of other move to just before position b of
        this one. */
    method SpliceFrom(other: List, before: Elem, first: Elem, last: Elem, ghost b: nat, ghost f: nat, ghost l: nat)
      requires Valid() && other.Valid() && repr !! other.repr
      requires 0 < b < |nodes| && before == nodes[b]
      requires 0 < f <= l < |other.nodes| && first == other.nodes[f] && last == other.nodes[l]
      modifies this`nodes, this`repr, repr, other`nodes, other`repr, other.repr
      ensures Valid() && other.Valid() && repr !! other.repr && repr + other.repr == old(repr + other.repr)
      ensures nodes == old(nodes)[..b] + old(other.nodes)[f..l] + old(nodes)[b..]
      ensures other.nodes == old(other.nodes)[..f] + old(other.nodes)[l..]
    {
      ghost var mine, theirs := nodes, other.nodes;
      ghost var rest, seg := theirs[..f] + theirs[l..], theirs[f..l];
      CutWithin(theirs, other.repr, f, l);
      CutDistinct(theirs, f, l);
      if first != last {
        Relink(before, first, last, mine, theirs, b, f, l);
        InsertedDistinct(mine, seg, b);
      } else {
        assert rest == theirs && mine[..b] + seg + mine[b..] == mine;
      }
      TakeOver(other, seg, rest, b);
    }

    /** The pointer changes of list_splice between two chains. */
    static method Relink(before: Elem, first: Elem, last: Elem, ghost mine: seq<Elem>, ghost theirs: seq<Elem>, ghost b: nat, ghost f: nat, ghost l: nat)
      requires Chain(mine) && Chain(theirs) && NoDup(mine) && NoDup(theirs) && Disjoint(mine, theirs)
      requires 0 < b < |mine| && before == mine[b] && 0 < f < l < |theirs| && first == theirs[f] && last == theirs[l]
      modifies mine, theirs
      ensures Chain(mine[..b] + theirs[f..l] + mine[b..]) && Chain(theirs[..f] + theirs[l..])
      ensures mine[0].prev == old(mine[0].prev) && mine[|mine| - 1].next == old(mine[|mine| - 1].next)
      ensures theirs[0].prev == old(theirs[0].prev) && theirs[|theirs| - 1].next == old(theirs[|theirs| - 1].next)
    {
      var end := last.prev;
      CutDistinct(theirs, f, l);
      Unlink(first, end, theirs, f, l);
      Link(before, first, end, mine, theirs[f..l], b);
    }

    /** The nodes seg now belong to this list. */
    ghost method TakeOver(other: List, seg: seq<Elem>, rest: seq<Elem>, b: nat)
      requires other != this && 0 < b < |nodes| && repr !! other.repr
      requires var s := nodes[..b] + seg + nodes[b..]; NoDup(s) && Chain(s) && s[0] == head && s[|s| - 1] == tail
      requires forall i :: 0 <= i < |nodes| ==> nodes[i] in repr
      requires forall i :: 0 <= i < |seg| ==> seg[i] in other.repr
      requires forall i :: 0 <= i < |rest| ==> rest[i] in other.repr
      requires head.prev == null && tail.next == null && other.head.prev == null && other.tail.next == null
      requires |rest| >= 2 && NoDup(rest) && Chain(rest) && rest[0] == other.head && rest[|rest| - 1] == other.tail && Disjoint(rest, seg)
      modifies this`nodes, this`repr, other`nodes, other`repr
      ensures Valid() && other.Valid() && repr !! other.repr && repr + other.repr == old(repr + other.repr)
      ensures nodes == old(nodes)[..b] + seg + old(nodes)[b..] && other.nodes == rest
    {
      ghost var moved := set i | 0 <= i < |seg| :: seg[i];
      repr, other.repr := repr + moved, other.repr - moved;
      nodes, other.nodes := nodes[..b] + seg + nodes[b..], rest;
    }

    /** find_end_of_run: the end of the run that starts at position i, not beyond position e. */
    method FindEndOfRun(start: Elem, end: Elem, less: (Elem, Elem) -> bool, ghost i: nat, ghost e: nat)
      returns (a: Elem, ghost k: nat)
      requires Valid() && 0 < i < e < |nodes| && start == nodes[i] && end == nodes[e]
      ensures k == i + RunLength(less, nodes[i..e]) <= e && a == nodes[i + RunLength(less, nodes[i..e])]
    {
      a := start.next;
      k := i + 1;
      while a != end && !less(a, a.prev)
        invariant i < k <= e && a == nodes[k]
        invariant k - 1 - i + RunLength(less, nodes[k - 1..e]) == RunLength(less, nodes[i..e])
        decreases e - k
      {
        RunGrows(less, nodes, i, k, e);
        a := a.next;
        k := k + 1;
      }
    }

    /** The splicing step of inplace_merge: the first element of the second run moves before a0. */
    method MoveDown(a0: Elem, a1b0: Elem, ghost end: Elem, less: (Elem, Elem) -> bool,
                    ghost i0: nat, ghost i: nat, ghost j: nat, ghost k: nat) returns (following: Elem)
      requires Valid() && 0 < i0 <= i < j < k < |nodes| && a0 == nodes[i] && a1b0 == nodes[j] && end == nodes[k]
      requires less(a1b0, a0)
      modifies this`nodes, repr
      ensures Valid() && |nodes| == |old(nodes)|
      ensures nodes[i + 1] == a0 && nodes[j + 1] == following && nodes[k] == end
      ensures nodes[..i0] == old(nodes)[..i0] && nodes[k..] == old(nodes)[k..]
      ensures Pending(less, nodes, i0, i + 1, j + 1, k) == Pending(less, old(nodes), i0, i, j, k)
    {
      following := a1b0.next;
      Splice(a0, following.prev, following, i, j, j + 1);
      TakeRight(less, old(nodes), i0, i, j, k, nodes);
      assert nodes[j + 1] == nodes[j + 1..][0];
      assert nodes[k] == nodes[k..][0];
    }

    /** The other step: the first element of the first run stays where it is. */
    method KeepInPlace(a0: Elem, ghost a1b0: Elem, less: (Elem, Elem) -> bool,
                       ghost i0: nat, ghost i: nat, ghost j: nat, ghost k: nat) returns (following: Elem)
      requires Valid() && 0 < i0 <= i < j < k < |nodes| && a0 == nodes[i] && a1b0 == nodes[j]
      requires !less(a1b0, a0)
      ensures following == nodes[i + 1]
      ensures Pending(less, nodes, i0, i + 1, j, k) == Pending(less, nodes, i0, i, j, k)
    {
      KeepLeft(less, nodes, i0, i, j, k);
      following := a0.next;
    }

    /** One turn of the loop in inplace_merge. */
    method MergeStep(a0: Elem, a1b0: Elem, ghost end: Elem, less: (Elem, Elem) -> bool,
                     ghost i0: nat, ghost i: nat, ghost j: nat, ghost k: nat)
      returns (a0': Elem, a1b0': Elem, ghost i': nat, ghost j': nat)
      requires Valid() && 0 < i0 <= i < j < k < |nodes| && a0 == nodes[i] && a1b0 == nodes[j] && end == nodes[k]
      modifies this`nodes, repr
      ensures Valid() && |nodes| == |old(nodes)|
      ensures i' == i + 1 && j <= j' <= j + 1 && i' <= j' && a0' == nodes[i'] && a1b0' == nodes[j'] && nodes[k] == end
      ensures nodes[..i0] == old(nodes)[..i0] && nodes[k..] == old(nodes)[k..]
      ensures Pending(less, nodes, i0, i', j', k) == Pending(less, old(nodes), i0, i, j, k)
    {
      a0', a1b0', i', j' := a0, a1b0, i + 1, j;
      if !less(a1b0, a0) {
        a0' := KeepInPlace(a0, a1b0, less, i0, i, j, k);
      } else {
        a1b0' := MoveDown(a0, a1b0, end, less, i0, i, j, k);
        j' := j + 1;
      }
    }

    /** inplace_merge: merges the adjacent ranges [i0, j0) and [j0, k) stably, in place. As the
        source asserts, neither range has a descent. */
    method InplaceMerge(start: Elem, mid: Elem, end: Elem, less: (Elem, Elem) -> bool,
                        ghost i0: nat, ghost j0: nat, ghost k: nat)
      requires Valid() && 0 < i0 <= j0 <= k < |nodes|
      requires start == nodes[i0] && mid == nodes[j0] && end == nodes[k]
      requires Runs(less, nodes[i0..j0]) <= 1 && Runs(less, nodes[j0..k]) <= 1
      modifies this`nodes, repr
      ensures Valid() && |nodes| == |old(nodes)|
      ensures nodes[..i0] == old(nodes)[..i0] && nodes[k..] == old(nodes)[k..]
      ensures nodes[i0..k] == Merge(less, old(nodes)[i0..j0], old(nodes)[j0..k])
    {
      var a0, a1b0 := start, mid;
      ghost var i, j := i0, j0;
      while a0 != a1b0 && a1b0 != end
        invariant Valid() && |nodes| == |old(nodes)|
        invariant i0 <= i <= j <= k && a0 == nodes[i] && a1b0 == nodes[j] && end == nodes[k]
        invariant nodes[..i0] == old(nodes)[..i0] && nodes[k..] == old(nodes)[k..]
        invariant Pending(less, nodes, i0, i, j, k) == Merge(less, old(nodes)[i0..j0], old(nodes)[j0..k])
        decreases k - j, j - i
      {
        a0, a1b0, i, j := MergeStep(a0, a1b0, end, less, i0, i, j, k);
      }
      MergeDone(less, nodes, i0, i, j, k);
    }

    /** The loop of list_reverse: exchanges the links of every interior node. */
    method ExchangeLinks()
      requires Valid()
      modifies repr
      ensures HalfReversed(nodes, |nodes| - 1) && head.next == nodes[1] && tail.prev == nodes[|nodes| - 2]
      ensures head.prev == null && tail.next == null
    {
      var e := head.next;
      ghost var k := 1;
      while e != tail
        invariant 1 <= k < |nodes| && e == nodes[k]
        invariant HalfReversed(nodes, k) && head.next == nodes[1] && head.prev == null && tail.next == null
        decreases |nodes| - k
      {
        assert nodes[k].next == nodes[k + 1] && nodes[k].prev == nodes[k - 1];
        e.prev, e.next := e.next, e.prev;
        e := e.prev;
        k := k + 1;
      }
      assert nodes[|nodes| - 1].prev == nodes[|nodes| - 2];
    }

    /** list_reverse */
    method Reverse()
      requires Valid()
      modifies this`nodes, repr
      ensures Valid() && Contents() == Reversed(old(Contents()))
    {
      var empty := IsEmpty();
      if !empty {
        ExchangeLinks();
        ExchangeEnds();
        TurnedChain(nodes);
        TurnedDistinct(nodes);
        nodes := Turned(nodes);
      }
    }

    /** The last two exchanges of list_reverse. */
    method ExchangeEnds()
      requires |nodes| >= 3 && nodes[0] == head && nodes[|nodes| - 1] == tail && NoDup(nodes)
      requires forall i :: 0 <= i < |nodes| ==> nodes[i] in repr
      requires HalfReversed(nodes, |nodes| - 1) && head.next == nodes[1] && tail.prev == nodes[|nodes| - 2]
      requires head.prev == null && tail.next == null
      modifies repr
      ensures FullyReversed(nodes) && head.prev == null && tail.next == null
    {
      head.next, tail.prev := tail.prev, head.next;
      assert head.next == nodes[|nodes| - 2] && tail.prev == nodes[1];
      head.next.prev, tail.prev.next := tail.prev.next, head.next.prev;
    }

    /** One pass of list_sort: merges the runs pairwise and counts the runs it outputs. */
    method Pass(less: (Elem, Elem) -> bool) returns (outputRunCnt: nat)
      requires Valid()
      modifies this`nodes, repr
      ensures Valid() && Contents() == PassOf(less, old(Contents()))
      ensures outputRunCnt == PassCount(less, old(Contents()))
    {
      outputRunCnt := 0;
      ghost var p, e := 1, |nodes| - 1;
      var a0 := head.next;
      assert nodes[1..1] == [] && nodes[1..e] == Contents();
      while a0 != tail
        invariant Valid() && 0 < p <= e == |nodes| - 1 && a0 == nodes[p]
        invariant nodes[1..p] + PassOf(less, nodes[p..e]) == PassOf(less, old(Contents()))
        invariant outputRunCnt + PassCount(less, nodes[p..e]) == PassCount(less, old(Contents()))
        decreases e - p
      {
        outputRunCnt := outputRunCnt + 1;
        a0, p := OutputRun(a0, less, p, e);
      }
      assert p == e;
      assert nodes[p..e] == [];
    }

    /** One iteration of a pass: a last single run is left alone, two adjacent runs are merged. */
    method OutputRun(a0: Elem, less: (Elem, Elem) -> bool, ghost p: nat, ghost e: nat) returns (b1: Elem, ghost k: nat)
      requires Valid() && 0 < p < e == |nodes| - 1 && a0 == nodes[p]
      modifies this`nodes, repr
      ensures Valid() && |nodes| == |old(nodes)| && p < k <= e && b1 == nodes[k]
      ensures nodes[1..k] + PassOf(less, nodes[k..e]) == old(nodes)[1..p] + PassOf(less, old(nodes)[p..e])
      ensures 1 + PassCount(less, nodes[k..e]) == PassCount(less, old(nodes)[p..e])
    {
      var a1b0, m := FindEndOfRun(a0, tail, less, p, e);
      if a1b0 == tail {
        SliceCat(nodes, 1, p, e);
        b1, k := tail, e;
        assert nodes[e..e] == [] && nodes[1..e] + [] == nodes[1..e];
      } else {
        b1, k := FindEndOfRun(a1b0, tail, less, m, e);
        MergePair(a0, a1b0, b1, less, p, m, k, e);
      }
    }

    /** Merges the two runs found by a pass. */
    method MergePair(a0: Elem, a1b0: Elem, b1: Elem, less: (Elem, Elem) -> bool,
                     ghost p: nat, ghost m: nat, ghost k: nat, ghost e: nat)
      requires Valid() && 0 < p < e == |nodes| - 1 && m == p + RunLength(less, nodes[p..e])
      requires m < e && k == m + RunLength(less, nodes[m..e])
      requires a0 == nodes[p] && a1b0 == nodes[m] && b1 == nodes[k]
      modifies this`nodes, repr
      ensures Valid() && |nodes| == |old(nodes)| && b1 == nodes[k]
      ensures nodes[1..k] + PassOf(less, nodes[k..e]) == old(nodes)[1..p] + PassOf(less, old(nodes)[p..e])
      ensures 1 + PassCount(less, nodes[k..e]) == PassCount(less, old(nodes)[p..e])
    {
      RunFacts(less, nodes[p..e]);
      RunFacts(less, nodes[m..e]);
      SliceOfSlice(nodes, p, e, 0, m - p);
      SliceOfSlice(nodes, m, e, 0, k - m);
      InplaceMerge(a0, a1b0, b1, less, p, m, k);
      PassStep(less, old(nodes), nodes, p, m, k, e);
      assert nodes[k] == nodes[k..][0];
    }

    /** list_sort: a sorted, stable permutation of the same nodes, on well-formed links. Each
        pass at least halves the number of runs, so it terminates. */
    method Sort(less: (Elem, Elem) -> bool)
      requires Valid() && StrictWeakOrder(less, Contents())
      modifies this`nodes, repr
      ensures Valid() && Sorted(less, Contents()) && Stable(less, old(Contents()), Contents())
    {
      ghost var c0 := Contents();
      PassStable(less, c0, c0);
      PassHalves(less, c0, c0);
      var outputRunCnt := Pass(less);
      while outputRunCnt > 1
        invariant Valid() && Stable(less, c0, Contents())
        invariant Runs(less, Contents()) <= outputRunCnt
        decreases outputRunCnt
      {
        ghost var c := Contents();
        OrderTransfers(less, c0, c);
        PassStable(less, c, c);
        PassHalves(less, c, c);
        outputRunCnt := Pass(less);
        StableTransitive(less, c0, c, Contents());
      }
      OrderTransfers(less, c0, Contents());
      OneRunSorted(less, Contents(), Contents());
    }
  }
}
