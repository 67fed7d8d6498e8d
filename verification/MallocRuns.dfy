/** Whole runs of malloc and free: the blocks handed out, and the pages held for them. Each free is
    told what memory holds at the time, which may be anything but for the page headers. */
module MallocRuns {
  import opened Wrappers
  import opened BuddyHeap
  import opened Malloc

  // ----- the heap between two calls

  datatype Heap = Heap(arenas: set<nat>, blocks: set<Block>, used: set<Block>, big: map<nat, nat>)

  ghost predicate HeapOk(h: Heap)
  {
    && Tiles(h.arenas, h.blocks) && h.used <= h.blocks && Coalesced(h.blocks, h.used) && (forall b :: b in h.blocks ==> b.k < 7)
    && (forall p :: p in h.big ==> h.big[p] > 0)
    && (forall p, q :: p in h.big && q in h.arenas ==> q < p || p + h.big[p] <= q)
    && (forall p, q :: p in h.big && q in h.big && p < q ==> p + h.big[p] <= q)
  }

  /** The addresses handed out and not freed. */
  ghost function Outstanding(h: Heap): set<Addr>
  {
    (set b | b in h.used :: AddrOf(b)) + (set p | p in h.big :: Addr(p, 24))
  }

  /** A page without a block in use is a single free block. */
  lemma UnusedPageIsWhole(h: Heap, p: nat)
    requires Tiles(h.arenas, h.blocks) && Coalesced(h.blocks, h.used) && p in h.arenas && forall b :: b in h.used ==> b.page != p
    ensures Block(p, 7, 0) in h.blocks
  {
    var whole := Block(p, 7, 0);
    forall b | b in h.blocks && Above(b, whole)
      ensures b == whole
    {
      assert Rooted(b);
    }
    FreeRegionIsOneBlock(h.arenas, h.blocks, h.used, whole);
  }

  /** So no page is held for nothing. */
  lemma EveryPageInUse(h: Heap, p: nat)
    requires HeapOk(h) && p in h.arenas
    ensures exists b :: b in h.used && b.page == p
  {
    if forall b :: b in h.used ==> b.page != p { UnusedPageIsWhole(h, p); }
  }

  /** When nothing is outstanding, no page is held. */
  lemma NothingHeld(h: Heap)
    requires HeapOk(h)
    ensures Outstanding(h) == {} <==> h.used == {} && h.big == map[]
    ensures Outstanding(h) == {} ==> h.arenas == {} && h.blocks == {}
  {
    assert forall b :: b in h.used ==> AddrOf(b) in Outstanding(h);
    assert forall p :: p in h.big ==> Addr(p, 24) in Outstanding(h);
    assert h.big.Keys == {} <==> h.big == map[];
    forall p | p in h.arenas
      ensures h.used != {}
    {
      EveryPageInUse(h, p);
    }
  }

  // ----- one call

  /** malloc (size), when palloc would hand out the run at page, has returned r. */
  ghost predicate Gets(size: nat, page: Option<nat>, a: Heap, b: Heap, r: Option<Addr>)
  {
    if r.None? then b == a
    else if size > 1024 then
      page.Some? && r.value == Addr(page.value, 24) && page.value !in a.big && b == a.(big := a.big[page.value := PagesFor(size)])
    else exists x :: GetsBlock(size, page, a, b, x) && r.value == AddrOf(x)
  }

  /** Block x, of the smallest class that fits, has been handed out. */
  ghost predicate GetsBlock(size: nat, page: Option<nat>, a: Heap, b: Heap, x: Block)
  {
    && x !in a.used && b.used == a.used + {x} && b.big == a.big
    && size <= BlockSize(x.k) && (x.k > 0 ==> BlockSize(x.k - 1) < size)
    && (b.arenas == a.arenas || (page.Some? && x.page == page.value && b.arenas == a.arenas + {page.value}))
  }

  /** free (p), when memory holds mem, has had outcome r. */
  ghost predicate Puts(p: Option<Addr>, mem: Addr -> nat, a: Heap, b: Heap, r: FreeOutcome)
  {
    if p.None? then b == a && r == Kept
    else if p.value.ofs == 24 && p.value.page in a.big then
      b == a.(big := a.big - {p.value.page}) && r == GivenBack(p.value.page, a.big[p.value.page])
    else exists x :: PutsBlock(mem, a, b, r, x) && p.value == AddrOf(x)
  }

  /** Block x has been freed, and its page with it if nothing else on it is in use; or free has
      panicked. */
  ghost predicate PutsBlock(mem: Addr -> nat, a: Heap, b: Heap, r: FreeOutcome, x: Block)
  {
    && x in a.used && (r == Panic <==> !TakenForSmall(mem, x))
    && if r == Panic then b == a
       else && b.used == a.used - {x} && b.big == a.big
            && (r.GivenBack? <==> forall y :: y in b.used ==> y.page != x.page)
            && b.arenas == if r.GivenBack? then a.arenas - {x.page} else a.arenas
  }

  /** No block lies on the first page of a big run. */
  lemma BlockNotBig(h: Heap, b: Block, p: nat)
    requires HeapOk(h) && b in h.blocks && p in h.big
    ensures b.page != p
  {
    assert b.page in h.arenas;
  }

  /** What is handed out was not outstanding before, and is the only change. */
  lemma OutstandingGrows(size: nat, page: Option<nat>, a: Heap, b: Heap, r: Addr)
    requires HeapOk(a) && HeapOk(b) && Gets(size, page, a, b, Some(r))
    ensures r !in Outstanding(a) && Outstanding(b) == Outstanding(a) + {r}
  {
    if size <= 1024 {
      var x :| GetsBlock(size, page, a, b, x) && r == AddrOf(x);
      forall y | y in a.used
        ensures AddrOf(y) != r
      {
        if AddrOf(y) == r { AddressesDistinct(b.arenas, b.blocks, x, y); }
      }
      if r.page in a.big { BlockNotBig(b, x, r.page); }
    } else {
      forall y | y in a.used
        ensures AddrOf(y) != r
      {
        BlockNotBig(b, y, page.value);
      }
    }
  }

  /** What is freed was outstanding, and is the only change. */
  lemma OutstandingShrinks(p: Addr, mem: Addr -> nat, a: Heap, b: Heap, r: FreeOutcome)
    requires HeapOk(a) && Puts(Some(p), mem, a, b, r) && r != Panic
    ensures p in Outstanding(a) && Outstanding(b) == Outstanding(a) - {p}
  {
    if p.ofs == 24 && p.page in a.big {
      forall y | y in a.used
        ensures AddrOf(y) != p
      {
        BlockNotBig(a, y, p.page);
      }
    } else {
      var x :| PutsBlock(mem, a, b, r, x) && p == AddrOf(x);
      forall y | y in a.used && y != x
        ensures AddrOf(y) != p
      {
        if AddrOf(y) == p { AddressesDistinct(a.arenas, a.blocks, x, y); }
      }
    }
  }

  // ----- runs

  datatype Op = Get(size: nat, page: Option<nat>) | Put(p: Option<Addr>, mem: Addr -> nat)

  datatype Result = Got(addr: Option<Addr>) | Freed(outcome: FreeOutcome) | Skipped

  /** Is this a call that a program may make, with a page run that palloc may find? */
  predicate CanDo(op: Op, arenas: set<nat>, big: map<nat, nat>, out: set<Addr>)
  {
    match op
    case Get(size, page) =>
      && size < 0x1_0000_0000
      && (page.Some? ==>
            && PagesFor(size) > 0
            && (forall q :: q in arenas ==> q < page.value || page.value + PagesFor(size) <= q)
            && (forall q :: q in big ==> q + big[q] <= page.value || page.value + PagesFor(size) <= q))
    case Put(p, mem) =>
      && (p.Some? ==> p.value in out)
      && (forall q :: q in arenas ==> mem(HeaderWord(q)) == 0)
      && (forall q :: q in big ==> mem(HeaderWord(q)) == big[q])
  }

  /** The effect of one operation; one that may not be made has none. */
  ghost predicate Does(op: Op, a: Heap, b: Heap, r: Result)
  {
    HeapOk(a) && HeapOk(b) &&
    if !CanDo(op, a.arenas, a.big, Outstanding(a)) then b == a && r == Skipped
    else
      match op
      case Get(size, page) => r.Got? && Gets(size, page, a, b, r.addr)
      case Put(p, mem) => r.Freed? && Puts(p, mem, a, b, r.outcome)
  }

  /** The heaps that a run goes through; a run ends early only by a panic. */
  ghost predicate RunOf(ops: seq<Op>, trace: seq<Heap>, results: seq<Result>)
  {
    && |trace| == |results| + 1 && |results| <= |ops|
    && (forall n {:trigger DoesAt(ops, trace, results, n)} :: 0 <= n < |results| ==> DoesAt(ops, trace, results, n))
    && (|results| < |ops| ==> results != [] && results[|results| - 1] == Freed(Panic))
  }

  ghost predicate DoesAt(ops: seq<Op>, trace: seq<Heap>, results: seq<Result>, n: nat)
    requires n < |ops| && n + 1 < |trace| && n < |results|
  {
    Does(ops[n], trace[n], trace[n + 1], results[n])
  }

  /** Blocks handed out less blocks freed, by one operation. */
  function Change(op: Op, r: Result): int
  {
    if r.Got? && r.addr.Some? then 1 else if op.Put? && op.p.Some? && r.Freed? && r.outcome != Panic then -1 else 0
  }

  function Balance(ops: seq<Op>, results: seq<Result>, n: nat): int
    requires n <= |ops| && n <= |results|
  {
    if n == 0 then 0 else Balance(ops, results, n - 1) + Change(ops[n - 1], results[n - 1])
  }

  lemma OneMore(s: set<Addr>, t: set<Addr>, x: Addr)
    requires x !in s && t == s + {x}
    ensures |t| == |s| + 1
  {
  }

  lemma GrowStep(size: nat, page: Option<nat>, a: Heap, b: Heap, r: Addr)
    requires HeapOk(a) && HeapOk(b) && Gets(size, page, a, b, Some(r))
    ensures |Outstanding(b)| == |Outstanding(a)| + 1
  {
    OutstandingGrows(size, page, a, b, r);
    OneMore(Outstanding(a), Outstanding(b), r);
  }

  lemma ShrinkStep(p: Addr, mem: Addr -> nat, a: Heap, b: Heap, r: FreeOutcome)
    requires HeapOk(a) && Puts(Some(p), mem, a, b, r) && r != Panic
    ensures |Outstanding(b)| == |Outstanding(a)| - 1
  {
    OutstandingShrinks(p, mem, a, b, r);
    assert Outstanding(a) == Outstanding(b) + {p};
    OneMore(Outstanding(b), Outstanding(a), p);
  }

  lemma NoChange(op: Op, a: Heap, b: Heap, r: Result)
    requires Does(op, a, b, r) && Change(op, r) == 0
    ensures b == a
  {
  }

  lemma OutstandingStep(op: Op, a: Heap, b: Heap, r: Result)
    requires Does(op, a, b, r)
    ensures |Outstanding(b)| == |Outstanding(a)| + Change(op, r)
  {
    if Change(op, r) == 1 {
      GrowStep(op.size, op.page, a, b, r.addr.value);
    } else if Change(op, r) == -1 {
      ShrinkStep(op.p.value, op.mem, a, b, r.outcome);
    } else {
      NoChange(op, a, b, r);
    }
  }

  /** Over every run, the addresses outstanding are as many as were handed out and not freed. */
  lemma {:induction false} OutstandingBalance(ops: seq<Op>, trace: seq<Heap>, results: seq<Result>, n: nat)
    requires RunOf(ops, trace, results) && n <= |results|
    ensures |Outstanding(trace[n])| == |Outstanding(trace[0])| + Balance(ops, results, n)
    decreases n
  {
    if n > 0 {
      OutstandingBalance(ops, trace, results, n - 1);
      assert DoesAt(ops, trace, results, n - 1);
      OutstandingStep(ops[n - 1], trace[n - 1], trace[n], results[n - 1]);
    }
  }

  /** Nothing leaks: over every run from an empty heap, and whatever memory holds, the allocator holds
      pages if and only if some block handed out has not been freed. */
  lemma PagesReturned(ops: seq<Op>, trace: seq<Heap>, results: seq<Result>, n: nat)
    requires RunOf(ops, trace, results) && n <= |results| && HeapOk(trace[0]) && Outstanding(trace[0]) == {}
    ensures trace[n].arenas == {} && trace[n].big == map[] <==> Balance(ops, results, n) == 0
  {
    OutstandingBalance(ops, trace, results, n);
    if n > 0 { assert DoesAt(ops, trace, results, n - 1); }
    NothingHeld(trace[n]);
    assert trace[n].arenas == {} ==> forall b :: b in trace[n].used ==> b.page in trace[n].arenas;
  }

  /** What is outstanding does not overlap, in every state of a run. */
  lemma OutstandingApart(ops: seq<Op>, trace: seq<Heap>, results: seq<Result>, n: nat, x: Block, y: Block)
    requires RunOf(ops, trace, results) && n <= |results| && HeapOk(trace[0])
    requires x in trace[n].used && y in trace[n].used && x != y && x.page == y.page
    ensures Start(x) + BlockSize(x.k) <= Start(y) || Start(y) + BlockSize(y.k) <= Start(x)
  {
    if n > 0 { assert DoesAt(ops, trace, results, n - 1); }
    BlocksDisjoint(trace[n].arenas, trace[n].blocks, x, y);
  }

  ghost function View(m: Allocator): Heap
    reads m
  {
    Heap(m.Arenas(), m.blocks, m.used, m.big)
  }

  lemma ViewOk(m: Allocator)
    requires m.Valid()
    ensures HeapOk(View(m))
  {
  }

  lemma RunGrows(ops: seq<Op>, t: seq<Heap>, trace: seq<Heap>, r: seq<Result>, results: seq<Result>, n: nat)
    requires |t| == n + 1 && |trace| == n + 2 && trace[..n + 1] == t && |r| == n && |results| == n + 1 && results[..n] == r && n < |ops|
    requires forall j {:trigger DoesAt(ops, t, r, j)} :: 0 <= j < n ==> DoesAt(ops, t, r, j)
    requires DoesAt(ops, trace, results, n)
    ensures forall j {:trigger DoesAt(ops, trace, results, j)} :: 0 <= j < n + 1 ==> DoesAt(ops, trace, results, j)
  {
    forall j | 0 <= j < n
      ensures DoesAt(ops, trace, results, j)
    {
      assert DoesAt(ops, t, r, j);
    }
  }

  method DoGet(m: Allocator, size: nat, page: Option<nat>) returns (r: Option<Addr>)
    requires m.Valid() && CanDo(Get(size, page), m.Arenas(), m.big, Outstanding(View(m)))
    modifies m
    ensures m.Valid() && Gets(size, page, old(View(m)), View(m), r)
  {
    ghost var x;
    r, x := m.Malloc(size, page);
    if r.Some? && size <= 1024 { assert GetsBlock(size, page, old(View(m)), View(m), x); }
  }

  method DoPut(m: Allocator, p: Option<Addr>, mem: Addr -> nat) returns (r: FreeOutcome)
    requires m.Valid() && CanDo(Put(p, mem), m.Arenas(), m.big, Outstanding(View(m)))
    modifies m
    ensures m.Valid() && Puts(p, mem, old(View(m)), View(m), r)
  {
    ghost var x := Block(0, 0, 0);
    if p.Some? && !(p.value.ofs == 24 && p.value.page in m.big) { x :| x in m.used && AddrOf(x) == p.value; }
    r := m.Free(p, mem, x);
    if p.Some? && !(p.value.ofs == 24 && p.value.page in old(m.big)) { assert PutsBlock(mem, old(View(m)), View(m), r, x); }
  }

  /** One operation, if it may be made; out are the addresses outstanding. */
  method DoOne(m: Allocator, op: Op, out: set<Addr>) returns (r: Result, out': set<Addr>)
    requires m.Valid() && out == Outstanding(View(m))
    modifies m
    ensures m.Valid() && out' == Outstanding(View(m)) && Does(op, old(View(m)), View(m), r)
  {
    r, out' := Skipped, out;
    ViewOk(m);
    var arenas := set q | q in m.arenaList;
    if CanDo(op, arenas, m.big, out) {
      match op
      case Get(size, page) =>
        var a := DoGet(m, size, page);
        r := Got(a);
        ViewOk(m);
        if a.Some? {
          OutstandingGrows(size, page, old(View(m)), View(m), a.value);
          out' := out + {a.value};
        }
      case Put(p, mem) =>
        var o := DoPut(m, p, mem);
        r := Freed(o);
        ViewOk(m);
        if p.Some? && o != Panic {
          OutstandingShrinks(p.value, mem, old(View(m)), View(m), o);
          out' := out - {p.value};
        }
    }
  }

  /** Any run of malloc and free from an empty heap, up to a panic. The heap invariant holds
      throughout, and at the end pages are held if and only if something is outstanding. */
  method Run(ops: seq<Op>) returns (results: seq<Result>, ghost trace: seq<Heap>)
    ensures RunOf(ops, trace, results) && trace[0] == Heap({}, {}, {}, map[])
    ensures forall n :: 0 <= n < |trace| ==> HeapOk(trace[n])
    ensures trace[|results|].arenas == {} && trace[|results|].big == map[] <==> Balance(ops, results, |results|) == 0
  {
    var m := new Allocator();
    results, trace := [], [View(m)];
    var out: set<Addr> := {};
    ViewOk(m);
    assert Outstanding(View(m)) == {};
    var n := 0;
    while n < |ops|
      invariant m.Valid() && out == Outstanding(View(m)) && fresh(m)
      invariant n <= |ops| && |results| == n && |trace| == n + 1 && trace[n] == View(m) && trace[0] == Heap({}, {}, {}, map[])
      invariant forall j {:trigger DoesAt(ops, trace, results, j)} :: 0 <= j < n ==> DoesAt(ops, trace, results, j)
      invariant forall j :: 0 <= j < |trace| ==> HeapOk(trace[j])
    {
      ghost var t, done := trace, results;
      var r;
      r, out := DoOne(m, ops[n], out);
      ViewOk(m);
      results, trace := results + [r], trace + [View(m)];
      RunGrows(ops, t, trace, done, results, n);
      n := n + 1;
      if r == Freed(Panic) {
        break;
      }
    }
    PagesReturned(ops, trace, results, |results|);
  }
}
