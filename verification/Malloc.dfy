/** The buddy allocator of threads/malloc.c. Free lists, block size tags and the arena list
    are updated in place. The page allocator is a parameter: each call is told which run of
    pages palloc would hand out, if any. Size tags and page counts are fields here; the C code
    keeps them in memory next to or inside what it hands out, so free is also told what the
    memory words it looks at hold. */
module Malloc {
  import opened Wrappers
  import opened Slices
  import opened BuddyHeap

  // ----- free lists as sequences of tree nodes

  ghost function Addrs(l: seq<Block>): seq<Addr>
  {
    seq(|l|, n requires 0 <= n < |l| => AddrOf(l[n]))
  }

  ghost predicate Mirrors(free: seq<seq<Addr>>, lists: seq<seq<Block>>)
  {
    |free| == 7 && |lists| == 7 && forall k :: 0 <= k < 7 ==> free[k] == Addrs(lists[k])
  }

  /** List k holds exactly the free blocks of class k, each once. */
  ghost predicate ListsOk(lists: seq<seq<Block>>, blocks: set<Block>, used: set<Block>)
  {
    |lists| == 7 &&
    forall k :: 0 <= k < 7 ==>
      NoDup(lists[k]) && forall b :: b in lists[k] <==> b in blocks && b !in used && b.k == k
  }

  ghost predicate TagsOk(tag: map<Addr, nat>, blocks: set<Block>)
  {
    forall b :: b in blocks ==> AddrOf(b) in tag && tag[AddrOf(b)] == BlockSize(b.k)
  }

  /** Pushing the upper half of a split block, whose lower half stays in use. */
  lemma PushHalf(arenas: set<nat>, lists: seq<seq<Block>>, blocks: set<Block>, used: set<Block>, c: Block)
    requires Tiles(arenas, blocks) && used <= blocks && c in used && 0 < c.k <= 7
    requires ListsOk(lists, blocks, used)
    ensures ListsOk(lists[c.k - 1 := lists[c.k - 1] + [RightHalf(c)]], Split(blocks, c), used - {c} + {LeftHalf(c)})
  {
    SplitTiles(arenas, blocks, c);
    AppendNoDup(lists[c.k - 1], RightHalf(c));
  }

  /** Tagging one block leaves the tags of the other blocks of the tiling alone. */
  lemma TagBlock(arenas: set<nat>, blocks: set<Block>, tag: map<Addr, nat>, rest: set<Block>, b: Block)
    requires Tiles(arenas, blocks) && rest <= blocks && b in blocks && TagsOk(tag, rest)
    ensures TagsOk(tag[AddrOf(b) := BlockSize(b.k)], rest + {b})
  {
    forall x | x in rest && AddrOf(x) == AddrOf(b)
      ensures x == b
    {
      AddressesDistinct(arenas, blocks, x, b);
    }
  }

  lemma TakeFront(lists: seq<seq<Block>>, blocks: set<Block>, used: set<Block>, k: nat)
    requires k < 7 && ListsOk(lists, blocks, used) && lists[k] != [] && used <= blocks
    ensures lists[k][0] in blocks && lists[k][0] !in used && lists[k][0].k == k
    ensures ListsOk(lists[k := lists[k][1..]], blocks, used + {lists[k][0]})
  {
    RemoveAtFacts(lists[k], 0);
    assert RemoveAt(lists[k], 0) == lists[k][1..];
  }

  /** Nothing below a block of a tiling belongs to the tiling. */
  lemma HalfIsNew(blocks: set<Block>, c0: Block, c: Block, h: Block)
    requires c0 in blocks && (forall b, x :: b in blocks && x in blocks && Above(b, x) ==> b == x)
    requires Above(c0, c) && c.k > 0 && h == LeftHalf(c)
    ensures h !in blocks && Above(c0, h)
  {
    AboveTransitive(c0, c, h);
  }

  lemma OnlyAncestorsSplit(first: set<Block>, before: set<Block>, c: Block)
    requires c.k > 0 && forall x :: x in first ==> x in before || Above(x, c)
    ensures forall x :: x in first ==> x in Split(before, c) || Above(x, LeftHalf(c))
  {
    forall x | x in first && Above(x, c)
      ensures Above(x, LeftHalf(c))
    {
      AboveTransitive(x, c, LeftHalf(c));
    }
    assert Above(c, LeftHalf(c));
  }

  /** The free lists while the block at address a, first on list k, is being split. */
  ghost predicate MirrorsBut(free: seq<seq<Addr>>, lists: seq<seq<Block>>, k: nat, a: Addr)
  {
    k < 7 && |free| == 7 && free[k] != [] && free[k][0] == a && Mirrors(free[k := free[k][1..]], lists)
  }

  /** Taking the buddy off its list and merging it with the block being freed. */
  lemma MergeLists(arenas: set<nat>, lists: seq<seq<Block>>, blocks: set<Block>, used: set<Block>, c: Block, n: nat)
    requires Tiles(arenas, blocks) && used <= blocks && c in used && c.k < 7
    requires ListsOk(lists, blocks, used) && n < |lists[c.k]| && lists[c.k][n] == Buddy(c)
    ensures ListsOk(lists[c.k := RemoveAt(lists[c.k], n)], Merge(blocks, c), used - {c} + {Parent(c)})
  {
    MergeTiles(arenas, blocks, c);
    RemoveAtFacts(lists[c.k], n);
  }

  lemma TagParent(arenas: set<nat>, tag: map<Addr, nat>, blocks: set<Block>, c: Block, v: nat)
    requires Tiles(arenas, Merge(blocks, c)) && TagsOk(tag, blocks - {c})
    ensures TagsOk(tag[AddrOf(Parent(c)) := v], Merge(blocks, c) - {Parent(c)})
  {
    forall b | b in Merge(blocks, c) && AddrOf(b) == AddrOf(Parent(c))
      ensures b == Parent(c)
    {
      AddressesDistinct(arenas, Merge(blocks, c), b, Parent(c));
    }
  }

  lemma NotListed(l: seq<Block>, x: Block)
    requires AddrOf(x) !in Addrs(l)
    ensures x !in l
  {
    forall n | 0 <= n < |l|
      ensures l[n] != x
    {
      assert Addrs(l)[n] == AddrOf(l[n]);
    }
  }

  lemma QueueCoalesced(blocks: set<Block>, used: set<Block>, c: Block)
    requires Coalesced(blocks, used) && c in blocks && (Buddy(c) in blocks ==> Buddy(c) in used)
    requires forall b :: b in blocks && Buddy(b) == c ==> b == Buddy(c)
    ensures Coalesced(blocks, used - {c})
  {
  }

  lemma BuddyOfBuddy(b: Block)
    ensures Buddy(Buddy(b)) == b
  {
  }

  /** Buddies by address: the lower one is where the parent starts. */
  lemma BuddyAddresses(c: Block)
    requires Rooted(c) && c.k < 7
    ensures c.i % 2 == 0 ==> AddrOf(Parent(c)) == AddrOf(c)
    ensures c.i % 2 != 0 ==> AddrOf(Parent(c)) == AddrOf(Buddy(c))
  {
    BuddyRooted(c);
    HalfStarts(Parent(c));
  }

  /** On one list, equal addresses mean equal blocks. */
  lemma SameAddressSameBlock(x: Block, y: Block)
    requires x.k == y.k && AddrOf(x) == AddrOf(y)
    ensures x == y
  {
    if x.i < y.i { SameClassApart(x, y); } else if y.i < x.i { SameClassApart(y, x); }
  }

  // ----- request sizes

  /** Pages asked of palloc for SIZE bytes, with the wrap-around of 32-bit size_t. */
  function PagesFor(size: nat): nat
  {
    if size <= 1024 then 1
    else ((size + 24) % 0x1_0000_0000 + 4095) % 0x1_0000_0000 / 4096
  }

  /** The page count of a big request wraps to 0, which palloc refuses, or to a run that is too
      short, exactly for the last sizes below 2^32; any other run is the shortest that holds the
      header and the request. */
  lemma BigRequestFits(size: nat)
    requires 1024 < size < 0x1_0000_0000
    ensures PagesFor(size) == 0 <==> 0x1_0000_0000 - 4119 <= size <= 0x1_0000_0000 - 24
    ensures PagesFor(size) > 0 ==> (PagesFor(size) * 4096 >= size + 24 <==> size + 24 < 0x1_0000_0000)
    ensures PagesFor(size) > 0 && size + 24 < 0x1_0000_0000 ==> (PagesFor(size) - 1) * 4096 < size + 24
    ensures size + 24 > 0x1_0000_0000 ==> PagesFor(size) == 1
  {
  }

  lemma {:induction false} SizesGrow(j: nat, k: nat)
    requires j < k
    ensures BlockSize(j) < BlockSize(k)
    decreases k - j
  {
    if j + 1 < k { SizesGrow(j + 1, k); }
  }

  // ----- what free reads from memory

  /** Where arena->num_pages and block->size lie. */
  function HeaderWord(page: nat): Addr { Addr(page, 20) }

  function TagWord(a: Addr): Addr { Addr(a.page, a.ofs + 12) }

  /** The word in which free looks for num_pages: the one before the block. */
  function WordBefore(a: Addr): Addr
    requires a.ofs >= 4
  {
    Addr(a.page, a.ofs - 4)
  }

  /** The word before a block that starts its page is num_pages; the word before one that follows
      a 16-byte block is the size tag of that block. */
  lemma WordBeforeBlock(x: Block, b: Block)
    ensures Start(b) == 0 ==> WordBefore(AddrOf(b)) == HeaderWord(b.page)
    ensures x.page == b.page && x.k == 0 && Start(x) + 16 == Start(b) ==> WordBefore(AddrOf(b)) == TagWord(AddrOf(x))
  {
  }

  /** In general it is the last word of the block that precedes b, which is that block's tag only
      if it has 16 bytes. */
  lemma WordBeforeIsInPredecessor(arenas: set<nat>, blocks: set<Block>, b: Block) returns (x: Block)
    requires Tiles(arenas, blocks) && b in blocks && Start(b) > 0
    ensures x in blocks && x.page == b.page && Start(x) + BlockSize(x.k) == Start(b)
    ensures WordBefore(AddrOf(b)).ofs + 4 == AddrOf(x).ofs + BlockSize(x.k)
    ensures WordBefore(AddrOf(b)) == TagWord(AddrOf(x)) <==> x.k == 0
  {
    WithinPayload(b);
    x := EveryByteInOneBlock(arenas, blocks, b.page, Start(b) - 1);
    BlocksDisjoint(arenas, blocks, x, b);
    if x.k > 0 { SizesGrow(0, x.k); }
  }

  /** free takes the block for a small one. */
  ghost predicate TakenForSmall(mem: Addr -> nat, b: Block)
  {
    Start(b) == 0 || mem(WordBefore(AddrOf(b))) == 0
  }

  /** A block that follows a 16-byte block whose tag is intact is never taken for a small one. */
  lemma NeverSmallBehindUnit(mem: Addr -> nat, x: Block, b: Block)
    requires x.page == b.page && x.k == 0 && Start(x) + BlockSize(x.k) == Start(b)
    requires mem(TagWord(AddrOf(x))) == BlockSize(x.k)
    ensures !TakenForSmall(mem, b)
  {
    WordBeforeBlock(x, b);
  }

  /** What free did: nothing for palloc, a run of pages given back, or a failed assertion in
      palloc_free_multiple. */
  datatype FreeOutcome = Kept | GivenBack(page: nat, pages: nat) | Panic

  class Allocator {
    var free: seq<seq<Addr>>         // descs[k].free_list
    var arenaList: seq<nat>          // pages holding small blocks
    var tag: map<Addr, nat>          // block->size
    var big: map<nat, nat>           // arena->num_pages of big blocks, by first page
    ghost var blocks: set<Block>
    ghost var used: set<Block>
    ghost var lists: seq<seq<Block>>

    ghost function Arenas(): set<nat>
      reads this
    {
      set p | p in arenaList
    }

    /** The heap while block c, which counts as used, is being split or freed. */
    ghost predicate Shape(arenas: set<nat>, c: set<Block>)
      reads this
    {
      && Tiles(arenas, blocks) && used <= blocks && Coalesced(blocks, used)
      && (forall b :: b in blocks && b !in c ==> b.k < 7)
      && ListsOk(lists, blocks, used)
      && TagsOk(tag, blocks - c)
    }

    /** Page runs of big blocks are disjoint from each other and from the arenas. */
    ghost predicate BigOk(arenas: set<nat>)
      reads this
    {
      && (forall p :: p in big ==> big[p] > 0)
      && (forall p, q :: p in big && q in arenas ==> q < p || p + big[p] <= q)
      && (forall p, q :: p in big && q in big && p < q ==> p + big[p] <= q)
    }

    ghost predicate Valid()
      reads this
    {
      Shape(Arenas(), {}) && Mirrors(free, lists) && NoDup(arenaList) && BigOk(Arenas())
    }

    /** palloc only hands out pages that are not in use. */
    ghost predicate FreshRun(p: nat, cnt: nat)
      reads this
    {
      && (forall q :: q in Arenas() ==> q < p || p + cnt <= q)
      && (forall q :: q in big ==> q + big[q] <= p || p + cnt <= q)
    }

    constructor ()
      ensures Valid() && used == {} && blocks == {} && arenaList == [] && big == map[]
    {
      free := seq(7, _ => []);
      arenaList := [];
      tag := map[];
      big := map[];
      blocks := {};
      used := {};
      lists := seq(7, _ => []);
    }

    /** The descriptor that fits SIZE, and the first one from there on with a free block. */
    method FindDesc(size: nat) returns (desc: nat, cnt: nat)
      requires Valid()
      ensures desc <= 7 && (forall j :: 0 <= j < desc ==> BlockSize(j) < size)
      ensures desc < 7 ==> size <= BlockSize(desc)
      ensures desc <= cnt <= 7 && (forall j :: desc <= j < cnt ==> free[j] == [])
      ensures desc < 7 && cnt < 7 ==> free[cnt] != []
    {
      desc, cnt := 0, 0;
      while desc < 7
        invariant desc == cnt <= 7
        invariant forall j :: 0 <= j < desc ==> BlockSize(j) < size
      {
        if BlockSize(desc) >= size {
          while cnt < 7 && free[cnt] == []
            invariant desc <= cnt <= 7
            invariant forall j :: desc <= j < cnt ==> free[j] == []
          {
            cnt := cnt + 1;
          }
          break;
        }
        cnt := cnt + 1;
        desc := desc + 1;
      }
    }

    /** Records that block c has been split: its left half stays in use, its right half is free. */
    ghost method SplitUsed(arenas: set<nat>, c: Block)
      requires Tiles(arenas, blocks) && used <= blocks && Coalesced(blocks, used) && ListsOk(lists, blocks, used)
      requires c in used && 0 < c.k <= 7 && (forall b :: b in blocks && b != c ==> b.k < 7)
      modifies this`blocks, this`used, this`lists
      ensures blocks == Split(old(blocks), c) && used == old(used) - {c} + {LeftHalf(c)}
      ensures lists == old(lists)[c.k - 1 := old(lists)[c.k - 1] + [RightHalf(c)]]
      ensures Tiles(arenas, blocks) && used <= blocks && Coalesced(blocks, used) && ListsOk(lists, blocks, used)
      ensures forall b :: b in blocks ==> b.k < 7
      ensures forall b :: b in blocks && b != LeftHalf(c) && b != RightHalf(c) ==> b in old(blocks) && b != c
      ensures LeftHalf(c) in blocks && RightHalf(c) in blocks
    {
      SplitTiles(arenas, blocks, c);
      SplitCoalesced(arenas, blocks, used, c);
      PushHalf(arenas, lists, blocks, used, c);
      blocks := Split(blocks, c);
      used := used - {c} + {LeftHalf(c)};
      lists := lists[c.k - 1 := lists[c.k - 1] + [RightHalf(c)]];
    }

    /** Tags the upper half of c and appends it to its free list. */
    method FreeUpperHalf(ghost arenas: set<nat>, ghost c: Block, a: Addr, k: nat)
      requires Shape(arenas, {c}) && Mirrors(free, lists) && c in used
      requires c.k == k + 1 && k < 7 && a == AddrOf(RightHalf(c))
      modifies this`free, this`tag, this`blocks, this`used, this`lists
      ensures Shape(arenas, {LeftHalf(c)}) && Mirrors(free, lists)
      ensures used == old(used) - {c} + {LeftHalf(c)} && blocks == Split(old(blocks), c)
      ensures free == old(free)[k := old(free)[k] + [a]]
    {
      SplitUsed(arenas, c);
      TagBlock(arenas, blocks, tag, blocks - {LeftHalf(c), RightHalf(c)}, RightHalf(c));
      tag := tag[a := BlockSize(k)];
      free := free[k := free[k] + [a]];
      assert blocks - {LeftHalf(c)} == blocks - {LeftHalf(c), RightHalf(c)} + {RightHalf(c)};
    }

    /** Divides a new page down to class desc; every upper half goes to a free list. */
    method FreshPage(desc: nat, page: nat) returns (r: Addr, ghost b: Block)
      requires Valid() && desc < 7 && FreshRun(page, 1)
      modifies this
      ensures Valid() && big == old(big) && arenaList == old(arenaList) + [page]
      ensures b == Block(page, desc, 0) && r == AddrOf(b) && b !in old(blocks)
      ensures used == old(used) + {b} && old(blocks) <= blocks
      ensures free[desc] == old(free)[desc] + [AddrOf(Block(page, desc, 1))]
    {
      ghost var arenas := Arenas() + {page};
      TakePage(page);
      ghost var c := DividePage(arenas, page, desc);
      FreeUpperHalf(arenas, c, Addr(page, 24 + 1 * BlockSize(desc)), desc);
      b := LeftHalf(c);
      r := Addr(page, 24 + 0 * BlockSize(desc));
      FinishPage(arenas, b, r, BlockSize(desc), page);
    }

    /** A page obtained from palloc is at first one block of the top class, in use. */
    ghost method TakePage(page: nat)
      requires Valid() && page !in arenaList
      modifies this`blocks, this`used
      ensures blocks == old(blocks) + {Block(page, 7, 0)} && used == old(used) + {Block(page, 7, 0)}
      ensures Shape(Arenas() + {page}, {Block(page, 7, 0)})
      ensures forall b :: b in old(blocks) ==> b.page != page
    {
      AddPage(Arenas(), blocks, page);
      ghost var top := Block(page, 7, 0);
      assert top !in blocks;
      assert blocks + {top} - {top} == blocks - {};
      blocks := blocks + {top};
      used := used + {top};
    }

    method FinishPage(ghost arenas: set<nat>, ghost b: Block, r: Addr, size: nat, page: nat)
      requires arenas == Arenas() + {page} && page !in arenaList && NoDup(arenaList)
      requires Shape(arenas, {b}) && b in used && b.k < 7 && r == AddrOf(b) && size == BlockSize(b.k)
      modifies this`tag, this`arenaList
      ensures Shape(arenas, {}) && NoDup(arenaList) && Arenas() == arenas && arenaList == old(arenaList) + [page]
    {
      TagBlock(arenas, blocks, tag, blocks - {b}, b);
      tag := tag[r := size];
      assert blocks - {b} + {b} == blocks - {};
      AppendNoDup(arenaList, page);
      arenaList := arenaList + [page];
    }

    /** The loop of the fresh-page path: queues one upper half of every class above desc. */
    method DividePage(ghost arenas: set<nat>, page: nat, desc: nat) returns (ghost c: Block)
      requires desc < 7 && Block(page, 7, 0) in used
      requires Shape(arenas, {Block(page, 7, 0)}) && Mirrors(free, lists)
      modifies this`free, this`tag, this`blocks, this`used, this`lists
      ensures c == Block(page, desc + 1, 0) && c in used
      ensures Shape(arenas, {c}) && Mirrors(free, lists)
      ensures used == old(used) - {Block(page, 7, 0)} + {c}
      ensures old(blocks) - {Block(page, 7, 0)} <= blocks
      ensures free[desc] == old(free)[desc]
    {
      c := Block(page, 7, 0);
      var j := 1;
      while BlockSize(7 - j) > BlockSize(desc)
        invariant 1 <= j <= 7 - desc
        invariant c == Block(page, 8 - j, 0) && c in used
        invariant Shape(arenas, {c}) && Mirrors(free, lists)
        invariant used == old(used) - {Block(page, 7, 0)} + {c}
        invariant old(blocks) - {Block(page, 7, 0)} <= blocks + {c}
        invariant free[desc] == old(free)[desc]
        decreases 7 - j
      {
        assert 7 - j != desc;
        FreeUpperHalf(arenas, c, Addr(page, 24 + 1 * BlockSize(7 - j)), 7 - j);
        c := LeftHalf(c);
        j := j + 1;
        if BlockSize(7 - j) <= BlockSize(desc) {
          break;
        }
      }
      if desc < 7 - j { SizesGrow(desc, 7 - j); }
    }

    /** Takes the first free block of class cnt and halves it down to class desc. */
    method SplitDown(desc: nat, cnt0: nat) returns (r: Addr, ghost b: Block)
      requires Valid() && desc < cnt0 < 7 && free[cnt0] != []
      requires forall j :: desc <= j < cnt0 ==> free[j] == []
      modifies this`free, this`tag, this`blocks, this`used, this`lists
      ensures Valid()
      ensures r == AddrOf(b) && b.k == desc && b !in old(used) && used == old(used) + {b} && r == old(free)[cnt0][0]
      ensures forall x :: x in old(blocks) ==> x in blocks || Above(x, b)
    {
      ghost var arenas := Arenas();
      ghost var c := TakeFirst(cnt0);
      var page := free[cnt0][0].page;
      var idx := DescIndex(cnt0);
      b := HalveDown(arenas, c, page, idx, cnt0, desc);
      r := free[desc][0];
      free := free[desc := free[desc][1..]];
    }

    /** The loop of the free-list path: c is the front block, halved until class desc. */
    method HalveDown(ghost arenas: set<nat>, ghost c0: Block, page: nat, idx0: nat, cnt0: nat, desc: nat)
      returns (ghost c: Block)
      requires desc < cnt0 < 7 && idx0 == 7 - cnt0 && c0 in used && c0.k == cnt0 && c0.page == page
      requires Shape(arenas, {}) && MirrorsBut(free, lists, cnt0, AddrOf(c0))
      requires forall j :: desc <= j < cnt0 ==> free[j] == []
      modifies this`free, this`tag, this`blocks, this`used, this`lists
      ensures Shape(arenas, {}) && MirrorsBut(free, lists, desc, AddrOf(c))
      ensures c.k == desc && c in used && used == old(used) - {c0} + {c} && c !in old(blocks) && AddrOf(c) == AddrOf(c0)
      ensures forall x :: x in old(blocks) ==> x in blocks || Above(x, c)
    {
      var idx, cnt := idx0, cnt0;
      c := c0;
      while BlockSize(7 - idx) > BlockSize(desc)
        invariant desc <= cnt < 7 && idx == 7 - cnt
        invariant c in used && c.k == cnt && c.page == page && Above(c0, c) && AddrOf(c) == AddrOf(c0)
        invariant Shape(arenas, {}) && MirrorsBut(free, lists, cnt, AddrOf(c))
        invariant forall j :: desc <= j < cnt ==> free[j] == []
        invariant used == old(used) - {c0} + {c} && (c in old(blocks) ==> c == c0)
        invariant forall x :: x in old(blocks) ==> x in blocks || Above(x, c)
      {
        assert cnt != desc;
        ghost var parent, before := c, blocks;
        c, idx, cnt := SplitFront(arenas, c, page, idx, cnt, desc);
        OnlyAncestorsSplit(old(blocks), before, parent);
        HalfIsNew(old(blocks), c0, parent, c);
        if BlockSize(7 - idx) <= BlockSize(desc) {
          break;
        }
      }
      if desc < cnt { SizesGrow(desc, cnt); }
    }

    /** The first block of list k counts as used from here on. */
    ghost method TakeFirst(k: nat) returns (c: Block)
      requires Valid() && k < 7 && free[k] != []
      modifies this`used, this`lists
      ensures Shape(Arenas(), {}) && MirrorsBut(free, lists, k, AddrOf(c))
      ensures c.k == k && c in blocks && c !in old(used) && used == old(used) + {c}
    {
      c := lists[k][0];
      TakeFront(lists, blocks, used, k);
      assert Addrs(lists[k])[1..] == Addrs(lists[k][1..]);
      used := used + {c};
      lists := lists[k := lists[k][1..]];
    }

    /** Descriptors counted from the largest: the offset of class cnt. */
    method DescIndex(cnt: nat) returns (idx: nat)
      requires cnt < 7
      ensures idx == 7 - cnt
    {
      idx := 1;
      while !(BlockSize(7 - idx) <= BlockSize(cnt))
        invariant 1 <= idx <= 7 - cnt
        decreases 7 - idx
      {
        idx := idx + 1;
      }
      if cnt < 7 - idx { SizesGrow(cnt, 7 - idx); }
    }

    /** The addresses of the two halves of block c, by the index arithmetic of the code. */
    static method HalfAddresses(block: Addr, page: nat, size: nat, half: nat, ghost c: Block)
      returns (buddyOne: Addr, buddyTwo: Addr)
      requires block == AddrOf(c) && page == c.page && c.k > 0 && size == BlockSize(c.k) && half == BlockSize(c.k - 1)
      ensures buddyOne == AddrOf(LeftHalf(c)) && buddyTwo == AddrOf(RightHalf(c))
    {
      IndexOfAddress(c);
      var blockIndex := (block.ofs - 24) / size;
      var one := 2 * blockIndex;
      var two := one + 1;
      buddyTwo := Addr(page, 24 + two * half);
      buddyOne := Addr(page, 24 + one * half);
    }

    /** One round of halving: pops the front block, tags both halves, queues them one class down. */
    method SplitFront(ghost arenas: set<nat>, ghost c: Block, page: nat, idx: nat, cnt: nat, ghost desc: nat)
      returns (ghost c': Block, idx': nat, cnt': nat)
      requires desc < cnt < 7 && idx == 7 - cnt && c in used && c.k == cnt && c.page == page
      requires Shape(arenas, {}) && MirrorsBut(free, lists, cnt, AddrOf(c))
      requires forall j :: desc <= j < cnt ==> free[j] == []
      modifies this`free, this`tag, this`blocks, this`used, this`lists
      ensures cnt' == cnt - 1 && idx' == idx + 1 && c' == LeftHalf(c) && AddrOf(c') == AddrOf(c)
      ensures Shape(arenas, {}) && MirrorsBut(free, lists, cnt', AddrOf(c'))
      ensures forall j :: desc <= j < cnt' ==> free[j] == []
      ensures used == old(used) - {c} + {c'} && blocks == Split(old(blocks), c) && c' !in old(blocks)
    {
      var block := free[cnt][0];
      free := free[cnt := free[cnt][1..]];
      idx' := idx + 1;
      c' := LeftHalf(c);
      HalfStarts(c);
      var buddyOne, buddyTwo := HalfAddresses(block, page, BlockSize(7 - idx), BlockSize(7 - idx'), c);
      SplitTiles(arenas, blocks, c);
      SplitUsed(arenas, c);
      tag := TagBoth(arenas, c, buddyOne, buddyTwo, BlockSize(7 - idx'));
      cnt' := cnt - 1;
      assert free[cnt'] == [];
      free := free[cnt' := free[cnt'] + [buddyOne]];
      free := free[cnt' := free[cnt'] + [buddyTwo]];
      assert free[cnt'][1..] == [buddyTwo];
    }

    method TagBoth(ghost arenas: set<nat>, ghost c: Block, one: Addr, two: Addr, size: nat) returns (t: map<Addr, nat>)
      requires Tiles(arenas, blocks) && 0 < c.k && LeftHalf(c) in blocks && RightHalf(c) in blocks
      requires TagsOk(tag, blocks - {LeftHalf(c), RightHalf(c)})
      requires one == AddrOf(LeftHalf(c)) && two == AddrOf(RightHalf(c)) && size == BlockSize(c.k - 1)
      ensures TagsOk(t, blocks)
    {
      ghost var rest := blocks - {LeftHalf(c), RightHalf(c)};
      TagBlock(arenas, blocks, tag, rest, RightHalf(c));
      t := tag[two := size];
      TagBlock(arenas, blocks, t, rest + {RightHalf(c)}, LeftHalf(c));
      t := t[one := size];
      assert rest + {RightHalf(c)} + {LeftHalf(c)} == blocks;
    }

    // ----- malloc

    /** malloc: exactly the smallest class that fits, taken from the free lists if any of them can
        serve the request, otherwise from a new page; big requests get a run of whole pages. */
    method Malloc(size: nat, page: Option<nat>) returns (r: Option<Addr>, ghost b: Block)
      requires Valid() && size < 0x1_0000_0000
      requires page.Some? ==> PagesFor(size) > 0 && FreshRun(page.value, PagesFor(size))
      modifies this
      ensures Valid()
      ensures r.None? ==> used == old(used) && blocks == old(blocks) && big == old(big) && arenaList == old(arenaList)
      ensures size == 0 ==> r == None
      ensures size > 1024 ==> used == old(used) && blocks == old(blocks) && arenaList == old(arenaList)
      ensures size > 1024 ==> r.Some? == page.Some?
      ensures size > 1024 && r.Some? ==> r.value == Addr(page.value, 24) && big == old(big)[page.value := PagesFor(size)]
                                         && (big[page.value] * 4096 >= 24 + size <==> size + 24 < 0x1_0000_0000)
      ensures 0 < size <= 1024 ==> big == old(big)
      ensures 0 < size <= 1024 && r.None? ==> page.None? && forall x :: x in blocks && x !in used ==> BlockSize(x.k) < size
      ensures 0 < size <= 1024 && r.Some? ==>
                && r.value == AddrOf(b) && b !in old(used) && used == old(used) + {b}
                && size <= BlockSize(b.k) && (b.k > 0 ==> BlockSize(b.k - 1) < size)
                && (forall x :: x in old(blocks) ==> x in blocks || Above(x, b))
      ensures 0 < size <= 1024 && r.Some? && arenaList != old(arenaList) ==>
                && (forall x :: x in old(blocks) && x !in old(used) ==> BlockSize(x.k) < size)
                && page.Some? && arenaList == old(arenaList) + [page.value] && b == Block(page.value, b.k, 0)
                && free[b.k] == [AddrOf(Block(page.value, b.k, 1))]
      ensures 0 < size <= 1024 && r.Some? && old(free)[b.k] != [] ==>
                && r.value == old(free)[b.k][0] && free == old(free)[b.k := old(free)[b.k][1..]]
                && tag == old(tag) && blocks == old(blocks) && arenaList == old(arenaList)
      ensures 0 < size <= 1024 && r.Some? ==> forall c :: b.k <= c < 7 && old(free)[c] != [] && (forall j :: b.k <= j < c ==> old(free)[j] == []) ==>
                r.value == old(free)[c][0]
    {
      b := Block(0, 0, 0);
      if size == 0 {
        return None, b;
      }
      var desc, cnt := FindDesc(size);
      BlockSizes();
      if desc == 7 {
        if page.None? {
          return None, b;
        }
        BigRequestFits(size);
        big := big[page.value := PagesFor(size)];
        r := Some(Addr(page.value, 24));
      } else {
        r, b := MallocSmall(size, page, desc, cnt);
      }
    }

    /** The rest of malloc, for a small request: desc is its class and cnt the first one with a free
        block. */
    method MallocSmall(size: nat, page: Option<nat>, desc: nat, cnt: nat) returns (r: Option<Addr>, ghost b: Block)
      requires Valid() && 0 < size <= 1024 && (page.Some? ==> FreshRun(page.value, 1))
      requires desc < 7 && (forall j :: 0 <= j < desc ==> BlockSize(j) < size) && size <= BlockSize(desc)
      requires desc <= cnt <= 7 && (forall j :: desc <= j < cnt ==> free[j] == []) && (cnt < 7 ==> free[cnt] != [])
      modifies this
      ensures Valid() && big == old(big)
      ensures r.None? ==> used == old(used) && blocks == old(blocks) && arenaList == old(arenaList) && page.None?
                          && forall x :: x in blocks && x !in used ==> BlockSize(x.k) < size
      ensures r.Some? ==>
                && r.value == AddrOf(b) && b !in old(used) && used == old(used) + {b} && b.k == desc
                && (forall x :: x in old(blocks) ==> x in blocks || Above(x, b))
      ensures r.Some? && arenaList != old(arenaList) ==>
                && (forall x :: x in old(blocks) && x !in old(used) ==> BlockSize(x.k) < size)
                && page.Some? && arenaList == old(arenaList) + [page.value] && b == Block(page.value, b.k, 0)
                && free[b.k] == [AddrOf(Block(page.value, b.k, 1))]
      ensures r.Some? && old(free)[b.k] != [] ==>
                && r.value == old(free)[b.k][0] && free == old(free)[b.k := old(free)[b.k][1..]]
                && tag == old(tag) && blocks == old(blocks) && arenaList == old(arenaList)
      ensures r.Some? ==> forall c :: b.k <= c < 7 && old(free)[c] != [] && (forall j :: b.k <= j < c ==> old(free)[j] == []) ==>
                r.value == old(free)[c][0]
    {
      b := Block(0, 0, 0);
      var a;
      if cnt == 7 {
        NoneFree(desc, size);
        if page.None? {
          return None, b;
        }
        a, b := FreshPage(desc, page.value);
      } else if cnt != desc {
        a, b := SplitDown(desc, cnt);
      } else {
        b := TakeFirst(cnt);
        a := free[cnt][0];
        free := free[cnt := free[cnt][1..]];
      }
      r := Some(a);
    }

    /** Empty lists from class desc on mean that no free block is big enough. */
    lemma NoneFree(desc: nat, size: nat)
      requires Valid() && (forall j :: desc <= j < 7 ==> free[j] == []) && desc <= 7
      requires forall j :: 0 <= j < desc ==> BlockSize(j) < size
      ensures forall x :: x in blocks && x !in used ==> BlockSize(x.k) < size
    {
      forall x | x in blocks && x !in used
        ensures BlockSize(x.k) < size
      {
        var l := lists[x.k];
        assert x in l;
        assert x.k >= desc ==> |Addrs(l)| == 0;
      }
    }

    // ----- free

    /** Finds the address on list k, or its length. */
    method FindOnList(k: nat, a: Addr) returns (n: nat)
      requires k < |free|
      ensures n <= |free[k]| && (n < |free[k]| ==> free[k][n] == a)
      ensures n == |free[k]| ==> a !in free[k]
    {
      n := 0;
      while n < |free[k]|
        invariant n <= |free[k]| && a !in free[k][..n]
      {
        if free[k][n] == a {
          return;
        }
        n := n + 1;
      }
    }

    /** Where the buddy of the block at cur is, by the index arithmetic of the code. */
    static method BuddyAddress(cur: Addr, size: nat, ghost c: Block) returns (odd: bool, buddy: Addr)
      requires Rooted(c) && c.k < 7 && cur == AddrOf(c) && size == BlockSize(c.k)
      ensures buddy == AddrOf(Buddy(c)) && (odd <==> c.i % 2 != 0)
      ensures AddrOf(Parent(c)) == if odd then buddy else cur
    {
      IndexOfAddress(c);
      BuddyAddresses(c);
      var index := (cur.ofs - 24) / size;
      odd := index % 2 != 0;
      var buddyIndex := if odd then index - 1 else index + 1;
      buddy := Addr(cur.page, 24 + buddyIndex * size);
    }

    /** The heap while block c of class i, at address cur, is being freed. */
    ghost predicate Freeing(c: Block, i: nat, cur: Addr)
      reads this
    {
      && Shape(Arenas(), {c}) && Mirrors(free, lists) && NoDup(arenaList) && BigOk(Arenas())
      && c in used && c.k == i <= 7 && cur == AddrOf(c)
      && cur in tag && tag[cur] == BlockSize(i)
    }

    /** One round of the merge loop: the buddy is free, so both become one block. */
    method MergeBuddy(ghost c: Block, i: nat, cur: Addr, n: nat, odd: bool, buddy: Addr) returns (cur': Addr)
      requires Freeing(c, i, cur) && i < 7 && n < |free[i]| && free[i][n] == buddy
      requires buddy == AddrOf(Buddy(c)) && AddrOf(Parent(c)) == (if odd then buddy else cur)
      modifies this`free, this`tag, this`blocks, this`used, this`lists
      ensures Freeing(Parent(c), i + 1, cur')
      ensures used == old(used) - {c} + {Parent(c)} && blocks == Merge(old(blocks), c)
    {
      ghost var arenas := Arenas();
      SameAddressSameBlock(lists[i][n], Buddy(c));
      MergeTiles(arenas, blocks, c);
      MergeCoalesced(blocks, used, c);
      MergeLists(arenas, lists, blocks, used, c, n);
      assert Addrs(RemoveAt(lists[i], n)) == RemoveAt(Addrs(lists[i]), n);
      free := free[i := RemoveAt(free[i], n)];
      lists := lists[i := RemoveAt(lists[i], n)];
      if odd {
        tag := tag[buddy := tag[buddy] * 2];
        cur' := buddy;
      } else {
        tag := tag[cur := tag[cur] * 2];
        cur' := cur;
      }
      TagParent(arenas, old(tag), blocks, c, BlockSize(i + 1));
      blocks := Merge(blocks, c);
      used := used - {c} + {Parent(c)};
    }

    /** No free buddy: the block goes back on the list of its class. */
    method Queue(ghost c: Block, i: nat, cur: Addr)
      requires Freeing(c, i, cur) && i < 7 && AddrOf(Buddy(c)) !in free[i]
      modifies this`free, this`used, this`lists
      ensures Valid() && used == old(used) - {c} && free == old(free)[i := old(free)[i] + [cur]]
    {
      assert Buddy(c) in blocks && Buddy(c) !in used ==> Buddy(c) in lists[i];
      NotListed(lists[i], Buddy(c));
      AppendNoDup(lists[i], c);
      forall b | b in blocks && Buddy(b) == c
        ensures b == Buddy(c)
      {
        BuddyOfBuddy(b);
      }
      assert Buddy(c) != c;
      QueueCoalesced(blocks, used, c);
      assert Addrs(lists[i] + [c]) == Addrs(lists[i]) + [cur];
      free := free[i := free[i] + [cur]];
      lists := lists[i := lists[i] + [c]];
      used := used - {c};
      assert TagsOk(tag, blocks - {});
    }

    /** The page has become one block: it leaves the arena list and goes back to palloc. */
    method ReturnPage(ghost c: Block, cur: Addr)
      requires Freeing(c, 7, cur)
      modifies this`arenaList, this`blocks, this`used
      ensures Valid() && used == old(used) - {c} && Arenas() == old(Arenas()) - {cur.page}
      ensures forall x :: x in blocks ==> x.page != cur.page
    {
      ghost var arenas := Arenas();
      DropPage(arenas, blocks, c);
      forall x | x in blocks && x != c
        ensures x.page != c.page
      {
        WholePageAlone(arenas, blocks, c, x);
      }
      var n := 0;
      while arenaList[n] != cur.page
        invariant n < |arenaList| && cur.page in arenaList[n..]
        decreases |arenaList| - n
      {
        n := n + 1;
      }
      RemoveAtFacts(arenaList, n);
      arenaList := RemoveAt(arenaList, n);
      blocks := blocks - {c};
      used := used - {c};
      assert Arenas() == arenas - {c.page};
    }

    /** The num_pages words of arenas and big blocks hold what malloc stored there. */
    ghost predicate HeadersIntact(mem: Addr -> nat)
      reads this
    {
      && (forall q :: q in Arenas() ==> mem(HeaderWord(q)) == 0)
      && (forall q :: q in big ==> mem(HeaderWord(q)) == big[q])
    }

    /** free, when memory holds mem. A big block's pages are given back. A small block is taken for
        one exactly when it starts its page or the word before it is 0; then it joins the free
        heap, merged with its buddy as far as possible, and its page is given back exactly when it
        held the page's last outstanding block. Otherwise free panics. */
    method Free(p: Option<Addr>, mem: Addr -> nat, ghost b: Block) returns (r: FreeOutcome)
      requires Valid() && HeadersIntact(mem)
      requires p.Some? ==> (p.value.ofs == 24 && p.value.page in big) || (b in used && AddrOf(b) == p.value)
      modifies this
      ensures Valid()
      ensures p.None? ==> r == Kept && used == old(used) && blocks == old(blocks) && big == old(big) && arenaList == old(arenaList)
      ensures p.Some? && p.value.ofs == 24 && p.value.page in old(big) ==>
                && r == GivenBack(p.value.page, old(big)[p.value.page])
                && big == old(big) - {p.value.page}
                && used == old(used) && blocks == old(blocks) && arenaList == old(arenaList)
      ensures p.Some? && !(p.value.ofs == 24 && p.value.page in old(big)) ==>
                && big == old(big) && (r == Panic <==> !TakenForSmall(mem, b))
                && (r == Panic ==> used == old(used) && blocks == old(blocks) && arenaList == old(arenaList) && free == old(free))
                && (r != Panic ==> used == old(used) - {b} && FreedSmall(r, b, old(Arenas())))
    {
      if p.None? {
        return Kept;
      }
      var numPages := mem(WordBefore(p.value));
      if numPages > 0 {
        if p.value.ofs - 24 != 0 {
          return Panic;
        }
        r := GivenBack(p.value.page, numPages);
        big := big - {p.value.page};
        return;
      }
      var freed := FreeSmall(p.value, b);
      r := if freed.Some? then GivenBack(freed.value.0, freed.value.1) else Kept;
    }

    /** Small block b has been freed: its page is given back if nothing on it is in use. */
    ghost predicate FreedSmall(r: FreeOutcome, b: Block, arenas: set<nat>)
      reads this
    {
      && (r.GivenBack? <==> forall x :: x in used ==> x.page != b.page)
      && (r.GivenBack? ==> r == GivenBack(b.page, 1) && forall x :: x in blocks ==> x.page != b.page)
      && Arenas() == (if r.GivenBack? then arenas - {b.page} else arenas)
    }

    /** The class whose size is recorded in the block's tag. */
    method ClassOfTag(p: Addr, ghost b: Block) returns (i: nat)
      requires Valid() && b in blocks && AddrOf(b) == p
      ensures i == b.k
    {
      i := 0;
      while BlockSize(i) < tag[p]
        invariant i <= b.k
        decreases b.k - i
      {
        i := i + 1;
      }
      if i < b.k { SizesGrow(i, b.k); }
    }

    /** If the buddy is not free, another block of the page is in use. */
    lemma Shared(c: Block, i: nat, cur: Addr)
      requires Freeing(c, i, cur) && i < 7 && AddrOf(Buddy(c)) !in free[i]
      ensures exists x :: x in used && x != c && x.page == c.page
    {
      if forall x :: x in used && x != c ==> x.page != c.page {
        LoneBlockMerges(Arenas(), blocks, used, c);
        assert Buddy(c) in lists[i];
        NotListed(lists[i], Buddy(c));
      }
    }

    /** One round of the loop in free: merge with a free buddy, or give up and queue the block. */
    method MergeOrQueue(ghost c: Block, i: nat, cur: Addr) returns (merged: bool, cur': Addr)
      requires Freeing(c, i, cur) && i < 7
      modifies this`free, this`tag, this`blocks, this`used, this`lists
      ensures merged ==> Freeing(Parent(c), i + 1, cur') && Parent(c) !in old(used)
      ensures merged ==> used == old(used) - {c} + {Parent(c)}
      ensures !merged ==> Valid() && used == old(used) - {c} && exists x :: x in used && x.page == c.page
    {
      var odd, buddy := BuddyAddress(cur, tag[cur], c);
      var n := FindOnList(i, buddy);
      if n < |free[i]| {
        SameAddressSameBlock(lists[i][n], Buddy(c));
        MergeTiles(Arenas(), blocks, c);
        cur' := MergeBuddy(c, i, cur, n, odd, buddy);
        merged := true;
      } else {
        Shared(c, i, cur);
        Queue(c, i, cur);
        merged, cur' := false, cur;
      }
    }

    method FreeSmall(p: Addr, ghost b: Block) returns (freed: Option<(nat, nat)>)
      requires Valid() && b in used && AddrOf(b) == p
      modifies this
      ensures Valid() && big == old(big) && used == old(used) - {b}
      ensures freed.Some? <==> forall x :: x in used ==> x.page != b.page
      ensures freed.Some? ==> freed.value == (b.page, 1)
      ensures Arenas() == (if freed.Some? then old(Arenas()) - {b.page} else old(Arenas()))
      ensures freed.Some? ==> forall x :: x in blocks ==> x.page != b.page
    {
      var i := ClassOfTag(p, b);
      var cur := p;
      ghost var c := b;
      assert TagsOk(tag, blocks - {c});
      while i < 7
        invariant Freeing(c, i, cur) && c.page == b.page
        invariant used == old(used) - {b} + {c} && c !in old(used) - {b}
        invariant arenaList == old(arenaList) && big == old(big)
      {
        var merged;
        merged, cur := MergeOrQueue(c, i, cur);
        if !merged {
          return None;
        }
        c := Parent(c);
        i := i + 1;
      }
      freed := Some((cur.page, 1));
      ReturnPage(c, cur);
    }
  }

  /** The failure needs no misuse: on an empty heap, two requests for 16 bytes and a free of the
      second block panic, because free reads the first block's size tag as a page count. */
  method SecondBlockPanics(page: nat, mem: Addr -> nat) returns (first: Option<Addr>, second: Option<Addr>, r: FreeOutcome)
    requires mem(HeaderWord(page)) == 0 && mem(TagWord(Addr(page, 24))) == 16
    ensures first == Some(Addr(page, 24)) && second == Some(Addr(page, 40)) && r == Panic
  {
    var a := new Allocator();
    ghost var b1, b2;
    first, second, b1, b2 := TwoUnits(a, page);
    NeverSmallBehindUnit(mem, b1, b2);
    r := a.Free(second, mem, b2);
  }

  method TwoUnits(a: Allocator, page: nat) returns (first: Option<Addr>, second: Option<Addr>, ghost b1: Block, ghost b2: Block)
    requires a.Valid() && a.used == {} && a.blocks == {} && a.arenaList == [] && a.big == map[]
    modifies a
    ensures a.Valid() && a.arenaList == [page] && a.big == map[] && b2 in a.used
    ensures b1 == Block(page, 0, 0) && b2 == Block(page, 0, 1) && first == Some(AddrOf(b1)) && second == Some(AddrOf(b2))
  {
    first, b1 := a.Malloc(16, Some(page));
    SmallestClass(b1, 16);
    second, b2 := a.Malloc(16, None);
    SmallestClass(b2, 16);
    IndexOfAddress(b2);
    IndexOfAddress(Block(page, 0, 1));
  }

  lemma SmallestClass(b: Block, size: nat)
    requires 0 < size <= 16 && (b.k > 0 ==> BlockSize(b.k - 1) < size)
    ensures b.k == 0
  {
  }
}
