/** The shape of the small-block heap managed by threads/malloc.c: pages ("arenas")
    whose 2048-byte payload is tiled by power-of-two blocks. A block is a node of the
    binary tree of its page: class k and index i, the whole payload being class 7,
    index 0. Pure definitions and the facts the allocator relies on. */
module BuddyHeap {

  /** A kernel address: page number and offset within the page. */
  datatype Addr = Addr(page: nat, ofs: nat)

  datatype Block = Block(page: nat, k: nat, i: nat)

  /** Bytes in a block of class k: 16, 32, ..., 1024, and 2048 for a whole payload. */
  function BlockSize(k: nat): (s: nat)
    ensures s >= 16
  {
    if k == 0 then 16 else 2 * BlockSize(k - 1)
  }

  lemma BlockSizes()
    ensures BlockSize(0) == 16 && BlockSize(1) == 32 && BlockSize(2) == 64 && BlockSize(3) == 128
    ensures BlockSize(4) == 256 && BlockSize(5) == 512 && BlockSize(6) == 1024 && BlockSize(7) == 2048
  {
    assert BlockSize(2) == 64;
    assert BlockSize(4) == 256;
    assert BlockSize(6) == 1024;
  }

  /** arena_to_block: where a block starts, after the page's 24-byte header. */
  function AddrOf(b: Block): Addr
  {
    Addr(b.page, 24 + b.i * BlockSize(b.k))
  }

  /** Index of the ancestor d levels up. */
  ghost function Up(i: nat, d: nat): nat
  {
    if d == 0 then i else Up(i / 2, d - 1)
  }

  /** b is x or an ancestor of x in the same page. */
  ghost predicate Above(b: Block, x: Block)
  {
    x.page == b.page && x.k <= b.k && Up(x.i, b.k - x.k) == b.i
  }

  ghost predicate Rooted(b: Block)
  {
    Above(Block(b.page, 7, 0), b)
  }

  /** The 16-byte unit u of page p belongs to some block. */
  ghost predicate Covered(blocks: set<Block>, p: nat, u: nat)
  {
    exists b :: b in blocks && Above(b, Block(p, 0, u))
  }

  /** The blocks tile the payload of every arena: none lies within another, and together
      they cover all of it. */
  ghost predicate Tiles(arenas: set<nat>, blocks: set<Block>)
  {
    && (forall b :: b in blocks ==> b.page in arenas && Rooted(b))
    && (forall b, x :: b in blocks && x in blocks && Above(b, x) ==> b == x)
    && (forall p, u :: p in arenas && Rooted(Block(p, 0, u)) ==> Covered(blocks, p, u))
  }

  /** The other half of the parent. */
  function Buddy(b: Block): Block
  {
    Block(b.page, b.k, if b.i % 2 == 0 then b.i + 1 else b.i - 1)
  }

  function Parent(b: Block): Block
  {
    Block(b.page, b.k + 1, b.i / 2)
  }

  function LeftHalf(b: Block): Block
    requires b.k > 0
  {
    Block(b.page, b.k - 1, 2 * b.i)
  }

  function RightHalf(b: Block): Block
    requires b.k > 0
  {
    Block(b.page, b.k - 1, 2 * b.i + 1)
  }

  /** Coalescing is maximal: two free buddies never coexist. */
  ghost predicate Coalesced(blocks: set<Block>, used: set<Block>)
  {
    forall b :: b in blocks && b !in used && Buddy(b) in blocks ==> Buddy(b) in used
  }

  // ----- the ancestor order

  lemma {:induction false} UpStep(i: nat, d: nat)
    ensures Up(i, d + 1) == Up(i, d) / 2
  {
    if d > 0 {
      UpStep(i / 2, d - 1);
    }
  }

  lemma AboveParent(b: Block, x: Block)
    requires Above(b, x)
    ensures Above(Parent(b), x)
    ensures b != x ==> Above(b, Parent(x))
  {
    UpStep(x.i, b.k - x.k);
  }

  lemma {:induction false} AboveTransitive(a: Block, b: Block, c: Block)
    requires Above(a, b) && Above(b, c)
    ensures Above(a, c)
    decreases b.k - c.k
  {
    if b.k != c.k {
      AboveParent(b, c);
      AboveTransitive(a, b, Parent(c));
    }
  }

  /** Something strictly below b is in one of its halves. */
  lemma BelowHalf(b: Block, x: Block)
    requires Above(b, x) && x.k < b.k
    ensures Above(LeftHalf(b), x) || Above(RightHalf(b), x)
  {
    UpStep(x.i, b.k - 1 - x.k);
  }

  /** A leftmost unit below b. */
  lemma {:induction false} SomeUnit(b: Block) returns (u: nat)
    ensures Above(b, Block(b.page, 0, u))
    decreases b.k
  {
    if b.k == 0 {
      u := b.i;
    } else {
      u := SomeUnit(LeftHalf(b));
      AboveParent(LeftHalf(b), Block(b.page, 0, u));
    }
  }

  lemma HalvesRooted(b: Block)
    requires Rooted(b) && b.k > 0
    ensures Rooted(LeftHalf(b)) && Rooted(RightHalf(b))
  {
    AboveTransitive(Block(b.page, 7, 0), b, LeftHalf(b));
    AboveTransitive(Block(b.page, 7, 0), b, RightHalf(b));
  }

  lemma BuddyRooted(b: Block)
    requires Rooted(b) && b.k < 7
    ensures Rooted(Buddy(b)) && Rooted(Parent(b))
    ensures Buddy(Buddy(b)) == b && Parent(Buddy(b)) == Parent(b)
    ensures LeftHalf(Parent(b)) == b || LeftHalf(Parent(b)) == Buddy(b)
    ensures RightHalf(Parent(b)) == b || RightHalf(Parent(b)) == Buddy(b)
  {
    AboveParent(Block(b.page, 7, 0), b);
    HalvesRooted(Parent(b));
  }

  // ----- splitting and merging

  ghost function Split(blocks: set<Block>, b: Block): set<Block>
    requires b.k > 0
  {
    blocks - {b} + {LeftHalf(b), RightHalf(b)}
  }

  lemma HalfFits(arenas: set<nat>, blocks: set<Block>, b: Block, h: Block, x: Block)
    requires Tiles(arenas, blocks) && b in blocks && b.k > 0 && (h == LeftHalf(b) || h == RightHalf(b))
    requires x in blocks && x != b
    ensures !Above(h, x) && !Above(x, h)
  {
    if Above(h, x) {
      AboveTransitive(b, h, x);
    } else if Above(x, h) && x != h {
      AboveParent(x, h);
    }
  }

  lemma SplitTiles(arenas: set<nat>, blocks: set<Block>, b: Block)
    requires Tiles(arenas, blocks) && b in blocks && b.k > 0
    ensures Tiles(arenas, Split(blocks, b))
    ensures LeftHalf(b) !in blocks && RightHalf(b) !in blocks
  {
    var l, r, after := LeftHalf(b), RightHalf(b), Split(blocks, b);
    HalvesRooted(b);
    assert Above(b, l) && Above(b, r);
    forall x, y | x in after && y in after && Above(x, y)
      ensures x == y
    {
      if x in blocks && y !in blocks { HalfFits(arenas, blocks, b, y, x); }
      if y in blocks && x !in blocks { HalfFits(arenas, blocks, b, x, y); }
    }
    forall p, u | p in arenas && Rooted(Block(p, 0, u))
      ensures Covered(after, p, u)
    {
      assert Covered(blocks, p, u);
      var w :| w in blocks && Above(w, Block(p, 0, u));
      if w == b {
        BelowHalf(b, Block(p, 0, u));
        assert l in after && r in after;
      } else {
        assert w in after;
      }
    }
  }

  /** Splitting a used block leaves coalescing maximal if one half stays used. */
  lemma SplitCoalesced(arenas: set<nat>, blocks: set<Block>, used: set<Block>, b: Block)
    requires Tiles(arenas, blocks) && Coalesced(blocks, used) && used <= blocks && b in used && b.k > 0
    ensures Coalesced(Split(blocks, b), used - {b} + {LeftHalf(b)})
    ensures used - {b} + {LeftHalf(b)} <= Split(blocks, b)
  {
    var l, r, after, used' := LeftHalf(b), RightHalf(b), Split(blocks, b), used - {b} + {LeftHalf(b)};
    SplitTiles(arenas, blocks, b);
    assert Buddy(r) == l && Buddy(l) == r;
    forall x | x in after && x !in used' && Buddy(x) in after
      ensures Buddy(x) in used'
    {
      assert Rooted(x);
      assert Buddy(x) == r ==> Buddy(Buddy(x)) == x;
    }
  }

  ghost function Merge(blocks: set<Block>, b: Block): set<Block>
  {
    blocks - {b, Buddy(b)} + {Parent(b)}
  }

  lemma MergeTiles(arenas: set<nat>, blocks: set<Block>, b: Block)
    requires Tiles(arenas, blocks) && b in blocks && Buddy(b) in blocks && b.k < 7
    ensures Tiles(arenas, Merge(blocks, b))
    ensures Parent(b) !in blocks
  {
    var p, after := Parent(b), Merge(blocks, b);
    BuddyRooted(b);
    assert Above(p, b);
    forall x, y | x in after && y in after && Above(x, y)
      ensures x == y
    {
      if x == p && y != p {
        if y.k < p.k { BelowHalf(p, y); }
      } else if x != p && y == p {
        AboveTransitive(x, p, b);
      }
    }
    forall q, u | q in arenas && Rooted(Block(q, 0, u))
      ensures Covered(after, q, u)
    {
      assert Covered(blocks, q, u);
      var w :| w in blocks && Above(w, Block(q, 0, u));
      if w == b || w == Buddy(b) {
        AboveParent(w, Block(q, 0, u));
        assert p in after;
      } else {
        assert w in after;
      }
    }
  }

  lemma MergeCoalesced(blocks: set<Block>, used: set<Block>, b: Block)
    requires Coalesced(blocks, used) && b in used && Buddy(b) !in used && used <= blocks
    ensures Coalesced(Merge(blocks, b), used - {b} + {Parent(b)})
    ensures used - {b} + {Parent(b)} <= Merge(blocks, b)
  {
  }

  // ----- whole free regions

  /** Nothing strictly above region n is a block, and every block below it is free. */
  ghost predicate FreeRegion(blocks: set<Block>, used: set<Block>, n: Block)
  {
    && (forall b :: b in blocks && Above(b, n) ==> b == n)
    && (forall b :: b in blocks && Above(n, b) ==> b !in used)
  }

  /** With maximal coalescing, a region whose blocks are all free is a single free block. */
  lemma {:induction false} FreeRegionIsOneBlock(arenas: set<nat>, blocks: set<Block>, used: set<Block>, n: Block)
    requires Tiles(arenas, blocks) && Coalesced(blocks, used)
    requires Rooted(n) && n.page in arenas && FreeRegion(blocks, used, n)
    ensures n in blocks && n !in used
    decreases n.k
  {
    if n.k == 0 {
      assert Covered(blocks, n.page, n.i);
    } else if n !in blocks {
      var l, r := LeftHalf(n), RightHalf(n);
      HalvesRooted(n);
      assert Buddy(l) == r;
      HalfRegion(blocks, used, n, l);
      HalfRegion(blocks, used, n, r);
      FreeRegionIsOneBlock(arenas, blocks, used, l);
      FreeRegionIsOneBlock(arenas, blocks, used, r);
    }
  }

  lemma HalfRegion(blocks: set<Block>, used: set<Block>, n: Block, h: Block)
    requires FreeRegion(blocks, used, n) && n !in blocks && n.k > 0 && (h == LeftHalf(n) || h == RightHalf(n))
    ensures FreeRegion(blocks, used, h)
  {
    forall b | b in blocks && Above(b, h)
      ensures b == h
    {
      if b != h { AboveParent(b, h); }
    }
    forall b | b in blocks && Above(h, b)
      ensures b !in used
    {
      AboveTransitive(n, h, b);
    }
  }

  /** The key to returning pages: if b is the only used block of its page, then its buddy
      is a free block, so merging does not stop before the whole page is one block. */
  lemma LoneBlockMerges(arenas: set<nat>, blocks: set<Block>, used: set<Block>, b: Block)
    requires Tiles(arenas, blocks) && Coalesced(blocks, used)
    requires b in blocks && b.k < 7
    requires forall c :: c in used && c != b ==> c.page != b.page
    ensures Buddy(b) in blocks && Buddy(b) !in used
  {
    var n := Buddy(b);
    BuddyRooted(b);
    forall c | c in blocks && Above(c, n)
      ensures c == n
    {
      if c != n {
        AboveParent(c, n);
        AboveTransitive(c, Parent(b), b);
      }
    }
    forall c | c in blocks && Above(n, c)
      ensures c !in used
    {
    }
    FreeRegionIsOneBlock(arenas, blocks, used, n);
  }

  /** A top-class block leaves no other block in its page. */
  lemma WholePageAlone(arenas: set<nat>, blocks: set<Block>, b: Block, c: Block)
    requires Tiles(arenas, blocks) && b in blocks && b.k == 7 && c in blocks && c != b
    ensures c.page != b.page
  {
    assert Rooted(b) && Rooted(c);
  }

  // ----- adding and dropping pages

  lemma AddPage(arenas: set<nat>, blocks: set<Block>, p: nat)
    requires Tiles(arenas, blocks) && p !in arenas
    ensures Tiles(arenas + {p}, blocks + {Block(p, 7, 0)})
  {
    var top := Block(p, 7, 0);
    forall q, u | q in arenas + {p} && Rooted(Block(q, 0, u))
      ensures Covered(blocks + {top}, q, u)
    {
      if q == p {
        assert top in blocks + {top} && Above(top, Block(q, 0, u));
      } else {
        assert Covered(blocks, q, u);
      }
    }
  }

  lemma DropPage(arenas: set<nat>, blocks: set<Block>, b: Block)
    requires Tiles(arenas, blocks) && b in blocks && b.k == 7
    ensures Tiles(arenas - {b.page}, blocks - {b})
  {
    forall c | c in blocks - {b}
      ensures c.page in arenas - {b.page}
    {
      WholePageAlone(arenas, blocks, b, c);
    }
    forall q, u | q in arenas - {b.page} && Rooted(Block(q, 0, u))
      ensures Covered(blocks - {b}, q, u)
    {
      assert Covered(blocks, q, u);
      var w :| w in blocks && Above(w, Block(q, 0, u));
      assert w in blocks - {b};
    }
  }

  // ----- from tree nodes to bytes

  lemma DoubleIndex(i: int, s: int)
    ensures i * (2 * s) == (2 * i) * s && (2 * i + 1) * s == (2 * i) * s + s
  {
  }

  lemma MulLess(a: int, b: int, s: int)
    requires a < b && s > 0
    ensures a * s + s <= b * s
  {
    Distribute(a + 1, b - a - 1, s);
    Distribute(a, 1, s);
    ProductNonnegative(b - a - 1, s);
  }

  lemma Distribute(a: int, b: int, s: int)
    ensures (a + b) * s == a * s + b * s
  {
  }

  lemma ProductNonnegative(a: int, s: int)
    requires a >= 0 && s >= 0
    ensures a * s >= 0
  {
  }

  /** First payload byte of a block. */
  function Start(b: Block): nat { b.i * BlockSize(b.k) }

  lemma HalfStarts(b: Block)
    requires b.k > 0
    ensures Start(LeftHalf(b)) == Start(b)
    ensures Start(RightHalf(b)) == Start(b) + BlockSize(b.k - 1)
    ensures AddrOf(LeftHalf(b)) == AddrOf(b)
  {
    DoubleIndex(b.i, BlockSize(b.k - 1));
  }

  /** A block's bytes lie within those of every block above it. */
  lemma {:induction false} AboveContains(b: Block, x: Block)
    requires Above(b, x)
    ensures Start(b) <= Start(x) && Start(x) + BlockSize(x.k) <= Start(b) + BlockSize(b.k)
    decreases b.k - x.k
  {
    if x.k < b.k {
      AboveParent(b, x);
      AboveContains(b, Parent(x));
      HalfStarts(Parent(x));
      assert x == LeftHalf(Parent(x)) || x == RightHalf(Parent(x));
    }
  }

  /** Blocks of one class at different indices do not overlap. */
  lemma SameClassApart(x: Block, y: Block)
    requires x.k == y.k && x.i < y.i
    ensures Start(x) + BlockSize(x.k) <= Start(y)
  {
    MulLess(x.i, y.i, BlockSize(x.k));
  }

  ghost function Ancestor(x: Block, k: nat): (b: Block)
    requires x.k <= k
    ensures Above(b, x) && b.k == k
  {
    Block(x.page, k, Up(x.i, k - x.k))
  }

  /** Bytes of distinct blocks of a tiling never overlap. */
  lemma BlocksDisjoint(arenas: set<nat>, blocks: set<Block>, x: Block, y: Block)
    requires Tiles(arenas, blocks) && x in blocks && y in blocks && x != y && x.page == y.page
    ensures Start(x) + BlockSize(x.k) <= Start(y) || Start(y) + BlockSize(y.k) <= Start(x)
  {
    if x.k <= y.k {
      NodesApart(x, y);
    } else {
      NodesApart(y, x);
    }
  }

  lemma NodesApart(x: Block, y: Block)
    requires x.k <= y.k && x.page == y.page && !Above(y, x)
    ensures Start(x) + BlockSize(x.k) <= Start(y) || Start(y) + BlockSize(y.k) <= Start(x)
  {
    var a := Ancestor(x, y.k);
    AboveContains(a, x);
    if a.i < y.i { SameClassApart(a, y); } else { SameClassApart(y, a); }
  }

  /** Distinct blocks of a tiling have distinct addresses. */
  lemma AddressesDistinct(arenas: set<nat>, blocks: set<Block>, x: Block, y: Block)
    requires Tiles(arenas, blocks) && x in blocks && y in blocks && AddrOf(x) == AddrOf(y)
    ensures x == y
  {
    if x != y {
      BlocksDisjoint(arenas, blocks, x, y);
    }
  }

  /** Every payload byte of every arena belongs to exactly one block. */
  lemma EveryByteInOneBlock(arenas: set<nat>, blocks: set<Block>, p: nat, x: nat) returns (b: Block)
    requires Tiles(arenas, blocks) && p in arenas && x < 2048
    ensures b in blocks && b.page == p && Start(b) <= x < Start(b) + BlockSize(b.k)
    ensures forall c :: c in blocks && c.page == p && Start(c) <= x < Start(c) + BlockSize(c.k) ==> c == b
  {
    var u := Block(p, 0, x / 16);
    UnitRooted(u);
    assert Covered(blocks, p, x / 16);
    b :| b in blocks && Above(b, u);
    AboveContains(b, u);
    forall c | c in blocks && c.page == p && Start(c) <= x < Start(c) + BlockSize(c.k)
      ensures c == b
    {
      if c != b { BlocksDisjoint(arenas, blocks, b, c); }
    }
  }

  lemma UnitRooted(u: Block)
    requires u.k == 0 && u.i < 128
    ensures Rooted(u)
  {
    var i := u.i;
    assert Up(i, 7) == Up(i / 2, 6) == Up(i / 2 / 2, 5);
    assert Up(i / 4, 5) == Up(i / 4 / 2, 4) == Up(i / 4 / 2 / 2, 3);
    assert Up(i / 16, 3) == Up(i / 16 / 2, 2) == Up(i / 16 / 2 / 2, 1) == Up(i / 16 / 2 / 2 / 2, 0);
  }

  /** A rooted block lies within the payload. */
  lemma WithinPayload(b: Block)
    requires Rooted(b)
    ensures b.k <= 7 && Start(b) + BlockSize(b.k) <= 2048
  {
    BlockSizes();
    AboveContains(Block(b.page, 7, 0), b);
  }

  /** What the index arithmetic of the code recovers from a block's address. */
  lemma IndexOfAddress(b: Block)
    ensures (AddrOf(b).ofs - 24) / BlockSize(b.k) == b.i
    ensures (AddrOf(b).ofs - 24) % BlockSize(b.k) == 0
  {
    MultipleDivides(b.i, BlockSize(b.k));
  }

  lemma MultipleDivides(i: nat, s: nat)
    requires s > 0
    ensures (i * s) / s == i && (i * s) % s == 0
  {
    var q, r := (i * s) / s, (i * s) % s;
    assert i * s == q * s + r;
    if i < q { MulLess(i, q, s); } else if q < i { MulLess(q, i, s); }
  }
}
