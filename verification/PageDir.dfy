/** Two-level x86 page tables (userprog/pagedir.c, threads/pte.h, threads/vaddr.h). A page
    directory and its page tables are arrays of 32-bit words, read and written with the masks of
    the source. Virtual addresses are numbers; physical pages are named by frame number. */
module PageDir {
  import opened Wrappers
  import opened Slices

  // ----- virtual addresses (vaddr.h, pte.h); PHYS_BASE is 0xc0000000, pages have 4096 bytes

  predicate IsUser(va: nat) { va < 0xc000_0000 }

  function PdNo(va: nat): nat { va / 0x40_0000 }

  function PtNo(va: nat): nat { va / 4096 % 1024 }

  /** The indices of the two levels identify the virtual page. */
  lemma IndicesIdentifyPage(x: nat, y: nat)
    ensures PdNo(x) == PdNo(y) && PtNo(x) == PtNo(y) <==> x / 4096 == y / 4096
  {
    assert x / 0x40_0000 == x / 4096 / 1024 && y / 0x40_0000 == y / 4096 / 1024;
  }

  // ----- entries (pte.h)

  /** A physical page, by the upper 20 bits of its address. */
  datatype Frame = Frame(number: bv20)

  /** A page directory or page table entry: frame (PTE_ADDR) and flags (PTE_FLAGS). */
  datatype Entry = Entry(frame: Frame, flags: bv12)
  {
    predicate Present() { flags & 0x1 != 0 }
    predicate Writable() { flags & 0x2 != 0 }
    predicate User() { flags & 0x4 != 0 }
    predicate Accessed() { flags & 0x20 != 0 }
    predicate Dirty() { flags & 0x40 != 0 }
  }

  const ZERO: Entry := Entry(Frame(0), 0)

  /** e' differs from e at most in the flag bits of mask. */
  predicate SameBut(e: Entry, e': Entry, mask: bv12)
  {
    e'.frame == e.frame && e'.flags & !mask == e.flags & !mask
  }

  /** So what the masks leave alone stays: the frame, and every other flag. */
  lemma OthersStay(e: Entry, e': Entry)
    ensures SameBut(e, e', 0x1) || SameBut(e, e', 0x20) || SameBut(e, e', 0x40) ==>
              e'.frame == e.frame && e'.Writable() == e.Writable() && e'.User() == e.User()
    ensures SameBut(e, e', 0x20) || SameBut(e, e', 0x40) ==> e'.Present() == e.Present()
    ensures SameBut(e, e', 0x1) || SameBut(e, e', 0x40) ==> e'.Accessed() == e.Accessed()
    ensures SameBut(e, e', 0x1) || SameBut(e, e', 0x20) ==> e'.Dirty() == e.Dirty()
  {
  }

  /** The entry that a stored 32-bit word stands for. */
  function Unpack(w: bv32): Entry
  {
    Entry(Frame(((w & 0xffff_f000) >> 12) as bv20), (w & 0xfff) as bv12)
  }

  /** Different words stand for different entries. */
  lemma UnpackInjective(v: bv32, w: bv32)
    ensures Unpack(v) == Unpack(w) ==> v == w
  {
  }

  /** Where an entry keeps what, counting bits from the right: present, writable, user, accessed (bit 5)
      and dirty (bit 6), and the frame above the lowest twelve. */
  lemma EntryLayout(w: bv32)
    ensures Unpack(w).Present() <==> w % 2 == 1
    ensures Unpack(w).Writable() <==> w / 2 % 2 == 1
    ensures Unpack(w).User() <==> w / 4 % 2 == 1
    ensures Unpack(w).Accessed() <==> w / 32 % 2 == 1
    ensures Unpack(w).Dirty() <==> w / 64 % 2 == 1
    ensures Unpack(w).frame.number as bv32 == w / 4096
  {
  }

  lemma ZeroWord(w: bv32)
    ensures w == 0 <==> Unpack(w) == ZERO
  {
    assert Unpack(0) == ZERO;
    UnpackInjective(w, 0);
  }

  /** pde_create and pte_create_user, for the page in frame f: the address or-ed with flags. */
  method PdeCreate(f: Frame) returns (w: bv32)
    ensures Unpack(w) == TableEntry(f)
  {
    w := ((f.number as bv32) << 12) | 0x4 | 0x1 | 0x2;
  }

  method PteCreateUser(f: Frame, writable: bool) returns (w: bv32)
    ensures Unpack(w) == PageEntry(f, writable)
  {
    w := (((f.number as bv32) << 12) | 0x1 | if writable then 0x2 else 0x0) | 0x4;
  }

  function TableEntry(f: Frame): (e: Entry)
    ensures e.Present() && e.Writable() && e.User() && e != ZERO
  {
    Entry(f, 0x7)
  }

  function PageEntry(f: Frame, writable: bool): (e: Entry)
    ensures e.Present() && e.Writable() == writable && e.User() && !e.Accessed() && !e.Dirty()
  {
    if writable then Entry(f, 0x7) else Entry(f, 0x5)
  }

  /** The tests and updates of pagedir.c on stored words. */
  method IsPresent(w: bv32) returns (p: bool)
    ensures p == Unpack(w).Present()
  {
    p := w & 0x1 != 0;
  }

  method IsDirty(w: bv32) returns (d: bool)
    ensures d == Unpack(w).Dirty()
  {
    d := w & 0x40 != 0;
  }

  method IsAccessed(w: bv32) returns (a: bool)
    ensures a == Unpack(w).Accessed()
  {
    a := w & 0x20 != 0;
  }

  method FrameOf(w: bv32) returns (f: Frame)
    ensures f == Unpack(w).frame
  {
    f := Frame(((w & 0xffff_f000) >> 12) as bv20);
  }

  method NotPresent(w: bv32) returns (r: bv32)
    ensures !Unpack(r).Present() && SameBut(Unpack(w), Unpack(r), 0x1)
    ensures r >> 1 == w >> 1
  {
    r := w & 0xffff_fffe;
  }

  method WithDirty(w: bv32, d: bool) returns (r: bv32)
    ensures Unpack(r).Dirty() == d && SameBut(Unpack(w), Unpack(r), 0x40)
  {
    if d {
      r := w | 0x40;
    } else {
      r := w & 0xffff_ffbf;
    }
  }

  method WithAccessed(w: bv32, a: bool) returns (r: bv32)
    ensures Unpack(r).Accessed() == a && SameBut(Unpack(w), Unpack(r), 0x20)
  {
    if a {
      r := w | 0x20;
    } else {
      r := w & 0xffff_ffdf;
    }
  }

  // ----- page directories and page tables as stored words

  ghost function Entries(words: seq<bv32>): (es: seq<Entry>)
    ensures |es| == |words| && forall i :: 0 <= i < |words| ==> es[i] == Unpack(words[i])
  {
    seq(|words|, i requires 0 <= i < |words| => Unpack(words[i]))
  }

  ghost function TableEntries(tables: map<Frame, seq<bv32>>): (ts: map<Frame, seq<Entry>>)
    ensures ts.Keys == tables.Keys && forall f :: f in tables ==> ts[f] == Entries(tables[f])
  {
    map f | f in tables :: Entries(tables[f])
  }

  lemma StoreWord(words: seq<bv32>, i: nat, w: bv32)
    requires i < |words|
    ensures Entries(words[i := w]) == Entries(words)[i := Unpack(w)]
  {
  }

  lemma StoreTable(tables: map<Frame, seq<bv32>>, f: Frame, t: seq<bv32>)
    ensures TableEntries(tables[f := t]) == TableEntries(tables)[f := Entries(t)]
  {
  }

  // ----- the two levels

  /** Every directory entry is empty or points to a page table of its own. */
  ghost predicate WellFormed(pd: seq<Entry>, tables: map<Frame, seq<Entry>>)
  {
    && |pd| == 1024
    && (forall i :: 0 <= i < 1024 && pd[i] != ZERO ==>
          pd[i].Present() && pd[i].frame in tables && |tables[pd[i].frame]| == 1024)
    && (forall i, j :: 0 <= i < j < 1024 && pd[i] != ZERO && pd[j] != ZERO ==> pd[i].frame != pd[j].frame)
  }

  /** The flat view: the page table entry for an address, 0 where there is no page table. */
  ghost function EntryAt(pd: seq<Entry>, tables: map<Frame, seq<Entry>>, va: nat): Entry
    requires WellFormed(pd, tables) && va < 0x1_0000_0000
  {
    if pd[PdNo(va)] == ZERO then ZERO else tables[pd[PdNo(va)].frame][PtNo(va)]
  }

  /** A page that no directory entry points to. */
  ghost predicate Unused(pd: seq<Entry>, tables: map<Frame, seq<Entry>>, page: Frame)
  {
    page !in tables && forall i :: 0 <= i < |pd| && pd[i] != ZERO ==> pd[i].frame != page
  }

  lemma NewTable(pd: seq<Entry>, tables: map<Frame, seq<Entry>>, k: nat, page: Frame, empty: seq<Entry>)
    requires WellFormed(pd, tables) && k < 1024 && pd[k] == ZERO && Unused(pd, tables, page)
    requires |empty| == 1024 && forall i :: 0 <= i < 1024 ==> empty[i] == ZERO
    ensures var pd', tables' := pd[k := TableEntry(page)], tables[page := empty];
            && WellFormed(pd', tables')
            && forall va :: 0 <= va < 0x1_0000_0000 ==> EntryAt(pd', tables', va) == EntryAt(pd, tables, va)
  {
    var pd', tables' := pd[k := TableEntry(page)], tables[page := empty];
    forall i | 0 <= i < 1024 && pd'[i] != ZERO
      ensures pd'[i].Present() && pd'[i].frame in tables' && |tables'[pd'[i].frame]| == 1024
    {
      if i != k { assert pd'[i] == pd[i]; }
    }
    assert WellFormed(pd', tables');
    forall va | 0 <= va < 0x1_0000_0000
      ensures EntryAt(pd', tables', va) == EntryAt(pd, tables, va)
    {
      if PdNo(va) != k && pd[PdNo(va)] != ZERO { assert pd[PdNo(va)].frame != page; }
    }
  }

  lemma StoreEntryAt(pd: seq<Entry>, tables: map<Frame, seq<Entry>>, va: nat, t: seq<Entry>, w: Entry)
    requires WellFormed(pd, tables) && va < 0x1_0000_0000 && pd[PdNo(va)] != ZERO
    requires t == tables[pd[PdNo(va)].frame][PtNo(va) := w]
    ensures var tables' := tables[pd[PdNo(va)].frame := t];
            && WellFormed(pd, tables')
            && forall u :: 0 <= u < 0x1_0000_0000 ==>
                 EntryAt(pd, tables', u) == if u / 4096 == va / 4096 then w else EntryAt(pd, tables, u)
  {
    var tables' := tables[pd[PdNo(va)].frame := t];
    forall u | 0 <= u < 0x1_0000_0000
      ensures EntryAt(pd, tables', u) == if u / 4096 == va / 4096 then w else EntryAt(pd, tables, u)
    {
      IndicesIdentifyPage(u, va);
      var i, j := PdNo(u), PdNo(va);
      if i != j && pd[i] != ZERO { assert pd[i].frame != pd[j].frame; }
    }
  }

  /** There are the same page tables as before, or page is one of the user's in addition. */
  ghost predicate TablesGrew(pd: seq<Entry>, tables: set<Frame>, pd': seq<Entry>, tables': set<Frame>, page: Option<Frame>)
    requires |pd| == |pd'| == 1024
  {
    || (pd' == pd && tables' == tables)
    || (&& page.Some? && page.value !in tables && tables' == tables + {page.value}
        && forall f :: IsUserTable(pd', f) <==> IsUserTable(pd, f) || f == page.value)
  }

  lemma NewUserTable(pd: seq<Entry>, k: nat, page: Frame)
    requires |pd| == 1024 && k < 768 && pd[k] == ZERO
    ensures forall f :: IsUserTable(pd[k := TableEntry(page)], f) <==> IsUserTable(pd, f) || f == page
  {
    var pd' := pd[k := TableEntry(page)];
    forall f
      ensures IsUserTable(pd', f) <==> IsUserTable(pd, f) || f == page
    {
      assert IsTable(pd', k, page);
      forall i | 0 <= i < 768 && i != k
        ensures IsTable(pd', i, f) == IsTable(pd, i, f)
      {
      }
    }
  }

  class AddressSpace {
    var pd: seq<bv32>                       // the 1024 words of the directory
    var tables: map<Frame, seq<bv32>>       // the words of the page tables, by frame

    ghost function Pd(): seq<Entry> reads this { Entries(pd) }

    ghost function Tables(): map<Frame, seq<Entry>> reads this { TableEntries(tables) }

    ghost predicate Valid()
      reads this
    {
      WellFormed(Pd(), Tables())
    }

    /** The flat map that the two levels implement. */
    ghost function At(va: nat): Entry
      requires Valid() && va < 0x1_0000_0000
      reads this
    {
      EntryAt(Pd(), Tables(), va)
    }

    /** Is there a page table for va? */
    ghost predicate HasTable(va: nat)
      requires Valid() && va < 0x1_0000_0000
      reads this
    {
      Pd()[PdNo(va)] != ZERO
    }

    /** Every page but the one that contains va is as before, and so is the kernel half. */
    twostate predicate OnlyPageChanged(va: nat)
      requires old(Valid()) && Valid()
      reads this
    {
      && (forall u :: 0 <= u < 0x1_0000_0000 && u / 4096 != va / 4096 ==> At(u) == old(At(u)))
      && pd[768..] == old(pd[768..])
    }

    /** pagedir_create: the kernel half of the initial directory, nothing in the user half. */
    constructor (initial: seq<bv32>, kernelTables: map<Frame, seq<bv32>>)
      requires WellFormed(Entries(initial), TableEntries(kernelTables)) && forall i :: 0 <= i < 768 ==> initial[i] == 0
      ensures Valid() && pd == initial && tables == kernelTables
      ensures forall va :: 0 <= va < 0xc000_0000 ==> At(va) == ZERO
    {
      ZeroWord(0);
      pd := initial;
      tables := kernelTables;
    }

    /** lookup_page: the page table for va, created on demand in the page offered by palloc. */
    method LookupPage(va: nat, create: bool, page: Option<Frame>) returns (r: Option<Frame>)
      requires Valid() && va < 0x1_0000_0000 && (create ==> IsUser(va))
      requires page.Some? ==> Unused(Pd(), Tables(), page.value)
      modifies this
      ensures Valid()
      ensures r.None? <==> !old(HasTable(va)) && (!create || page.None?)
      ensures r.Some? ==> HasTable(va) && r.value == Pd()[PdNo(va)].frame
      ensures !create || r.None? ==> pd == old(pd) && tables == old(tables)
      ensures forall u :: 0 <= u < 0x1_0000_0000 ==> At(u) == old(At(u))
      ensures pd[768..] == old(pd[768..])
      ensures TablesGrew(old(Pd()), old(tables.Keys), Pd(), tables.Keys, page)
    {
      var pde := pd[PdNo(va)];
      ZeroWord(pde);
      if pde == 0 {
        if !create || page.None? {
          return None;
        }
        CreateTable(PdNo(va), page.value);
        NewUserTable(old(Pd()), PdNo(va), page.value);
        pde := pd[PdNo(va)];
      }
      var f := FrameOf(pde);
      r := Some(f);
    }

    /** Installs an empty page table. */
    method CreateTable(k: nat, page: Frame)
      requires Valid() && k < 768 && Pd()[k] == ZERO && Unused(Pd(), Tables(), page)
      modifies this
      ensures Valid() && Pd()[k] == TableEntry(page) && pd[768..] == old(pd[768..])
      ensures forall u :: 0 <= u < 0x1_0000_0000 ==> At(u) == old(At(u))
      ensures tables.Keys == old(tables.Keys) + {page} && Pd() == old(Pd())[k := TableEntry(page)]
    {
      var empty: seq<bv32> := seq(1024, _ => 0);
      var w := PdeCreate(page);
      ZeroWord(0);
      NewTable(Pd(), Tables(), k, page, Entries(empty));
      StoreTable(tables, page, empty);
      StoreWord(pd, k, w);
      tables := tables[page := empty];
      pd := pd[k := w];
    }

    /** *pte = w, for the entry of va in its page table. */
    method Store(va: nat, table: Frame, w: bv32)
      requires Valid() && va < 0x1_0000_0000 && HasTable(va) && table == Pd()[PdNo(va)].frame
      modifies this`tables
      ensures Valid() && OnlyPageChanged(va)
      ensures forall u :: 0 <= u < 0x1_0000_0000 && u / 4096 == va / 4096 ==> At(u) == Unpack(w)
      ensures tables.Keys == old(tables.Keys)
    {
      var t: seq<bv32> := tables[table];
      StoreWord(t, PtNo(va), w);
      t := t[PtNo(va) := w];
      StoreEntryAt(Pd(), Tables(), va, Entries(t), Unpack(w));
      StoreTable(tables, table, t);
      tables := tables[table := t];
    }

    /** The word *pte for va. */
    method Load(va: nat, table: Frame) returns (w: bv32)
      requires Valid() && va < 0x1_0000_0000 && HasTable(va) && table == Pd()[PdNo(va)].frame
      ensures Unpack(w) == At(va)
    {
      w := tables[table][PtNo(va)];
    }

    /** pagedir_set_page: maps upage, or fails for lack of memory and changes nothing. */
    method SetPage(upage: nat, frame: Frame, writable: bool, page: Option<Frame>) returns (ok: bool)
      requires Valid() && IsUser(upage) && upage % 4096 == 0 && !At(upage).Present()
      requires page.Some? ==> Unused(Pd(), Tables(), page.value)
      modifies this
      ensures Valid()
      ensures !ok <==> !old(HasTable(upage)) && page.None?
      ensures !ok ==> pd == old(pd) && tables == old(tables)
      ensures OnlyPageChanged(upage)
      ensures ok ==> forall u :: upage <= u < upage + 4096 ==> At(u) == PageEntry(frame, writable)
      ensures TablesGrew(old(Pd()), old(tables.Keys), Pd(), tables.Keys, page)
    {
      var pt := LookupPage(upage, true, page);
      if pt.Some? {
        var w := PteCreateUser(frame, writable);
        Store(upage, pt.value, w);
        ok := true;
      } else {
        ok := false;
      }
    }

    /** pagedir_get_page: the frame and the offset within it, or null when not present. */
    method GetPage(uaddr: nat) returns (r: Option<(Frame, nat)>)
      requires Valid() && IsUser(uaddr)
      ensures r == if At(uaddr).Present() then Some((At(uaddr).frame, uaddr % 4096)) else None
    {
      var pde := pd[PdNo(uaddr)];
      ZeroWord(pde);
      if pde == 0 {
        return None;
      }
      var table := FrameOf(pde);
      var pte := Load(uaddr, table);
      var present := IsPresent(pte);
      var f := FrameOf(pte);
      r := if present then Some((f, uaddr % 4096)) else None;
    }

    /** pagedir_clear_page: marks the page not present and keeps its other bits. */
    method ClearPage(upage: nat)
      requires Valid() && IsUser(upage) && upage % 4096 == 0
      modifies this
      ensures Valid() && OnlyPageChanged(upage)
      ensures !At(upage).Present() && SameBut(old(At(upage)), At(upage), 0x1)
    {
      var pt := LookupPage(upage, false, None);
      if pt.Some? {
        var pte := Load(upage, pt.value);
        var present := IsPresent(pte);
        if present {
          pte := NotPresent(pte);
          Store(upage, pt.value, pte);
        }
      }
    }

    /** pagedir_is_dirty, pagedir_is_accessed */
    method TestFlags(vpage: nat) returns (dirty: bool, accessed: bool)
      requires Valid() && vpage < 0x1_0000_0000
      ensures dirty == At(vpage).Dirty() && accessed == At(vpage).Accessed()
    {
      var pde := pd[PdNo(vpage)];
      ZeroWord(pde);
      if pde == 0 {
        return false, false;
      }
      var table := FrameOf(pde);
      var pte := Load(vpage, table);
      dirty := IsDirty(pte);
      accessed := IsAccessed(pte);
    }

    /** pagedir_set_dirty: no effect where there is no page table. */
    method SetDirty(vpage: nat, d: bool)
      requires Valid() && vpage < 0x1_0000_0000
      modifies this
      ensures Valid() && OnlyPageChanged(vpage)
      ensures SameBut(old(At(vpage)), At(vpage), 0x40) && At(vpage).Dirty() == (d && old(HasTable(vpage)))
    {
      var pt := LookupPage(vpage, false, None);
      if pt.Some? {
        var pte := Load(vpage, pt.value);
        pte := WithDirty(pte, d);
        Store(vpage, pt.value, pte);
      }
    }

    /** pagedir_set_accessed */
    method SetAccessed(vpage: nat, a: bool)
      requires Valid() && vpage < 0x1_0000_0000
      modifies this
      ensures Valid() && OnlyPageChanged(vpage)
      ensures SameBut(old(At(vpage)), At(vpage), 0x20) && At(vpage).Accessed() == (a && old(HasTable(vpage)))
    {
      var pt := LookupPage(vpage, false, None);
      if pt.Some? {
        var pte := Load(vpage, pt.value);
        pte := WithAccessed(pte, a);
        Store(vpage, pt.value, pte);
      }
    }

    /** pagedir_destroy: gives back every present frame, every user page table and the directory. */
    method Destroy(pdFrame: Frame) returns (freed: seq<Frame>)
      requires Valid()
      ensures forall f :: f in freed <==> f == pdFrame || IsUserTable(Pd(), f) || IsMapped(Pd(), Tables(), f)
      ensures Separate(Pd(), Tables(), pdFrame) ==> NoDup(freed)
    {
      freed := [];
      var i := 0;
      while i < 768
        invariant i <= 768 && freed == FreedBelow(Pd(), Tables(), i)
      {
        var present := IsPresent(pd[i]);
        ZeroNotPresent();
        if present {
          var pt := FrameOf(pd[i]);
          var frames := FramesOf(tables[pt]);
          freed := freed + frames + [pt];
        }
        i := i + 1;
      }
      freed := freed + [pdFrame];
      forall f ensures f in freed <==> f == pdFrame || IsUserTable(Pd(), f) || IsMapped(Pd(), Tables(), f) {
        FreedMembers(Pd(), Tables(), f);
      }
      if Separate(Pd(), Tables(), pdFrame) { FreedOnce(Pd(), Tables(), pdFrame, 768); }
    }
  }

  lemma ZeroNotPresent()
    ensures !ZERO.Present() && !ZERO.Dirty() && !ZERO.Accessed()
  {
  }

  /** The inner loop of pagedir_destroy. */
  method FramesOf(pt: seq<bv32>) returns (frames: seq<Frame>)
    ensures frames == PresentFrames(Entries(pt), |pt|)
  {
    frames := [];
    var j := 0;
    while j < |pt|
      invariant j <= |pt| && frames == PresentFrames(Entries(pt), j)
    {
      var present := IsPresent(pt[j]);
      if present {
        var f := FrameOf(pt[j]);
        frames := frames + [f];
      }
      j := j + 1;
    }
  }

  // ----- what destroy frees

  /** Frames of the present entries among the first n of a page table. */
  ghost function PresentFrames(pt: seq<Entry>, n: nat): seq<Frame>
    requires n <= |pt|
  {
    if n == 0 then [] else PresentFrames(pt, n - 1) + (if pt[n - 1].Present() then [pt[n - 1].frame] else [])
  }

  /** What is freed on account of the first n directory entries. */
  ghost function FreedBelow(pd: seq<Entry>, tables: map<Frame, seq<Entry>>, n: nat): seq<Frame>
    requires WellFormed(pd, tables) && n <= 1024
  {
    if n == 0 then []
    else if pd[n - 1] == ZERO then FreedBelow(pd, tables, n - 1)
    else FreedBelow(pd, tables, n - 1) + PresentFrames(tables[pd[n - 1].frame], 1024) + [pd[n - 1].frame]
  }

  ghost predicate IsTable(pd: seq<Entry>, i: nat, f: Frame)
    requires i < |pd|
  {
    pd[i] != ZERO && pd[i].frame == f
  }

  /** The virtual address va is mapped to frame f. */
  ghost predicate Maps(pd: seq<Entry>, tables: map<Frame, seq<Entry>>, va: nat, f: Frame)
    requires WellFormed(pd, tables) && va < 0x1_0000_0000
  {
    EntryAt(pd, tables, va).Present() && EntryAt(pd, tables, va).frame == f
  }

  ghost predicate IsUserTable(pd: seq<Entry>, f: Frame)
    requires |pd| == 1024
  {
    exists i :: 0 <= i < 768 && IsTable(pd, i, f)
  }

  /** Some user address is mapped to frame f. */
  ghost predicate IsMapped(pd: seq<Entry>, tables: map<Frame, seq<Entry>>, f: Frame)
    requires WellFormed(pd, tables)
  {
    exists va :: IsUser(va) && Maps(pd, tables, va, f)
  }

  /** Entry j of the page table of directory entry i is present and maps frame f. */
  ghost predicate MapsAt(pd: seq<Entry>, tables: map<Frame, seq<Entry>>, i: nat, j: nat, f: Frame)
    requires WellFormed(pd, tables) && i < 1024 && j < 1024
  {
    pd[i] != ZERO && tables[pd[i].frame][j].Present() && tables[pd[i].frame][j].frame == f
  }

  /** No user frame is mapped twice, and none is a page table or the directory. */
  ghost predicate Separate(pd: seq<Entry>, tables: map<Frame, seq<Entry>>, pdFrame: Frame)
    requires WellFormed(pd, tables)
  {
    && (forall i, j, k, l, f | 0 <= i < 768 && 0 <= j < 1024 && 0 <= k < 768 && 0 <= l < 1024 ::
          MapsAt(pd, tables, i, j, f) && MapsAt(pd, tables, k, l, f) ==> i == k && j == l)
    && (forall i, j, k, f | 0 <= i < 768 && 0 <= j < 1024 && 0 <= k < 768 ::
          MapsAt(pd, tables, i, j, f) ==> !IsTable(pd, k, f))
    && (forall i, j :: 0 <= i < 768 && 0 <= j < 1024 ==> !MapsAt(pd, tables, i, j, pdFrame))
    && (forall i :: 0 <= i < 768 ==> !IsTable(pd, i, pdFrame))
  }

  lemma {:induction false} PresentMembers(pt: seq<Entry>, n: nat, f: Frame)
    requires n <= |pt|
    ensures f in PresentFrames(pt, n) <==> exists j :: 0 <= j < n && pt[j].Present() && pt[j].frame == f
    decreases n
  {
    if n > 0 { PresentMembers(pt, n - 1, f); }
  }

  lemma {:induction false} FreedBelowMembers(pd: seq<Entry>, tables: map<Frame, seq<Entry>>, n: nat, f: Frame)
    requires WellFormed(pd, tables) && n <= 768
    ensures f in FreedBelow(pd, tables, n) <==>
              (exists i :: 0 <= i < n && IsTable(pd, i, f)) || (exists i, j :: 0 <= i < n && 0 <= j < 1024 && MapsAt(pd, tables, i, j, f))
    decreases n
  {
    if n > 0 {
      FreedBelowMembers(pd, tables, n - 1, f);
      var i := n - 1;
      if pd[i] != ZERO {
        var pt := tables[pd[i].frame];
        PresentMembers(pt, 1024, f);
        if j :| 0 <= j < 1024 && pt[j].Present() && pt[j].frame == f { assert MapsAt(pd, tables, i, j, f); }
        assert IsTable(pd, i, pd[i].frame);
      }
    }
  }

  /** A table position as a virtual address. */
  lemma AddressOf(pd: seq<Entry>, tables: map<Frame, seq<Entry>>, i: nat, j: nat, f: Frame)
    requires WellFormed(pd, tables) && i < 1024 && j < 1024
    ensures var va := i * 0x40_0000 + j * 4096;
            va < 0x1_0000_0000 && PdNo(va) == i && PtNo(va) == j && (i < 768 <==> IsUser(va))
            && (Maps(pd, tables, va, f) <==> MapsAt(pd, tables, i, j, f))
  {
    var va := i * 0x40_0000 + j * 4096;
    assert va / 4096 == i * 1024 + j;
    ZeroNotPresent();
  }

  lemma FreedMembers(pd: seq<Entry>, tables: map<Frame, seq<Entry>>, f: Frame)
    requires WellFormed(pd, tables)
    ensures f in FreedBelow(pd, tables, 768) <==> IsUserTable(pd, f) || IsMapped(pd, tables, f)
  {
    FreedBelowMembers(pd, tables, 768, f);
    if i, j :| 0 <= i < 768 && 0 <= j < 1024 && MapsAt(pd, tables, i, j, f) {
      AddressOf(pd, tables, i, j, f);
      assert IsUser(i * 0x40_0000 + j * 4096);
    }
    if va :| 0 <= va < 0xc000_0000 && Maps(pd, tables, va, f) {
      ZeroNotPresent();
      assert MapsAt(pd, tables, PdNo(va), PtNo(va), f);
    }
  }

  lemma {:induction false} PresentOnce(pd: seq<Entry>, tables: map<Frame, seq<Entry>>, pdFrame: Frame, i: nat, n: nat)
    requires WellFormed(pd, tables) && Separate(pd, tables, pdFrame) && i < 768 && n <= 1024 && pd[i] != ZERO
    ensures NoDup(PresentFrames(tables[pd[i].frame], n))
    decreases n
  {
    if n > 0 {
      var pt := tables[pd[i].frame];
      PresentOnce(pd, tables, pdFrame, i, n - 1);
      if pt[n - 1].Present() {
        var f := pt[n - 1].frame;
        assert MapsAt(pd, tables, i, n - 1, f);
        PresentMembers(pt, n - 1, f);
        forall j | 0 <= j < n - 1 && pt[j].Present()
          ensures pt[j].frame != f
        {
          assert MapsAt(pd, tables, i, j, pt[j].frame);
        }
      }
    }
  }

  lemma ConcatOnce(a: seq<Frame>, b: seq<Frame>)
    requires NoDup(a) && NoDup(b) && forall x :: x in a ==> x !in b
    ensures NoDup(a + b)
  {
    var c := a + b;
    forall p, q | 0 <= p < q < |c|
      ensures c[p] != c[q]
    {
      if p < |a| <= q { assert c[p] in a && c[q] == b[q - |a|]; }
      else if |a| <= p { assert c[p] == b[p - |a|] && c[q] == b[q - |a|]; }
    }
  }

  lemma ChunkOnce(pd: seq<Entry>, tables: map<Frame, seq<Entry>>, pdFrame: Frame, i: nat)
    requires WellFormed(pd, tables) && Separate(pd, tables, pdFrame) && i < 768 && pd[i] != ZERO
    ensures NoDup(PresentFrames(tables[pd[i].frame], 1024) + [pd[i].frame])
    ensures forall f :: f in PresentFrames(tables[pd[i].frame], 1024) + [pd[i].frame] ==>
              f != pdFrame && f !in FreedBelow(pd, tables, i)
  {
    var pt, own := tables[pd[i].frame], pd[i].frame;
    var a := PresentFrames(pt, 1024);
    PresentOnce(pd, tables, pdFrame, i, 1024);
    assert IsTable(pd, i, own);
    forall f | f in a
      ensures f != own && f != pdFrame && f !in FreedBelow(pd, tables, i)
    {
      PresentMembers(pt, 1024, f);
      var j :| 0 <= j < 1024 && pt[j].Present() && pt[j].frame == f;
      assert MapsAt(pd, tables, i, j, f);
      FreedBelowMembers(pd, tables, i, f);
    }
    FreedBelowMembers(pd, tables, i, own);
    assert own != pdFrame;
    ConcatOnce(a, [own]);
  }

  /** With separate frames nothing is freed twice. */
  lemma {:induction false} FreedOnce(pd: seq<Entry>, tables: map<Frame, seq<Entry>>, pdFrame: Frame, n: nat)
    requires WellFormed(pd, tables) && Separate(pd, tables, pdFrame) && n <= 768
    ensures NoDup(FreedBelow(pd, tables, n) + [pdFrame])
    decreases n
  {
    if n > 0 {
      FreedOnce(pd, tables, pdFrame, n - 1);
      if pd[n - 1] != ZERO {
        var before, chunk := FreedBelow(pd, tables, n - 1), PresentFrames(tables[pd[n - 1].frame], 1024) + [pd[n - 1].frame];
        ChunkOnce(pd, tables, pdFrame, n - 1);
        DropLast(before, pdFrame);
        ConcatOnce(before, chunk);
        assert FreedBelow(pd, tables, n) == before + chunk;
        ConcatOnce(before + chunk, [pdFrame]);
      }
    }
  }

  lemma DropLast(a: seq<Frame>, x: Frame)
    requires NoDup(a + [x])
    ensures NoDup(a) && x !in a
  {
    var c := a + [x];
    assert forall i :: 0 <= i < |a| ==> c[i] == a[i];
    assert c[|a|] == x;
  }
}
