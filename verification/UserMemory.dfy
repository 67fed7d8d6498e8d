/** User memory as the page tables give it: which user pages are mapped, what the frames behind them
    hold, and why no two pages share a frame. */
module UserMemory {
  import opened Bytes
  import opened Wrappers
  import opened PageDir

  datatype Page = Page(bytes: seq<byte>, writable: bool)

  /** pages tells what the user sees in page q, when user frames have these contents. */
  ghost predicate PageIs(pd: seq<Entry>, tables: map<Frame, seq<Entry>>, contents: map<Frame, seq<byte>>, pages: map<nat, Page>, q: nat)
    requires WellFormed(pd, tables) && q < 0xc_0000
  {
    var e := EntryAt(pd, tables, 4096 * q);
    && (q in pages <==> e.Present())
    && (e.Present() ==> e.frame in contents && pages[q] == Page(contents[e.frame], e.Writable()))
  }

  /** pages is the user memory that the page tables and the frames make up. */
  ghost predicate PagesAre(pd: seq<Entry>, tables: map<Frame, seq<Entry>>, contents: map<Frame, seq<byte>>, pages: map<nat, Page>)
    requires WellFormed(pd, tables)
  {
    && (forall q :: q in pages ==> q < 0xc_0000)
    && (forall q: nat {:trigger PageIs(pd, tables, contents, pages, q)} :: q < 0xc_0000 ==> PageIs(pd, tables, contents, pages, q))
  }

  /** Some user address is mapped to frame f. */
  ghost predicate Mapped(pd: seq<Entry>, tables: map<Frame, seq<Entry>>, va: nat, f: Frame)
    requires WellFormed(pd, tables)
  {
    IsUser(va) && Maps(pd, tables, va, f)
  }

  /** The frames in use are those of others, the directory's, the page tables' and the user pages',
      and each only one of these; a user frame is mapped at most once. */
  ghost predicate FramesOk(pd: seq<Entry>, tables: map<Frame, seq<Entry>>, contents: map<Frame, seq<byte>>,
                           used: set<Frame>, others: set<Frame>, dir: Frame)
  {
    && WellFormed(pd, tables) && dir !in others && dir !in tables && dir !in contents
    && used == others + {dir} + tables.Keys + contents.Keys
    && (forall f :: f in tables ==> (f in others <==> !IsUserTable(pd, f)))
    && (forall f :: f in contents ==> f !in others && f !in tables)
    && (forall va, f :: Mapped(pd, tables, va, f) ==> f in contents)
    && (forall u, v, f :: Mapped(pd, tables, u, f) && Mapped(pd, tables, v, f) ==> u / 4096 == v / 4096)
  }

  /** Every user frame but f is mapped. */
  ghost predicate AllMappedBut(pd: seq<Entry>, tables: map<Frame, seq<Entry>>, contents: map<Frame, seq<byte>>, f: Option<Frame>)
    requires WellFormed(pd, tables)
  {
    forall g {:trigger IsMapped(pd, tables, g)} :: g in contents && f != Some(g) ==> IsMapped(pd, tables, g)
  }

  lemma NothingMapped(pd: seq<Entry>, tables: map<Frame, seq<Entry>>, used: set<Frame>, others: set<Frame>, dir: Frame)
    requires WellFormed(pd, tables) && forall i :: 0 <= i < 768 ==> pd[i] == ZERO
    requires dir !in tables && dir !in others && used == others + {dir} && forall f :: f in tables ==> f in others
    ensures FramesOk(pd, tables, map[], used, others, dir) && PagesAre(pd, tables, map[], map[]) && AllMappedBut(pd, tables, map[], None)
  {
    ZeroNotPresent();
    forall q: nat | q < 0xc_0000
      ensures PageIs(pd, tables, map[], map[], q)
    {
      assert EntryAt(pd, tables, 4096 * q) == ZERO;
    }
  }

  /** A frame that is not mapped may get contents, or lose them, without any page changing. */
  lemma PagesAgree(pd: seq<Entry>, tables: map<Frame, seq<Entry>>, contents: map<Frame, seq<byte>>, contents': map<Frame, seq<byte>>,
                   pages: map<nat, Page>, f: Frame)
    requires WellFormed(pd, tables) && PagesAre(pd, tables, contents, pages) && forall va :: !Mapped(pd, tables, va, f)
    requires forall g :: g in contents && g != f ==> g in contents' && contents'[g] == contents[g]
    ensures PagesAre(pd, tables, contents', pages)
  {
    forall q: nat | q < 0xc_0000
      ensures PageIs(pd, tables, contents', pages, q)
    {
      assert PageIs(pd, tables, contents, pages, q) && !Mapped(pd, tables, 4096 * q, f);
    }
  }

  lemma FrameFilled(pd: seq<Entry>, tables: map<Frame, seq<Entry>>, contents: map<Frame, seq<byte>>, used: set<Frame>, others: set<Frame>, dir: Frame,
                    f: Frame, bytes: seq<byte>)
    requires FramesOk(pd, tables, contents, used, others, dir) && f !in used
    ensures FramesOk(pd, tables, contents[f := bytes], used + {f}, others, dir) && forall va :: !Mapped(pd, tables, va, f)
  {
  }

  lemma FrameDropped(pd: seq<Entry>, tables: map<Frame, seq<Entry>>, contents: map<Frame, seq<byte>>, used: set<Frame>, others: set<Frame>, dir: Frame, f: Frame)
    requires FramesOk(pd, tables, contents, used, others, dir) && f in contents && forall va :: !Mapped(pd, tables, va, f)
    ensures FramesOk(pd, tables, contents - {f}, used - {f}, others, dir)
  {
  }

  /** Only the page at upage has changed, and is now mapped to frame. */
  ghost predicate Remapped(pd: seq<Entry>, tables: map<Frame, seq<Entry>>, pd': seq<Entry>, tables': map<Frame, seq<Entry>>,
                           upage: nat, frame: Frame, writable: bool)
    requires WellFormed(pd, tables) && WellFormed(pd', tables')
  {
    forall u :: 0 <= u < 0x1_0000_0000 ==>
      EntryAt(pd', tables', u) == if u / 4096 == upage / 4096 then PageEntry(frame, writable) else EntryAt(pd, tables, u)
  }

  /** Mapping a page to a frame that is mapped nowhere else adds exactly that page. */
  lemma PageMapped(pd: seq<Entry>, tables: map<Frame, seq<Entry>>, pd': seq<Entry>, tables': map<Frame, seq<Entry>>,
                   contents: map<Frame, seq<byte>>, used: set<Frame>, others: set<Frame>, dir: Frame, upage: nat, frame: Frame, writable: bool, page: Option<Frame>)
    requires FramesOk(pd, tables, contents, used, others, dir) && WellFormed(pd', tables') && Remapped(pd, tables, pd', tables', upage, frame, writable)
    requires upage % 4096 == 0 && IsUser(upage) && !EntryAt(pd, tables, upage).Present()
    requires frame in contents && forall va :: !Mapped(pd, tables, va, frame)
    requires TablesGrew(pd, tables.Keys, pd', tables'.Keys, page) && (page.Some? ==> page.value !in used)
    ensures FramesOk(pd', tables', contents, used + (tables'.Keys - tables.Keys), others, dir)
    ensures forall g :: IsMapped(pd, tables, g) || g == frame ==> IsMapped(pd', tables', g)
  {
    forall va: nat, f | Mapped(pd', tables', va, f)
      ensures if va / 4096 == upage / 4096 then f == frame else Mapped(pd, tables, va, f)
    {
    }
  }

  lemma PageAdded(pd: seq<Entry>, tables: map<Frame, seq<Entry>>, pd': seq<Entry>, tables': map<Frame, seq<Entry>>,
                  contents: map<Frame, seq<byte>>, pages: map<nat, Page>, upage: nat, frame: Frame, writable: bool)
    requires WellFormed(pd, tables) && WellFormed(pd', tables') && Remapped(pd, tables, pd', tables', upage, frame, writable)
    requires PagesAre(pd, tables, contents, pages) && upage % 4096 == 0 && IsUser(upage) && frame in contents
    ensures PagesAre(pd', tables', contents, pages[upage / 4096 := Page(contents[frame], writable)])
  {
    var pages' := pages[upage / 4096 := Page(contents[frame], writable)];
    forall q: nat | q < 0xc_0000
      ensures PageIs(pd', tables', contents, pages', q)
    {
      assert 4096 * q / 4096 == q && PageIs(pd, tables, contents, pages, q);
    }
  }

  /** Is the page mapped? */
  lemma PresentIsMapped(pd: seq<Entry>, tables: map<Frame, seq<Entry>>, contents: map<Frame, seq<byte>>, pages: map<nat, Page>, upage: nat)
    requires WellFormed(pd, tables) && PagesAre(pd, tables, contents, pages) && upage % 4096 == 0 && IsUser(upage)
    ensures EntryAt(pd, tables, upage).Present() <==> upage / 4096 in pages
  {
    assert 4096 * (upage / 4096) == upage && PageIs(pd, tables, contents, pages, upage / 4096);
  }

  /** Destroying the page directory frees what is in use, but for what is in use by others. */
  lemma FreedIsUsed(pd: seq<Entry>, tables: map<Frame, seq<Entry>>, contents: map<Frame, seq<byte>>,
                    used: set<Frame>, others: set<Frame>, dir: Frame, f: Frame)
    requires FramesOk(pd, tables, contents, used, others, dir) && AllMappedBut(pd, tables, contents, None)
    ensures f in used - others <==> f == dir || IsUserTable(pd, f) || IsMapped(pd, tables, f)
  {
    if IsUserTable(pd, f) {
      var i :| 0 <= i < 768 && IsTable(pd, i, f);
      assert pd[i].frame in tables;
    }
    if va :| 0 <= va < 0xc000_0000 && Maps(pd, tables, va, f) { assert Mapped(pd, tables, va, f); }
  }

  /** So destroying the page directory frees every frame once. */
  lemma FramesSeparate(pd: seq<Entry>, tables: map<Frame, seq<Entry>>, contents: map<Frame, seq<byte>>, used: set<Frame>, others: set<Frame>, dir: Frame)
    requires FramesOk(pd, tables, contents, used, others, dir)
    ensures Separate(pd, tables, dir)
  {
    forall i, j, f | 0 <= i < 768 && 0 <= j < 1024 && MapsAt(pd, tables, i, j, f)
      ensures f in contents
    {
      MappedAt(pd, tables, i, j, f);
    }
    forall i, j, k, l, f | 0 <= i < 768 && 0 <= j < 1024 && 0 <= k < 768 && 0 <= l < 1024 && MapsAt(pd, tables, i, j, f) && MapsAt(pd, tables, k, l, f)
      ensures i == k && j == l
    {
      MappedAt(pd, tables, i, j, f);
      MappedAt(pd, tables, k, l, f);
      IndicesIdentifyPage(i * 0x40_0000 + j * 4096, k * 0x40_0000 + l * 4096);
    }
    forall i | 0 <= i < 768 && pd[i] != ZERO
      ensures pd[i].frame in tables
    {
    }
  }

  lemma MappedAt(pd: seq<Entry>, tables: map<Frame, seq<Entry>>, i: nat, j: nat, f: Frame)
    requires WellFormed(pd, tables) && i < 768 && j < 1024 && MapsAt(pd, tables, i, j, f)
    ensures var va := i * 0x40_0000 + j * 4096; Mapped(pd, tables, va, f) && PdNo(va) == i && PtNo(va) == j
  {
    AddressOf(pd, tables, i, j, f);
  }
}
