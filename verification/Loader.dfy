/** The ELF loader (userprog/process.c): program headers, segment validation and the page by
    page loading of segments into frames that the stored page tables map. Which page each
    allocation gets, if any, and whether each file operation succeeds is decided by oracles. */
module Loader {
  import opened Wrappers
  import opened Bytes
  import opened Slices
  import opened PageDir
  import opened UserMemory
  import opened InodeData

  // ----- program headers

  datatype Phdr = Phdr(ptype: uint32, offset: uint32, vaddr: uint32, filesz: uint32, memsz: uint32, flags: uint32)

  function PhdrAt(f: seq<byte>, o: nat): Phdr
    requires o + 32 <= |f|
  {
    Phdr(U32(f, o), U32(f, o + 4), U32(f, o + 8), U32(f, o + 16), U32(f, o + 20), U32(f, o + 24))
  }

  /** struct Elf32_Phdr as it lies in the file: type, offset, virtual and physical address, sizes in the
      file and in memory, flags and alignment. */
  function PhdrBytes(p: Phdr, paddr: uint32, align: uint32): (b: seq<byte>)
    ensures |b| == 32
  {
    Bytes32(p.ptype) + Bytes32(p.offset) + Bytes32(p.vaddr) + Bytes32(paddr) +
    (Bytes32(p.filesz) + Bytes32(p.memsz) + Bytes32(p.flags) + Bytes32(align))
  }

  /** A program header is read back from wherever in the file it was written. */
  lemma PhdrRoundTrip(f: seq<byte>, o: nat, p: Phdr, paddr: uint32, align: uint32)
    requires o + 32 <= |f| && f[o..o + 32] == PhdrBytes(p, paddr, align)
    ensures PhdrAt(f, o) == p
  {
    var b := PhdrBytes(p, paddr, align);
    WordIn(f, o, b, 0, p.ptype);
    WordIn(f, o, b, 4, p.offset);
    WordIn(f, o, b, 8, p.vaddr);
    WordIn(f, o, b, 16, p.filesz);
    WordIn(f, o, b, 20, p.memsz);
    WordIn(f, o, b, 24, p.flags);
  }

  lemma WordIn(f: seq<byte>, o: nat, b: seq<byte>, k: nat, x: uint32)
    requires o + |b| <= |f| && f[o..o + |b|] == b && k + 4 <= |b| && b[k..k + 4] == Bytes32(x)
    ensures U32(f, o + k) == x
  {
    SliceOfSlice(f, o, o + |b|, k, k + 4);
    Bytes32RoundTrip(f, o + k, x);
  }

  lemma HalfIn(f: seq<byte>, b: seq<byte>, k: nat, x: nat)
    requires |b| <= |f| && f[..|b|] == b && x < 0x1_0000 && k + 2 <= |b| && b[k..k + 2] == Bytes16(x)
    ensures U16(f, k) == x
  {
    assert f[k..k + 2] == f[..|b|][k..k + 2];
    Bytes16RoundTrip(f, k, x);
  }

  /** validate_segment, with its 32-bit sum. */
  predicate Validate(p: Phdr, fileLength: nat)
  {
    && p.offset % 4096 == p.vaddr % 4096
    && p.offset <= fileLength
    && p.memsz >= p.filesz
    && p.memsz != 0
    && p.vaddr < 0xc000_0000
    && (p.vaddr + p.memsz) % 0x1_0000_0000 < 0xc000_0000
    && (p.vaddr + p.memsz) % 0x1_0000_0000 >= p.vaddr
    && p.vaddr >= 4096
  }

  /** A validated segment really lies within user memory above page 0: the sum cannot have
      wrapped. */
  lemma ValidatedInUserSpace(p: Phdr, fileLength: nat)
    requires Validate(p, fileLength)
    ensures 4096 <= p.vaddr < p.vaddr + p.memsz < 0xc000_0000
  {
  }

  /** And those are exactly the segments that pass, apart from what the file and the sizes ask. */
  lemma ValidateIff(p: Phdr, fileLength: nat)
    ensures Validate(p, fileLength) <==>
              && (p.vaddr - p.offset) % 4096 == 0 && p.offset <= fileLength && p.filesz <= p.memsz
              && 4096 <= p.vaddr < p.vaddr + p.memsz < 0xc000_0000
  {
  }

  function Writable(p: Phdr): bool { p.flags / 2 % 2 == 1 }

  /** Of the flags for executing (x), writing (w) and reading it is the second. */
  lemma WritableIsPFW(p: Phdr, x: nat, w: nat, r: nat)
    requires x < 2 && w < 2 && p.flags == x + 2 * w + 4 * r
    ensures Writable(p) <==> w == 1
  {
  }

  function FirstPage(p: Phdr): nat { p.vaddr / 4096 }

  /** One past the last page of the segment. */
  function EndPage(p: Phdr): nat { (p.vaddr + p.memsz + 4095) / 4096 }

  /** ROUND_UP (x, PGSIZE), in 32 bits. */
  function RoundUp(x: uint32): uint32 { (x + 4095) % 0x1_0000_0000 / 4096 * 4096 }

  lemma NoWrap(x: int)
    requires 0 <= x < 0x1_0000_0000
    ensures x % 0x1_0000_0000 == x
  {
  }

  /** Pages spanned by memsz bytes from an address with this page number and offset. */
  lemma PagesSpanned(vaddr: nat, memsz: nat, page: nat, ofs: nat)
    requires vaddr == 4096 * page + ofs
    ensures (vaddr + memsz + 4095) / 4096 == page + (ofs + memsz + 4095) / 4096
  {
  }

  /** The arithmetic in load before load_segment: nothing wraps, and its assertions hold. */
  lemma SegmentArithmetic(p: Phdr, fileLength: nat, pageOffset: nat, readBytes: int, zeroBytes: int)
    requires Validate(p, fileLength) && pageOffset == p.vaddr % 4096
    requires readBytes == if p.filesz > 0 then (pageOffset + p.filesz) % 0x1_0000_0000 else 0
    requires zeroBytes == (RoundUp((pageOffset + p.memsz) % 0x1_0000_0000) - readBytes) % 0x1_0000_0000
    ensures readBytes == if p.filesz > 0 then pageOffset + p.filesz else 0
    ensures zeroBytes >= 0 && readBytes + zeroBytes == 4096 * (EndPage(p) - FirstPage(p))
    ensures 1 <= FirstPage(p) < EndPage(p) <= 0xc_0000
    ensures p.offset - p.offset % 4096 + pageOffset == p.offset
  {
    ValidatedInUserSpace(p, fileLength);
    var x := pageOffset + p.memsz;
    NoWrap(x);
    NoWrap(x + 4095);
    NoWrap(pageOffset + p.filesz);
    PagesSpanned(p.vaddr, p.memsz, FirstPage(p), pageOffset);
    var n := (x + 4095) / 4096;
    assert RoundUp(x) == n * 4096;
    NoWrap(n * 4096 - readBytes);
  }

  // ----- segments in memory

  /** s is page k of a segment whose first readBytes bytes come from the file at ofs, the rest
      being zero. */
  ghost predicate IsSegmentPage(f: seq<byte>, ofs: nat, readBytes: nat, k: nat, s: seq<byte>)
  {
    |s| == 4096 && forall i :: 0 <= i < 4096 ==> s[i] == SegmentByte(f, ofs, readBytes, 4096 * k + i)
  }

  ghost function SegmentByte(f: seq<byte>, ofs: nat, readBytes: nat, x: nat): byte
  {
    if x < readBytes && ofs + x < |f| then f[ofs + x] else 0
  }

  /** Pages [first, first + n) hold the segment data. */
  ghost predicate PagesHold(pages: map<nat, Page>, f: seq<byte>, ofs: nat, readBytes: nat, first: nat, n: nat, w: bool)
  {
    forall p :: first <= p < first + n ==>
      p in pages && IsSegmentPage(f, ofs, readBytes, p - first, pages[p].bytes) && pages[p].writable == w
  }

  /** The segment's memory image: file contents, then zeros, with the requested permission. */
  ghost predicate Loaded(pages: map<nat, Page>, f: seq<byte>, p: Phdr)
  {
    forall a :: p.vaddr <= a < p.vaddr + p.memsz ==> ByteLoaded(pages, f, p, a)
  }

  ghost predicate ByteLoaded(pages: map<nat, Page>, f: seq<byte>, p: Phdr, a: nat)
    requires p.vaddr <= a
  {
    && a / 4096 in pages && |pages[a / 4096].bytes| == 4096 && pages[a / 4096].writable == Writable(p)
    && (if a < p.vaddr + p.filesz
        then p.offset + (a - p.vaddr) < |f| && pages[a / 4096].bytes[a % 4096] == f[p.offset + (a - p.vaddr)]
        else pages[a / 4096].bytes[a % 4096] == 0)
  }

  /** Page contents give the memory image. */
  lemma ImageFromPages(pages: map<nat, Page>, f: seq<byte>, p: Phdr, ofs: nat, readBytes: nat)
    requires Validate(p, |f|) && ofs == p.offset - p.offset % 4096
    requires readBytes == (if p.filesz > 0 then p.vaddr % 4096 + p.filesz else 0) && ofs + readBytes <= |f|
    requires PagesHold(pages, f, ofs, readBytes, FirstPage(p), EndPage(p) - FirstPage(p), Writable(p))
    ensures Loaded(pages, f, p)
  {
    forall a | p.vaddr <= a < p.vaddr + p.memsz
      ensures ByteLoaded(pages, f, p, a)
    {
      var q := a / 4096;
      assert FirstPage(p) <= q < EndPage(p);
      assert IsSegmentPage(f, ofs, readBytes, q - FirstPage(p), pages[q].bytes);
      assert 4096 * (q - FirstPage(p)) + a % 4096 == a - p.vaddr + p.vaddr % 4096;
      assert pages[q].bytes[a % 4096] == SegmentByte(f, ofs, readBytes, a - p.vaddr + p.vaddr % 4096);
    }
  }

  /** No page in [first, end) is mapped. */
  ghost predicate Unmapped(pages: map<nat, Page>, first: nat, end: nat)
  {
    forall p :: first <= p < end ==> p !in pages
  }

  ghost predicate Extends(pages: map<nat, Page>, pages': map<nat, Page>)
  {
    forall p :: p in pages ==> p in pages' && pages'[p] == pages[p]
  }

  lemma LoadedExtends(pages: map<nat, Page>, pages': map<nat, Page>, f: seq<byte>, p: Phdr)
    requires Loaded(pages, f, p) && Extends(pages, pages')
    ensures Loaded(pages', f, p)
  {
    forall a | p.vaddr <= a < p.vaddr + p.memsz
      ensures ByteLoaded(pages', f, p, a)
    {
      assert ByteLoaded(pages, f, p, a);
    }
  }

  // ----- the executable header

  function Ident(): seq<byte> { [127, 69, 76, 70, 1, 1, 1] }

  /** The checks of load on the executable header. */
  predicate HeaderOk(f: seq<byte>)
  {
    && |f| >= 52 && f[..7] == Ident() && U16(f, 16) == 2 && U16(f, 18) == 3 && U32(f, 20) == 1
    && U16(f, 42) == 32 && U16(f, 44) <= 1024
  }

  /** The fields of struct Elf32_Ehdr that matter here. */
  datatype Ehdr = Ehdr(etype: nat, machine: nat, version: uint32, entry: uint32, phoff: uint32, phentsize: nat, phnum: nat)

  predicate FitsEhdr(e: Ehdr) { e.etype < 0x1_0000 && e.machine < 0x1_0000 && e.phentsize < 0x1_0000 && e.phnum < 0x1_0000 }

  /** struct Elf32_Ehdr as it lies in the file: 16 bytes of identification, type, machine, version,
      entry point, offsets of program and section headers, flags, the size of this header, size and
      number of program headers, and three more about section headers. */
  function EhdrBytes(e: Ehdr, ident: seq<byte>, shoff: uint32, flags: uint32, ehsize: seq<byte>, sections: seq<byte>): (b: seq<byte>)
    requires FitsEhdr(e) && |ident| == 16 && |ehsize| == 2 && |sections| == 6
    ensures |b| == 52
  {
    (ident + Bytes16(e.etype) + Bytes16(e.machine) + Bytes32(e.version)) +
    (Bytes32(e.entry) + Bytes32(e.phoff) + Bytes32(shoff) + Bytes32(flags)) +
    (ehsize + Bytes16(e.phentsize) + Bytes16(e.phnum) + sections)
  }

  lemma EhdrSlices(e: Ehdr, ident: seq<byte>, shoff: uint32, flags: uint32, ehsize: seq<byte>, sections: seq<byte>)
    requires FitsEhdr(e) && |ident| == 16 && |ehsize| == 2 && |sections| == 6
    ensures var b := EhdrBytes(e, ident, shoff, flags, ehsize, sections);
            && b[..7] == ident[..7] && b[16..18] == Bytes16(e.etype) && b[18..20] == Bytes16(e.machine) && b[20..24] == Bytes32(e.version)
            && b[24..28] == Bytes32(e.entry) && b[28..32] == Bytes32(e.phoff)
            && b[42..44] == Bytes16(e.phentsize) && b[44..46] == Bytes16(e.phnum)
  {
    var a := ident + Bytes16(e.etype) + Bytes16(e.machine) + Bytes32(e.version);
    var c := Bytes32(e.entry) + Bytes32(e.phoff) + Bytes32(shoff) + Bytes32(flags);
    var d := ehsize + Bytes16(e.phentsize) + Bytes16(e.phnum) + sections;
    var b := EhdrBytes(e, ident, shoff, flags, ehsize, sections);
    assert b[..24] == a && b[24..40] == c && b[40..52] == d;
    assert a[16..18] == Bytes16(e.etype) && a[18..20] == Bytes16(e.machine) && a[20..24] == Bytes32(e.version);
    assert c[0..4] == Bytes32(e.entry) && c[4..8] == Bytes32(e.phoff);
    assert d[2..4] == Bytes16(e.phentsize) && d[4..6] == Bytes16(e.phnum);
    assert b[42..44] == b[40..52][2..4] && b[44..46] == b[40..52][4..6];
    assert b[24..28] == b[24..40][0..4] && b[28..32] == b[24..40][4..8];
  }

  /** Exactly the headers of 32-bit little-endian executables for the 80386 are accepted, and the fields
      that load uses are read from where they were written. */
  lemma EhdrRoundTrip(f: seq<byte>, e: Ehdr, ident: seq<byte>, shoff: uint32, flags: uint32, ehsize: seq<byte>, sections: seq<byte>)
    requires FitsEhdr(e) && |ident| == 16 && |ehsize| == 2 && |sections| == 6
    requires |f| >= 52 && f[..52] == EhdrBytes(e, ident, shoff, flags, ehsize, sections)
    ensures HeaderOk(f) <==> ident[..7] == [127, 69, 76, 70, 1, 1, 1] && e.etype == 2 && e.machine == 3 && e.version == 1
                             && e.phentsize == 32 && e.phnum <= 1024
    ensures HeaderOk(f) ==> PhOff(f) == e.phoff && PhNum(f) == e.phnum && U32(f, 24) == e.entry
  {
    var b := EhdrBytes(e, ident, shoff, flags, ehsize, sections);
    EhdrSlices(e, ident, shoff, flags, ehsize, sections);
    assert f[..7] == f[..52][..7];
    HalfIn(f, b, 16, e.etype);
    HalfIn(f, b, 18, e.machine);
    assert f[0..52] == b;
    WordIn(f, 0, b, 20, e.version);
    WordIn(f, 0, b, 24, e.entry);
    WordIn(f, 0, b, 28, e.phoff);
    HalfIn(f, b, 42, e.phentsize);
    HalfIn(f, b, 44, e.phnum);
  }

  function PhOff(f: seq<byte>): nat
    requires HeaderOk(f)
  {
    U32(f, 28)
  }

  function PhNum(f: seq<byte>): nat
    requires HeaderOk(f)
  {
    U16(f, 44)
  }

  /** p is the file's k-th program header. */
  ghost predicate IsHeader(f: seq<byte>, k: nat, p: Phdr)
    requires HeaderOk(f)
  {
    PhOff(f) + 32 * k + 32 <= |f| && p == PhdrAt(f, PhOff(f) + 32 * k)
  }

  /** hs are the file's first program headers. */
  ghost predicate AreHeaders(f: seq<byte>, hs: seq<Phdr>)
    requires HeaderOk(f)
  {
    forall k :: 0 <= k < |hs| ==> IsHeader(f, k, hs[k])
  }

  /** Records of 32 bytes, one after another. */
  function Table(ts: seq<seq<byte>>): (b: seq<byte>)
    requires forall k :: 0 <= k < |ts| ==> |ts[k]| == 32
    ensures |b| == 32 * |ts|
  {
    if ts == [] then [] else ts[0] + Table(ts[1..])
  }

  lemma {:induction false} TableAt(ts: seq<seq<byte>>, k: nat)
    requires k < |ts| && forall j :: 0 <= j < |ts| ==> |ts[j]| == 32
    ensures Table(ts)[32 * k..32 * k + 32] == ts[k]
    decreases k
  {
    var a, b := ts[0], Table(ts[1..]);
    if k == 0 {
      assert (a + b)[0..32] == a;
    } else {
      TableAt(ts[1..], k - 1);
      assert (a + b)[32..|a + b|] == b;
      SliceOfSlice(a + b, 32, |a + b|, 32 * (k - 1), 32 * k);
    }
  }

  lemma RecordAt(f: seq<byte>, o: nat, ts: seq<seq<byte>>, k: nat)
    requires k < |ts| && (forall j :: 0 <= j < |ts| ==> |ts[j]| == 32) && o + 32 * |ts| <= |f| && f[o..o + 32 * |ts|] == Table(ts)
    ensures o + 32 * k + 32 <= |f| && f[o + 32 * k..o + 32 * k + 32] == ts[k]
  {
    TableAt(ts, k);
    SliceOfSlice(f, o, o + 32 * |ts|, 32 * k, 32 * k + 32);
  }

  /** From a table written where the executable header says, header k is read as it was written. */
  lemma HeaderInTable(f: seq<byte>, ts: seq<seq<byte>>, k: nat, p: Phdr, paddr: uint32, align: uint32)
    requires HeaderOk(f) && (forall j :: 0 <= j < |ts| ==> |ts[j]| == 32) && k < |ts| && ts[k] == PhdrBytes(p, paddr, align)
    requires PhOff(f) + 32 * |ts| <= |f| && f[PhOff(f)..PhOff(f) + 32 * |ts|] == Table(ts)
    ensures IsHeader(f, k, p)
  {
    RecordAt(f, PhOff(f), ts, k);
    PhdrRoundTrip(f, PhOff(f) + 32 * k, p, paddr, align);
  }

  /** What loading the program headers hs has achieved: every PT_LOAD segment is valid, its
      memory image is in place, no two segments share a page, and nothing else is mapped. */
  ghost predicate SegmentsLoaded(pages: map<nat, Page>, f: seq<byte>, hs: seq<Phdr>)
  {
    && (forall i :: 0 <= i < |hs| ==> SegmentLoaded(pages, f, hs[i]))
    && (forall i, j :: 0 <= i < j < |hs| ==> Disjoint(hs[i], hs[j]))
    && OnlySegments(pages, hs)
  }

  ghost predicate SegmentLoaded(pages: map<nat, Page>, f: seq<byte>, p: Phdr)
  {
    && !Refused(p.ptype)
    && (p.ptype == 1 ==> Validate(p, |f|) && Loaded(pages, f, p) && Covers(pages, p))
  }

  ghost predicate OnlySegments(pages: map<nat, Page>, hs: seq<Phdr>)
  {
    forall q :: q in pages ==> InSegment(hs, q)
  }

  ghost predicate InSegment(hs: seq<Phdr>, q: nat)
  {
    exists i :: 0 <= i < |hs| && hs[i].ptype == 1 && Contains(hs[i], q)
  }

  predicate Contains(p: Phdr, q: nat) { FirstPage(p) <= q < EndPage(p) }

  ghost predicate Covers(pages: map<nat, Page>, p: Phdr)
  {
    forall q :: Contains(p, q) ==> q in pages
  }

  /** No page belongs to both, if both are to be loaded. */
  ghost predicate Disjoint(p: Phdr, r: Phdr)
  {
    p.ptype == 1 && r.ptype == 1 ==> forall q :: !(Contains(p, q) && Contains(r, q))
  }

  /** A program header that load can act on when these pages are mapped. */
  ghost predicate HeaderLoadable(pages: map<nat, Page>, f: seq<byte>, p: Phdr)
  {
    && !Refused(p.ptype)
    && (p.ptype == 1 ==> Validate(p, |f|) && p.offset + p.filesz <= |f| && Unmapped(pages, FirstPage(p), EndPage(p)))
  }

  /** A well-formed executable with program headers ps: complete, valid, and with disjoint segments
      that leave the stack page free. */
  ghost predicate Loadable(f: seq<byte>, ps: seq<Phdr>)
  {
    && HeaderOk(f) && |ps| == PhNum(f) && AreHeaders(f, ps) && (ps != [] ==> PhOff(f) < 0x8000_0000)
    && (forall i :: 0 <= i < |ps| ==> SegmentFits(f, ps[i]))
    && (forall i, j :: 0 <= i < j < |ps| ==> Disjoint(ps[i], ps[j]))
  }

  ghost predicate SegmentFits(f: seq<byte>, p: Phdr)
  {
    && !Refused(p.ptype)
    && (p.ptype == 1 ==> Validate(p, |f|) && p.offset + p.filesz <= |f| && !Contains(p, 0xb_ffff))
  }

  /** The segment's bytes are in the file, and its memory starts above page 0, ends below the stack page
      and lies as the file does within its pages. */
  predicate SegmentSound(f: seq<byte>, p: Phdr)
  {
    && (p.vaddr - p.offset) % 4096 == 0 && p.filesz <= p.memsz && p.offset + p.filesz <= |f|
    && 4096 <= p.vaddr && 0 < p.memsz && p.vaddr + p.memsz <= 0xbfff_f000
  }

  /** The last page of one segment comes before the first page of the other. */
  predicate PagesApart(p: Phdr, r: Phdr)
  {
    (p.vaddr + p.memsz - 1) / 4096 < r.vaddr / 4096 || (r.vaddr + r.memsz - 1) / 4096 < p.vaddr / 4096
  }

  lemma SegmentFitsIff(f: seq<byte>, p: Phdr)
    requires |f| < 0x8000_0000
    ensures SegmentFits(f, p) <==> p.ptype !in {2, 3, 5} && (p.ptype == 1 ==> SegmentSound(f, p))
  {
    if p.ptype == 1 { ValidateIff(p, |f|); }
  }

  lemma DisjointIff(p: Phdr, r: Phdr)
    requires p.memsz > 0 && r.memsz > 0
    ensures Disjoint(p, r) <==> (p.ptype == 1 && r.ptype == 1 ==> PagesApart(p, r))
  {
    var i, j := p.vaddr / 4096, r.vaddr / 4096;
    assert Contains(p, i) && Contains(r, j);
    if i <= j { assert Contains(p, j) <==> j <= (p.vaddr + p.memsz - 1) / 4096; }
    if j <= i { assert Contains(r, i) <==> i <= (r.vaddr + r.memsz - 1) / 4096; }
  }

  /** Which executables are loaded when nothing fails, in terms of their headers alone: no dynamic linking,
      interpreter or shared library, sound segments, and no page in two of them. */
  lemma LoadableIff(f: seq<byte>, ps: seq<Phdr>)
    requires |f| < 0x8000_0000 && HeaderOk(f) && |ps| == PhNum(f) && AreHeaders(f, ps)
    ensures Loadable(f, ps) <==>
              && (forall i :: 0 <= i < |ps| ==> ps[i].ptype !in {2, 3, 5} && (ps[i].ptype == 1 ==> SegmentSound(f, ps[i])))
              && (forall i, j :: 0 <= i < j < |ps| && ps[i].ptype == 1 && ps[j].ptype == 1 ==> PagesApart(ps[i], ps[j]))
  {
    if ps != [] { assert IsHeader(f, 0, ps[0]); }
    forall i | 0 <= i < |ps|
      ensures SegmentFits(f, ps[i]) <==> ps[i].ptype !in {2, 3, 5} && (ps[i].ptype == 1 ==> SegmentSound(f, ps[i]))
    {
      SegmentFitsIff(f, ps[i]);
    }
    forall i, j | 0 <= i < j < |ps| && ps[i].memsz > 0 && ps[j].memsz > 0
      ensures Disjoint(ps[i], ps[j]) <==> (ps[i].ptype == 1 && ps[j].ptype == 1 ==> PagesApart(ps[i], ps[j]))
    {
      DisjointIff(ps[i], ps[j]);
    }
    forall i | 0 <= i < |ps| && SegmentFits(f, ps[i]) && ps[i].ptype == 1
      ensures ps[i].memsz > 0
    {
      SegmentFitsIff(f, ps[i]);
    }
  }

  /** The next header of a loadable file can be acted on. */
  lemma NextLoadable(pages: map<nat, Page>, f: seq<byte>, ps: seq<Phdr>, i: nat)
    requires Loadable(f, ps) && i < |ps| && OnlySegments(pages, ps[..i])
    ensures HeaderLoadable(pages, f, ps[i]) && IsHeader(f, i, ps[i])
  {
    assert SegmentFits(f, ps[i]);
    if ps[i].ptype == 1 {
      forall q | FirstPage(ps[i]) <= q < EndPage(ps[i])
        ensures q !in pages
      {
        NotInSegments(ps[..i], ps[i], q);
      }
    }
  }

  lemma NotInSegments(hs: seq<Phdr>, p: Phdr, q: nat)
    requires p.ptype == 1 && Contains(p, q) && forall j :: 0 <= j < |hs| ==> Disjoint(hs[j], p)
    ensures !InSegment(hs, q)
  {
    forall j | 0 <= j < |hs| && hs[j].ptype == 1
      ensures !Contains(hs[j], q)
    {
      assert Disjoint(hs[j], p);
    }
  }

  /** Only loadable files get loaded. */
  lemma LoadedIsLoadable(pages: map<nat, Page>, f: seq<byte>, hs: seq<Phdr>)
    requires HeaderOk(f) && |f| < 0x8000_0000 && |hs| == PhNum(f) && AreHeaders(f, hs)
    requires SegmentsLoaded(pages, f, hs) && 0xb_ffff !in pages
    ensures Loadable(f, hs)
  {
    if hs != [] { assert IsHeader(f, 0, hs[0]); }
    forall i | 0 <= i < |hs|
      ensures SegmentFits(f, hs[i])
    {
      assert SegmentLoaded(pages, f, hs[i]);
      if hs[i].ptype == 1 { LoadedFits(pages, f, hs[i]); }
    }
  }

  lemma LoadedFits(pages: map<nat, Page>, f: seq<byte>, p: Phdr)
    requires Validate(p, |f|) && Loaded(pages, f, p)
    ensures p.offset + p.filesz <= |f|
  {
    if p.filesz > 0 { assert ByteLoaded(pages, f, p, p.vaddr + p.filesz - 1); }
  }

  lemma StackFree(pages: map<nat, Page>, f: seq<byte>, ps: seq<Phdr>)
    requires Loadable(f, ps) && OnlySegments(pages, ps)
    ensures 0xb_ffff !in pages
  {
    forall i | 0 <= i < |ps| && ps[i].ptype == 1
      ensures !Contains(ps[i], 0xb_ffff)
    {
      assert SegmentFits(f, ps[i]);
    }
    assert !InSegment(ps, 0xb_ffff);
  }

  /** PT_DYNAMIC, PT_INTERP and PT_SHLIB make load give up. */
  predicate Refused(ptype: nat) { ptype == 2 || ptype == 3 || ptype == 5 }

  lemma SegmentLoadedExtends(pages: map<nat, Page>, pages': map<nat, Page>, f: seq<byte>, p: Phdr)
    requires SegmentLoaded(pages, f, p) && Extends(pages, pages')
    ensures SegmentLoaded(pages', f, p)
  {
    if p.ptype == 1 {
      LoadedExtends(pages, pages', f, p);
      assert Covers(pages, p);
    }
  }

  lemma InMoreSegments(hs: seq<Phdr>, p: Phdr, q: nat)
    requires InSegment(hs, q) || (p.ptype == 1 && Contains(p, q))
    ensures InSegment(hs + [p], q)
  {
    if InSegment(hs, q) {
      var i :| 0 <= i < |hs| && hs[i].ptype == 1 && Contains(hs[i], q);
      assert (hs + [p])[i] == hs[i];
    } else {
      assert (hs + [p])[|hs|] == p;
    }
  }

  /** One more program header. A segment's pages are new, so it overlaps no earlier one. */
  lemma SegmentAdded(pages: map<nat, Page>, pages': map<nat, Page>, f: seq<byte>, hs: seq<Phdr>, p: Phdr)
    requires SegmentsLoaded(pages, f, hs) && SegmentLoaded(pages', f, p) && Extends(pages, pages')
    requires p.ptype == 1 ==> forall q :: Contains(p, q) ==> q !in pages
    requires forall q :: q in pages' ==> q in pages || (p.ptype == 1 && Contains(p, q))
    ensures SegmentsLoaded(pages', f, hs + [p])
  {
    var hs' := hs + [p];
    forall i | 0 <= i < |hs'|
      ensures SegmentLoaded(pages', f, hs'[i])
    {
      if i < |hs| { SegmentLoadedExtends(pages, pages', f, hs[i]); }
    }
    forall i, j | 0 <= i < j < |hs'|
      ensures Disjoint(hs'[i], hs'[j])
    {
      if j == |hs| { assert SegmentLoaded(pages, f, hs[i]); }
    }
    forall q | q in pages'
      ensures InSegment(hs', q)
    {
      InMoreSegments(hs, p, q);
    }
  }

  /** hs are the program headers before file offset fileOfs, which is negative when e_phoff is not
      an offset. */
  ghost predicate HeadersRead(f: seq<byte>, ps: seq<Phdr>, hs: seq<Phdr>, fileOfs: int)
    requires HeaderOk(f)
  {
    && AreHeaders(f, hs) && (hs == [] || fileOfs >= 0) && (PhOff(f) < 0x8000_0000 ==> fileOfs >= 0)
    && (fileOfs >= 0 ==> fileOfs == PhOff(f) + 32 * |hs|)
    && (Loadable(f, ps) ==> |hs| <= |ps| && hs == ps[..|hs|])
  }

  lemma NextRead(f: seq<byte>, ps: seq<Phdr>, hs: seq<Phdr>, fileOfs: int, p: Phdr)
    requires HeaderOk(f) && HeadersRead(f, ps, hs, fileOfs) && |hs| < PhNum(f)
    requires 0 <= fileOfs && fileOfs + 32 <= |f| && p == PhdrAt(f, fileOfs)
    ensures HeadersRead(f, ps, hs + [p], fileOfs + 32)
  {
    assert IsHeader(f, |hs|, p);
    if Loadable(f, ps) {
      assert IsHeader(f, |hs|, ps[|hs|]);
      assert ps[..|hs| + 1] == ps[..|hs|] + [p];
    }
  }

  /** How many bytes are still to be read when k pages are done. */
  function BytesLeft(readBytes: nat, k: nat): nat { if readBytes < 4096 * k then 0 else readBytes - 4096 * k }

  /** How many bytes of page k are read from the file. */
  function PageBytes(readBytes: nat, k: nat): nat
  {
    if BytesLeft(readBytes, k) < 4096 then BytesLeft(readBytes, k) else 4096
  }

  /** The first k pages of a segment have been added to the pages before. */
  ghost predicate SegmentSoFar(before: map<nat, Page>, pages: map<nat, Page>, f: seq<byte>, ofs: nat, readBytes: nat, first: nat, k: nat, w: bool)
  {
    && Extends(before, pages) && PagesHold(pages, f, ofs, readBytes, first, k, w) && Unmapped(before, first, first + k)
    && (forall p :: p in pages ==> p in before || first <= p < first + k)
  }

  lemma SegmentGrows(before: map<nat, Page>, pages: map<nat, Page>, f: seq<byte>, ofs: nat, readBytes: nat, first: nat, k: nat, w: bool, bytes: seq<byte>)
    requires SegmentSoFar(before, pages, f, ofs, readBytes, first, k, w) && first + k !in pages && IsSegmentPage(f, ofs, readBytes, k, bytes)
    ensures SegmentSoFar(before, pages[first + k := Page(bytes, w)], f, ofs, readBytes, first, k + 1, w)
  {
  }

  /** A process being loaded. pages is the user memory that its page tables and frames make up. */
  class Process {
    const space: AddressSpace
    const dir: Frame                        // the page of the page directory
    var contents: map<Frame, seq<byte>>     // the user frames, and what they hold
    var used: set<Frame>                    // the pages that palloc has given out
    var calls: nat
    const palloc: nat -> Option<Frame>      // the page that palloc finds for the n-th request
    const fileOk: nat -> bool               // does the n-th file operation succeed?
    ghost const others: set<Frame>          // the pages of the rest of the system
    ghost var pages: map<nat, Page>
    ghost var failed: bool                  // has an allocation or a file operation failed?

    /** Every user frame but the one that is loose, if any, is mapped. */
    ghost predicate ValidBut(loose: Option<Frame>)
      reads this, space
    {
      && space.Valid() && FramesOk(space.Pd(), space.Tables(), contents, used, others, dir)
      && PagesAre(space.Pd(), space.Tables(), contents, pages) && AllMappedBut(space.Pd(), space.Tables(), contents, loose)
      && (loose.Some? ==> loose.value in contents && forall va :: !Mapped(space.Pd(), space.Tables(), va, loose.value))
    }

    ghost predicate Valid()
      reads this, space
    {
      ValidBut(None)
    }

    /** A process with an empty page directory. */
    constructor (space: AddressSpace, dir: Frame, used: set<Frame>, palloc: nat -> Option<Frame>, fileOk: nat -> bool)
      requires space.Valid() && forall i :: 0 <= i < 768 ==> space.pd[i] == 0
      requires dir !in space.tables && dir !in used && forall f :: f in space.tables ==> f in used
      ensures Valid() && pages == map[] && !failed && this.space == space && others == used
    {
      ZeroWord(0);
      NothingMapped(space.Pd(), space.Tables(), used + {dir}, used, dir);
      this.space, this.dir, this.used, contents := space, dir, used + {dir}, map[];
      this.palloc, this.fileOk, calls := palloc, fileOk, 0;
      others, pages, failed := used, map[], false;
    }

    /** Does an operation on the file get the memory it needs? */
    method Succeeds() returns (ok: bool)
      modifies this`calls, this`failed
      ensures ok == fileOk(old(calls)) && failed == (old(failed) || !ok)
    {
      ok := fileOk(calls);
      calls := calls + 1;
      failed := failed || !ok;
    }

    /** palloc_get_page: a page that is not in use. */
    method GetPage() returns (r: Option<Frame>)
      modifies this`calls, this`failed
      ensures failed == (old(failed) || r.None?) && (r.Some? ==> r.value !in used)
    {
      r := palloc(calls);
      if r.Some? && r.value in used {
        r := None;
      }
      calls := calls + 1;
      failed := failed || r.None?;
    }

    /** Takes a page that palloc found, and fills it. */
    method FillPage(frame: Frame, bytes: seq<byte>)
      requires Valid() && frame !in used
      modifies this`contents, this`used
      ensures ValidBut(Some(frame)) && contents[frame] == bytes
    {
      FrameFilled(space.Pd(), space.Tables(), contents, used, others, dir, frame, bytes);
      PagesAgree(space.Pd(), space.Tables(), contents, contents[frame := bytes], pages, frame);
      contents := contents[frame := bytes];
      used := used + {frame};
    }

    /** palloc_free_page */
    method FreePage(frame: Frame)
      requires ValidBut(Some(frame))
      modifies this`contents, this`used
      ensures Valid()
    {
      FrameDropped(space.Pd(), space.Tables(), contents, used, others, dir, frame);
      PagesAgree(space.Pd(), space.Tables(), contents, contents - {frame}, pages, frame);
      contents := contents - {frame};
      used := used - {frame};
    }

    /** install_page: refuses a page that is already mapped. A page table is made when needed. */
    method InstallPage(upage: nat, frame: Frame, writable: bool) returns (ok: bool)
      requires ValidBut(Some(frame)) && upage % 4096 == 0 && upage < 0xc000_0000
      modifies this`calls, this`failed, this`used, this`pages, space
      ensures old(failed) ==> failed
      ensures ok ==> Valid() && upage / 4096 !in old(pages) && pages == old(pages)[upage / 4096 := Page(contents[frame], writable)]
      ensures !ok ==> ValidBut(Some(frame)) && pages == old(pages)
      ensures !failed && upage / 4096 !in old(pages) ==> ok
    {
      PresentIsMapped(space.Pd(), space.Tables(), contents, pages, upage);
      var mapped := space.GetPage(upage);
      if mapped.Some? {
        return false;
      }
      ok := MapPage(upage, frame, writable);
    }

    /** pagedir_set_page, with a page for a page table if there is none. */
    method MapPage(upage: nat, frame: Frame, writable: bool) returns (ok: bool)
      requires ValidBut(Some(frame)) && upage % 4096 == 0 && upage < 0xc000_0000 && !space.At(upage).Present()
      modifies this`calls, this`failed, this`used, this`pages, space
      ensures old(failed) ==> failed
      ensures ok ==> Valid() && pages == old(pages)[upage / 4096 := Page(contents[frame], writable)]
      ensures !ok ==> ValidBut(Some(frame)) && pages == old(pages) && failed
    {
      ghost var pd, tables := space.Pd(), space.Tables();
      var page := None;
      ZeroWord(space.pd[PdNo(upage)]);
      if space.pd[PdNo(upage)] == 0 {
        page := GetPage();
      }
      ok := SetPage(upage, frame, writable, page);
      if ok {
        PageMapped(pd, tables, space.Pd(), space.Tables(), contents, used, others, dir, upage, frame, writable, page);
        PageAdded(pd, tables, space.Pd(), space.Tables(), contents, pages, upage, frame, writable);
        if page.Some? {
          used := used + {page.value};
        }
        pages := pages[upage / 4096 := Page(contents[frame], writable)];
      }
    }

    method SetPage(upage: nat, frame: Frame, writable: bool, page: Option<Frame>) returns (ok: bool)
      requires space.Valid() && upage % 4096 == 0 && upage < 0xc000_0000 && !space.At(upage).Present()
      requires page.Some? ==> page.value !in space.tables
      modifies space
      ensures space.Valid() && (!ok <==> !old(space.HasTable(upage)) && page.None?)
      ensures !ok ==> space.pd == old(space.pd) && space.tables == old(space.tables)
      ensures ok ==> Remapped(old(space.Pd()), old(space.Tables()), space.Pd(), space.Tables(), upage, frame, writable)
      ensures TablesGrew(old(space.Pd()), old(space.tables.Keys), space.Pd(), space.tables.Keys, page)
      ensures ok && page.Some? && !old(space.HasTable(upage)) ==> page.value in space.tables
    {
      ok := space.SetPage(upage, frame, writable, page);
      if ok {
        forall u | 0 <= u < 0x1_0000_0000
          ensures EntryAt(space.Pd(), space.Tables(), u) == if u / 4096 == upage / 4096 then PageEntry(frame, writable) else old(space.At(u))
        {
          assert space.At(u) == if u / 4096 == upage / 4096 then PageEntry(frame, writable) else old(space.At(u));
        }
      }
    }

    /** file_seek and file_read of n bytes at pos, which give what FileSystem.SeekAndRead does. */
    method FileRead(f: seq<byte>, pos: nat, n: nat) returns (got: seq<byte>)
      requires n <= 4096
      modifies this`calls, this`failed
      ensures Gives(f, pos, n, fileOk(old(calls)), got)
      ensures |got| <= n && (!failed && pos + n <= |f| ==> |got| == n)
      ensures old(failed) ==> failed
    {
      var ok := Succeeds();
      var len := Transfer(n, pos, |f|, ok);
      got := if len == 0 then [] else f[pos..pos + len];
    }

    /** One turn of the loop in load_segment: a page with n bytes of the file and then zeros. */
    method LoadPage(f: seq<byte>, pos: nat, n: nat, upage: nat, writable: bool) returns (ok: bool, ghost got: seq<byte>)
      requires Valid() && n <= 4096 && upage % 4096 == 0 && upage < 0xc000_0000
      modifies this, space
      ensures Valid() && (old(failed) ==> failed)
      ensures ok ==> |got| == n && (n > 0 ==> pos + n <= |f| && got == f[pos..pos + n])
      ensures ok ==> upage / 4096 !in old(pages) && pages == old(pages)[upage / 4096 := Page(got + seq(4096 - n, _ => 0), writable)]
      ensures !ok ==> pages == old(pages)
      ensures !failed && pos + n <= |f| && upage / 4096 !in old(pages) ==> ok
    {
      got := [];
      var kpage := GetPage();
      if kpage.None? {
        return false, got;
      }
      var bytes := FileRead(f, pos, n);
      got := bytes;
      if |bytes| != n {
        return false, got;
      }
      ok := NewPage(upage, kpage.value, bytes + seq(4096 - n, _ => 0), writable);
    }

    /** install_page of a page just filled; if that fails it is given back. */
    method NewPage(upage: nat, kpage: Frame, bytes: seq<byte>, writable: bool) returns (ok: bool)
      requires Valid() && kpage !in used && upage % 4096 == 0 && upage < 0xc000_0000
      modifies this, space
      ensures Valid() && (old(failed) ==> failed)
      ensures ok ==> upage / 4096 !in old(pages) && pages == old(pages)[upage / 4096 := Page(bytes, writable)]
      ensures !ok ==> pages == old(pages)
      ensures !failed && upage / 4096 !in old(pages) ==> ok
    {
      FillPage(kpage, bytes);
      ok := InstallPage(upage, kpage, writable);
      if !ok {
        FreePage(kpage);
      }
    }

    /** Page k of a segment that is read from ofs on. */
    method LoadSegmentPage(f: seq<byte>, ghost ofs: nat, ghost readBytes: nat, ghost first: nat, ghost k: nat, ghost before: map<nat, Page>,
                           pos: nat, n: nat, upage: nat, writable: bool) returns (ok: bool)
      requires Valid() && upage == 4096 * (first + k) && upage < 0xc000_0000
      requires n == PageBytes(readBytes, k) && (n > 0 ==> pos == ofs + 4096 * k)
      requires SegmentSoFar(before, pages, f, ofs, readBytes, first, k, writable)
      modifies this, space
      ensures Valid() && (old(failed) ==> failed) && Extends(before, pages)
      ensures ok ==> SegmentSoFar(before, pages, f, ofs, readBytes, first, k + 1, writable)
      ensures ok && n > 0 ==> pos + n <= |f|
      ensures !failed && pos + n <= |f| && first + k !in before ==> ok
    {
      ghost var got;
      assert upage / 4096 == first + k;
      ok, got := LoadPage(f, pos, n, upage, writable);
      if ok {
        PageIsSegmentPage(f, ofs, readBytes, k, pos, got, got + seq(4096 - n, _ => 0));
        SegmentGrows(before, old(pages), f, ofs, readBytes, first, k, writable, got + seq(4096 - n, _ => 0));
      }
    }

    /** load_segment */
    method LoadSegment(f: seq<byte>, ofs: nat, upage0: nat, readBytes0: nat, zeroBytes0: nat, writable: bool) returns (ok: bool)
      requires (readBytes0 + zeroBytes0) % 4096 == 0 && upage0 % 4096 == 0 && ofs % 4096 == 0
      requires upage0 + readBytes0 + zeroBytes0 <= 0xc000_0000 && ofs <= |f| && Valid()
      modifies this, space
      ensures Valid() && (old(failed) ==> failed) && Extends(old(pages), pages)
      ensures ok ==> ofs + readBytes0 <= |f|
      ensures ok ==> SegmentSoFar(old(pages), pages, f, ofs, readBytes0, upage0 / 4096, (readBytes0 + zeroBytes0) / 4096, writable)
      ensures var first := upage0 / 4096;
              !failed && ofs + readBytes0 <= |f| && Unmapped(old(pages), first, first + (readBytes0 + zeroBytes0) / 4096) ==> ok
    {
      var readBytes, zeroBytes, upage, pos := readBytes0, zeroBytes0, upage0, ofs;
      ghost var k, n, first := 0, (readBytes0 + zeroBytes0) / 4096, upage0 / 4096;
      while readBytes > 0 || zeroBytes > 0
        invariant 0 <= k <= n && upage == 4096 * (first + k) && readBytes + zeroBytes == 4096 * (n - k)
        invariant readBytes == BytesLeft(readBytes0, k) && zeroBytes >= 0
        invariant pos == ofs + readBytes0 - readBytes && pos <= |f|
        invariant Valid() && (old(failed) ==> failed)
        invariant SegmentSoFar(old(pages), pages, f, ofs, readBytes0, first, k, writable)
        decreases n - k
      {
        var pageReadBytes := if readBytes < 4096 then readBytes else 4096;
        var pageZeroBytes := 4096 - pageReadBytes;
        ok := LoadSegmentPage(f, ofs, readBytes0, first, k, old(pages), pos, pageReadBytes, upage, writable);
        if !ok {
          return false;
        }
        readBytes, zeroBytes := readBytes - pageReadBytes, zeroBytes - pageZeroBytes;
        upage, pos := upage + 4096, pos + pageReadBytes;
        k := k + 1;
      }
      ok := true;
    }

    /** The byte counts that load passes to load_segment. */
    method SegmentSizes(p: Phdr, ghost fileLength: nat) returns (readBytes: nat, zeroBytes: nat)
      requires Validate(p, fileLength)
      ensures readBytes == (if p.filesz > 0 then p.vaddr % 4096 + p.filesz else 0)
      ensures readBytes + zeroBytes == 4096 * (EndPage(p) - FirstPage(p)) && 1 <= FirstPage(p) < EndPage(p) <= 0xc_0000
    {
      var pageOffset := p.vaddr % 4096;
      if p.filesz > 0 {
        readBytes := (pageOffset + p.filesz) % 0x1_0000_0000;
        zeroBytes := (RoundUp((pageOffset + p.memsz) % 0x1_0000_0000) - readBytes) % 0x1_0000_0000;
      } else {
        readBytes := 0;
        zeroBytes := RoundUp((pageOffset + p.memsz) % 0x1_0000_0000);
      }
      SegmentArithmetic(p, fileLength, pageOffset, readBytes, zeroBytes);
    }

    /** The PT_LOAD case of load. */
    method LoadHeader(f: seq<byte>, p: Phdr) returns (ok: bool)
      requires |f| < 0x8000_0000 && Valid()
      modifies this, space
      ensures Valid() && (old(failed) ==> failed) && Extends(old(pages), pages)
      ensures ok ==> Validate(p, |f|) && Loaded(pages, f, p) && Covers(pages, p)
      ensures ok ==> forall q :: Contains(p, q) ==> q !in old(pages)
      ensures ok ==> forall q :: q in pages ==> q in old(pages) || Contains(p, q)
      ensures !failed && Validate(p, |f|) && p.offset + p.filesz <= |f| && Unmapped(old(pages), FirstPage(p), EndPage(p)) ==> ok
    {
      if !Validate(p, |f|) {
        return false;
      }
      var writable := Writable(p);
      var filePage := p.offset - p.offset % 4096;
      var memPage := p.vaddr - p.vaddr % 4096;
      var readBytes, zeroBytes := SegmentSizes(p, |f|);
      assert memPage == 4096 * FirstPage(p);
      assert (readBytes + zeroBytes) / 4096 == EndPage(p) - FirstPage(p);
      ok := LoadSegment(f, filePage, memPage, readBytes, zeroBytes, writable);
      if ok {
        ImageFromPages(pages, f, p, filePage, readBytes);
      }
    }

    /** The loop body of load: reads one program header and acts on it. */
    method LoadNext(f: seq<byte>, fileOfs: int, ghost hs: seq<Phdr>) returns (ok: bool, ghost p: Phdr)
      requires |f| < 0x8000_0000 && SegmentsLoaded(pages, f, hs) && Valid()
      modifies this, space
      ensures Valid() && (old(failed) ==> failed)
      ensures ok ==> 0 <= fileOfs && fileOfs + 32 <= |f| && p == PhdrAt(f, fileOfs) && SegmentsLoaded(pages, f, hs + [p])
      ensures !failed && 0 <= fileOfs && fileOfs + 32 <= |f| && HeaderLoadable(old(pages), f, PhdrAt(f, fileOfs)) ==> ok
    {
      p := Phdr(0, 0, 0, 0, 0, 0);
      if fileOfs < 0 || fileOfs > |f| {
        return false, p;
      }
      var readOk := Succeeds();
      if !readOk || fileOfs + 32 > |f| {
        return false, p;
      }
      var phdr := PhdrAt(f, fileOfs);
      p := phdr;
      if Refused(phdr.ptype) {
        return false, p;
      }
      ok := true;
      ghost var before := pages;
      if phdr.ptype == 1 {
        ok := LoadHeader(f, phdr);
      }
      if ok { SegmentAdded(before, pages, f, hs, p); }
    }

    /** setup_stack: a zeroed page at the top of user memory. */
    method SetupStack() returns (ok: bool, esp: nat)
      requires Valid()
      modifies this, space
      ensures Valid() && (old(failed) ==> failed)
      ensures ok ==> esp == 0xc000_0000
      ensures ok ==> 0xb_ffff !in old(pages) && pages == old(pages)[0xb_ffff := Page(seq(4096, _ => 0), true)]
      ensures !failed && 0xb_ffff !in old(pages) ==> ok
    {
      ok, esp := false, 0;
      var kpage := GetPage();
      if kpage.Some? {
        ok := NewPage(0xbfff_f000, kpage.value, seq(4096, _ => 0), true);
        if ok {
          esp := 0xc000_0000;
        }
      }
    }

    /** The loop body of load, on header |hs|. */
    method LoadEntry(f: seq<byte>, fileOfs: int, ghost ps: seq<Phdr>, ghost hs: seq<Phdr>) returns (ok: bool, ghost p: Phdr)
      requires |f| < 0x8000_0000 && HeaderOk(f) && |hs| < PhNum(f) && Valid()
      requires SegmentsLoaded(pages, f, hs) && HeadersRead(f, ps, hs, fileOfs)
      modifies this, space
      ensures Valid() && (old(failed) ==> failed)
      ensures ok ==> SegmentsLoaded(pages, f, hs + [p]) && HeadersRead(f, ps, hs + [p], fileOfs + 32)
      ensures !failed && Loadable(f, ps) ==> ok
    {
      if Loadable(f, ps) {
        NextLoadable(pages, f, ps, |hs|);
        assert PhdrAt(f, fileOfs) == ps[|hs|];
      }
      ok, p := LoadNext(f, fileOfs, hs);
      if ok { NextRead(f, ps, hs, fileOfs, p); }
    }

    /** The loop of load over the program headers. */
    method LoadHeaders(f: seq<byte>, ghost ps: seq<Phdr>) returns (ok: bool, ghost hs: seq<Phdr>)
      requires |f| < 0x8000_0000 && HeaderOk(f) && pages == map[] && Valid()
      modifies this, space
      ensures Valid() && (old(failed) ==> failed)
      ensures ok ==> |hs| == PhNum(f) && AreHeaders(f, hs) && SegmentsLoaded(pages, f, hs)
      ensures ok && Loadable(f, ps) ==> hs == ps
      ensures !failed && Loadable(f, ps) ==> ok
    {
      hs := [];
      var fileOfs: int := if PhOff(f) < 0x8000_0000 then PhOff(f) else PhOff(f) - 0x1_0000_0000;
      var i := 0;
      while i < PhNum(f)
        invariant |hs| == i <= PhNum(f) && SegmentsLoaded(pages, f, hs) && HeadersRead(f, ps, hs, fileOfs)
        invariant Valid() && (old(failed) ==> failed)
      {
        ghost var p;
        ok, p := LoadEntry(f, fileOfs, ps, hs);
        if !ok {
          return false, hs;
        }
        hs := hs + [p];
        fileOfs := fileOfs + 32;
        i := i + 1;
      }
      ok := true;
    }

    /** The end of load. */
    method AddStack(f: seq<byte>, ghost ps: seq<Phdr>, ghost hs: seq<Phdr>) returns (ok: bool, esp: nat)
      requires |f| < 0x8000_0000 && Valid() && HeaderOk(f) && |hs| == PhNum(f) && AreHeaders(f, hs)
      requires SegmentsLoaded(pages, f, hs) && (Loadable(f, ps) ==> hs == ps)
      modifies this, space
      ensures Valid()
      ensures ok ==> SegmentsLoaded(pages - {0xb_ffff}, f, hs) && Loadable(f, hs) && esp == 0xc000_0000
      ensures ok ==> 0xb_ffff in pages && pages[0xb_ffff] == Page(seq(4096, _ => 0), true)
      ensures ok ==> forall q :: q in pages ==> 1 <= q < 0xc_0000
      ensures !failed && Loadable(f, ps) ==> ok
    {
      PagesInUserSpace(pages, f, hs);
      if Loadable(f, ps) {
        StackFree(pages, f, ps);
      }
      ok, esp := SetupStack();
      if ok {
        assert pages - {0xb_ffff} == old(pages);
        LoadedIsLoadable(old(pages), f, hs);
      }
    }

    /** load: on success the program headers hs have all been acted on, every PT_LOAD segment is
        in memory as its header says, segments and the zeroed stack page are disjoint, above page
        0 and below PHYS_BASE, nothing else is mapped, and execution starts at the header's entry
        point with the stack at the top of user memory. Only loadable files are loaded, and they
        are unless an allocation or a file operation fails. */
    method Load(f: seq<byte>, ghost ps: seq<Phdr>) returns (ok: bool, eip: uint32, esp: nat, ghost hs: seq<Phdr>)
      requires |f| < 0x8000_0000 && pages == map[] && Valid()
      modifies this, space
      ensures Valid()
      ensures ok ==> HeaderOk(f) && |hs| == PhNum(f) && AreHeaders(f, hs)
      ensures ok ==> SegmentsLoaded(pages - {0xb_ffff}, f, hs)
      ensures ok ==> 0xb_ffff in pages && pages[0xb_ffff] == Page(seq(4096, _ => 0), true)
      ensures ok ==> forall q :: q in pages ==> 1 <= q < 0xc_0000
      ensures ok ==> Loadable(f, hs) && eip == U32(f, 24) && esp == 0xc000_0000
      ensures !failed && Loadable(f, ps) ==> ok
    {
      eip, esp, hs := 0, 0, [];
      ok := Succeeds();                   // filesys_open
      if !ok {
        return;
      }
      var ehdr := FileRead(f, 0, 52);
      if |ehdr| != 52 || !HeaderOk(f) {
        ok := false;
        return;
      }
      ok, hs := LoadHeaders(f, ps);
      if !ok {
        return;
      }
      ok, esp := AddStack(f, ps, hs);
      eip := U32(f, 24);
    }

    /** process_exit: pagedir_destroy gives back, once each, exactly the pages that the process has
        taken, whether or not load was successful. */
    method Exit() returns (freed: seq<Frame>)
      requires Valid()
      modifies this`used
      ensures NoDup(freed) && (forall f :: f in freed <==> f in old(used) && f !in others) && used == others
    {
      freed := space.Destroy(dir);
      FramesSeparate(space.Pd(), space.Tables(), contents, used, others, dir);
      forall f
        ensures f in freed <==> f in used && f !in others
      {
        FreedIsUsed(space.Pd(), space.Tables(), contents, used, others, dir, f);
      }
      used := used - (set f | f in freed);
    }
  }

  /** load from pagedir_create on: the first page that palloc finds becomes the page directory, with
      the kernel half of the initial one. Without it there is no process. */
  method LoadExecutable(initial: seq<bv32>, kernelTables: map<Frame, seq<bv32>>, used: set<Frame>,
                        palloc: nat -> Option<Frame>, fileOk: nat -> bool, f: seq<byte>, ghost ps: seq<Phdr>)
    returns (t: Process?, ok: bool, eip: uint32, esp: nat, ghost hs: seq<Phdr>)
    requires WellFormed(Entries(initial), TableEntries(kernelTables)) && forall i :: 0 <= i < 768 ==> initial[i] == 0
    requires (forall k :: k in kernelTables ==> k in used) && |f| < 0x8000_0000
    ensures t == null <==> palloc(0).None? || palloc(0).value in used
    ensures t == null ==> !ok
    ensures t != null ==> t.Valid() && t.others == used
    ensures ok ==> HeaderOk(f) && |hs| == PhNum(f) && AreHeaders(f, hs) && SegmentsLoaded(t.pages - {0xb_ffff}, f, hs)
    ensures ok ==> 0xb_ffff in t.pages && t.pages[0xb_ffff] == Page(seq(4096, _ => 0), true)
    ensures ok ==> Loadable(f, hs) && eip == U32(f, 24) && esp == 0xc000_0000
    ensures Loadable(f, ps) && t != null && !t.failed ==> ok
  {
    t, ok, eip, esp, hs := null, false, 0, 0, [];
    var dir := palloc(0);
    if dir.Some? && dir.value !in used {
      var space := new AddressSpace(initial, kernelTables);
      t := new Process(space, dir.value, used, (n: nat) => palloc(n + 1), fileOk);
      ok, eip, esp, hs := t.Load(f, ps);
    }
  }

  lemma PagesInUserSpace(pages: map<nat, Page>, f: seq<byte>, hs: seq<Phdr>)
    requires SegmentsLoaded(pages, f, hs)
    ensures forall q :: q in pages ==> 1 <= q < 0xc_0000
  {
    forall q | q in pages
      ensures 1 <= q < 0xc_0000
    {
      assert InSegment(hs, q);
      var i :| 0 <= i < |hs| && hs[i].ptype == 1 && Contains(hs[i], q);
      assert SegmentLoaded(pages, f, hs[i]);
      ValidatedInUserSpace(hs[i], |f|);
    }
  }

  lemma PageIsSegmentPage(f: seq<byte>, ofs: nat, readBytes: nat, k: nat, pos: nat, got: seq<byte>, s: seq<byte>)
    requires |got| == PageBytes(readBytes, k)
    requires |got| > 0 ==> pos == ofs + 4096 * k && pos + |got| <= |f| && got == f[pos..pos + |got|]
    requires s == got + seq(4096 - |got|, _ => 0)
    ensures IsSegmentPage(f, ofs, readBytes, k, s)
  {
  }
}
