/** What the calls of the file system find and do, on values: when they succeed, what they change,
    and what that means over whole runs. */
module FileSysCalls {
  import opened Wrappers
  import opened Bytes
  import opened Bitmap
  import opened InodeData
  import opened Directory
  import opened FileSysState

  // ----- what a call finds

  /** Which of a call's memory allocations succeed, and for how many entry reads memory lasts. */
  datatype Memory = Memory(
    inode: bool,                  // the root directory's struct inode
    dir: bool,                    // struct dir
    target: bool,                 // the struct inode of the file named
    file: bool,                   // struct file
    header: bool,                 // struct inode_disk
    lookup: nat,
    search: nat,
    write: bool,                  // the bounce buffer for writing an entry
    bounces: nat -> bool          // bounce buffers for writing the free map, in turn
  )

  /** Memory for everything but the entry reads and the free map. */
  predicate Ample(m: Memory)
  {
    m.inode && m.dir && m.target && m.file && m.header && m.write
  }

  /** Memory for everything but the entry reads. */
  ghost predicate Generous(m: Memory) { Ample(m) && forall n :: m.bounces(n) }

  /** Memory lasts for reading the whole directory, for lookup and for the free slot. */
  predicate ReadsAll(m: Memory) { m.lookup >= 16 && m.search >= 16 }

  // ----- writing files

  lemma WrittenMore(d0: seq<Sector>, d1: seq<Sector>, d2: seq<Sector>, start: nat, off: nat, buffer: seq<byte>, n: nat, m: nat)
    requires n + m <= |buffer| && Written(d0, d1, start, off, buffer[..n]) && Written(d1, d2, start, off + n, buffer[n..n + m])
    ensures Written(d0, d2, start, off, buffer[..n + m])
  {
    WrittenTwice(d0, d1, d2, start, off, buffer[..n], buffer[n..n + m]);
    assert buffer[..n] + buffer[n..n + m] == buffer[..n + m];
  }

  lemma NothingWritten(disk: seq<Sector>, disk': seq<Sector>, start: nat, off: nat, data: seq<byte>)
    requires Written(disk, disk', start, off, data) && data == []
    ensures disk' == disk
  {
    forall s | 0 <= s < |disk|
      ensures disk'[s] == disk[s]
    {
      assert SectorWritten(disk[s], disk'[s], 512 * (s - start), off, data);
    }
  }

  // ----- the free map file

  /** The free map file holds these words. */
  ghost predicate FreeMapSaved(disk: seq<Sector>, words: seq<Word>)
  {
    && |disk| > 0 && OnDisk(|disk|, Header(disk[0])) && 4 * |words| <= Header(disk[0]).length
    && Contents(disk, Header(disk[0]))[..4 * |words|] == FileBytes(words)
  }

  /** The number of bitmap words for n sectors. */
  function WordCount(n: nat): nat { (n + 31) / 32 }

  /** The free map file holds the map that marks these sectors. */
  ghost predicate MapSaved(disk: seq<Sector>, marked: seq<bool>)
  {
    exists words :: SavedAs(disk, marked, words)
  }

  ghost predicate SavedAs(disk: seq<Sector>, marked: seq<bool>, words: seq<Word>)
  {
    |words| == WordCount(|marked|) && marked == BitsOf(words, |marked|) && FreeMapSaved(disk, words)
  }

  lemma SavedKept(disk: seq<Sector>, disk': seq<Sector>, marked: seq<bool>, owner: Owner, fs: set<nat>, marked': seq<bool>)
    requires Owned(disk, marked, owner) && OnlyData(disk, disk', owner, fs) && Head(owner, 0) && 0 !in fs && MapSaved(disk, marked')
    ensures MapSaved(disk', marked')
  {
    var words :| SavedAs(disk, marked', words);
    FileKept(disk, disk', marked, owner, fs, 0);
    assert SavedAs(disk', marked', words);
  }

  /** Would writing size bytes to the free map file succeed? */
  ghost predicate CanSave(file: Option<nat>, inodes: map<nat, Inode>, handles: map<nat, Handle>, size: nat, bounceOk: bool)
  {
    file.None? ||
    (&& FreeMapFileOk(file, inodes, handles)
     && var x := inodes[handles[file.value].inode];
        x.denyWriteCnt == 0 && Transfer(size, 0, x.data.length, bounceOk) == size)
  }

  /** Would all writes of the free map in a call with this memory succeed? */
  ghost predicate CanSaveAll(file: Option<nat>, inodes: map<nat, Inode>, handles: map<nat, Handle>, size: nat, m: Memory)
  {
    && CanSave(file, inodes, handles, size, m.bounces(0)) && CanSave(file, inodes, handles, size, m.bounces(1))
    && CanSave(file, inodes, handles, size, m.bounces(2))
  }

  /** If the map was saved before, it is saved after. */
  ghost predicate KeepsSaved(disk: seq<Sector>, marked: seq<bool>, disk': seq<Sector>, marked': seq<bool>)
  {
    MapSaved(disk, marked) ==> MapSaved(disk', marked')
  }

  /** The free map can be saved when nobody denies writing to its file and memory lasts. */
  lemma FreeMapSaveable(disk: seq<Sector>, owner: Owner, inodes: map<nat, Inode>, handles: map<nat, Handle>, file: Option<nat>, size: nat)
    requires InodesOk(disk, owner, inodes) && CountsOk(inodes, handles, multiset{}) && FreeMapFileOk(file, inodes, handles)
    requires file.Some? && handles.Keys == {file.value} && handles[file.value].File? && !handles[file.value].denyWrite
    requires |disk| > 0 && Header(disk[0]).length == size
    ensures CanSave(file, inodes, handles, size, true)
  {
    var i := handles[file.value].inode;
    assert InodeOk(disk, owner, inodes[i]) && CountOk(inodes[i], handles, multiset{}, i);
    assert Denying(handles, i) == {};
  }

  /** On a fresh free map the first n sectors after the fixed ones are found, and then the next. */
  lemma BlankFits(b: seq<bool>, n: nat)
    requires |b| >= 3 + n && n > 0 && forall s :: 0 <= s < |b| ==> b[s] == (s < 2)
    ensures HasFit(b, n) && forall i: nat :: FirstFit(b, 0, n, false, i) ==> HasFit(Filled(b, i, n, true), 1)
  {
    assert All(b, 2, n, false);
    forall i: nat | FirstFit(b, 0, n, false, i)
      ensures HasFit(Filled(b, i, n, true), 1)
    {
      assert !b[i] && i == 2;
      assert All(Filled(b, 2, n, true), 2 + n, 1, false);
    }
  }

  // ----- creating and releasing files

  /** d's run was found in the free map, and h is a marked sector that nobody owns. */
  ghost predicate Fitting(marked: seq<bool>, marked': seq<bool>, owner: Owner, h: nat, d: InodeDisk)
  {
    && h < |marked| && marked[h] && h !in owner && d.length + 511 < 0x8000_0000
    && FirstFit(marked, 0, Sectors(d.length), false, d.start) && marked' == Filled(marked, d.start, Sectors(d.length), true)
  }

  lemma FittingSpare(disk: seq<Sector>, marked: seq<bool>, marked': seq<bool>, owner: Owner, h: nat, d: InodeDisk)
    requires Owned(disk, marked, owner) && Fitting(marked, marked', owner, h, d)
    ensures Spare(marked', owner, h, d)
  {
    forall s: nat | InRun(d, s)
      ensures marked'[s] && s !in owner
    {
      FreeUnowned(disk, marked, owner, s);
    }
  }

  /** A file of this length was created at h: its run was free and now is not, and reads as zeros. */
  ghost predicate Created(marked: seq<bool>, marked': seq<bool>, owner: Owner, owner': Owner, disk: seq<Sector>, h: nat, length: nat)
  {
    h < |disk| && Head(owner', h) &&
    var d := Header(disk[h]);
    && d.length == length && ZeroRun(disk, d) && !InRun(d, h)
    && owner' == Adopted(owner, h, d)
    && FirstFit(marked, 0, Sectors(length), false, d.start) && marked' == Filled(marked, d.start, Sectors(length), true)
  }

  lemma OwnedMarked(disk: seq<Sector>, marked: seq<bool>, owner: Owner, h: nat)
    requires Owned(disk, marked, owner) && Head(owner, h)
    ensures h < |disk| && marked[h] && RunOwned(disk, owner, h)
    ensures All(marked, Header(disk[h]).start, Sectors(Header(disk[h]).length), true)
  {
    assert SectorOwned(disk, marked, owner, h) && RunOwned(disk, owner, h);
    forall s: nat | InRun(Header(disk[h]), s)
      ensures marked[s]
    {
      assert SectorOwned(disk, marked, owner, s);
    }
  }

  lemma DisownInodesOk(disk: seq<Sector>, owner: Owner, inodes: map<nat, Inode>, h: nat)
    requires InodesOk(disk, owner, inodes) && NotOpen(inodes, h)
    ensures InodesOk(disk, Disowned(owner, h), inodes)
  {
    var owner' := Disowned(owner, h);
    forall j | j in inodes
      ensures InodeOk(disk, owner', inodes[j])
    {
      assert InodeOk(disk, owner, inodes[j]);
    }
  }

  /** Old files have nothing of a file whose sectors were free. */
  lemma NewApart(disk: seq<Sector>, marked: seq<bool>, owner: Owner, h: nat, d: InodeDisk)
    requires Owned(disk, marked, owner) && h !in owner && FirstFit(marked, 0, Sectors(d.length), false, d.start)
    ensures forall s :: s in owner ==> !InRun(d, s) && owner[s] != h
  {
    forall s | s in owner
      ensures !InRun(d, s) && owner[s] != h
    {
      assert SectorOwned(disk, marked, owner, s);
    }
  }

  /** What holds for more owners holds for fewer. */
  lemma OnlyDataLess(disk: seq<Sector>, disk': seq<Sector>, owner: Owner, owner': Owner, fs: set<nat>)
    requires OnlyData(disk, disk', owner', fs) && forall x :: x in owner ==> x in owner' && owner'[x] == owner[x]
    ensures OnlyData(disk, disk', owner, fs)
  {
  }

  /** Is there a free sector for the inode and then a free run for n data sectors? */
  ghost predicate HasRoom(b: seq<bool>, n: nat)
  {
    exists s: nat :: FirstFit(b, 0, 1, false, s) && HasFit(Filled(b, s, 1, true), n)
  }

  lemma RoomAfter(b: seq<bool>, n: nat, s: nat)
    requires FirstFit(b, 0, 1, false, s)
    ensures HasRoom(b, n) <==> HasFit(Filled(b, s, 1, true), n)
  {
    forall t: nat | FirstFit(b, 0, 1, false, t)
      ensures t == s
    {
      FirstFitUnique(b, 1, s, t);
    }
  }

  lemma NoRoom(b: seq<bool>, n: nat)
    ensures HasRoom(b, n) ==> HasFit(b, 1)
  {
    if s: nat :| FirstFit(b, 0, 1, false, s) && HasFit(Filled(b, s, 1, true), n) {
      FirstFitFits(b, 1, s);
    }
  }

  lemma FirstFitUnique(b: seq<bool>, cnt: nat, s: nat, t: nat)
    requires FirstFit(b, 0, cnt, false, s) && FirstFit(b, 0, cnt, false, t)
    ensures s == t
  {
    assert All(b, s, cnt, false) && All(b, t, cnt, false);
  }

  // ----- handles

  /** x once a handle that did or did not deny writing does or does not. */
  function WithDeny(x: Inode, before: bool, after: bool): Inode
  {
    if before == after then x
    else if after then x.(denyWriteCnt := x.denyWriteCnt + 1)
    else x.(denyWriteCnt := if x.denyWriteCnt == 0 then 0 else x.denyWriteCnt - 1)
  }

  /** Only the deny count of f's inode has changed, as f's flag has. */
  ghost predicate DenyChanged(inodes: map<nat, Inode>, inodes': map<nat, Inode>, f: Handle, deny: bool)
  {
    f.File? && f.inode in inodes && inodes' == inodes[f.inode := WithDeny(inodes[f.inode], f.denyWrite, deny)]
  }

  /** The inodes after closing f. */
  ghost predicate FileClosed(inodes: map<nat, Inode>, inodes': map<nat, Inode>, f: Handle)
  {
    f.File? && f.inode in inodes && Closed(inodes[f.inode := WithDeny(inodes[f.inode], f.denyWrite, false)], inodes', f.inode)
  }

  // ----- directory operations

  /** Reading 20 bytes gives a whole entry, or nothing past the last or without memory. */
  lemma EntryTransfer(k: nat, length: nat, ok: bool)
    ensures Transfer(20, 20 * k, length, ok) == 20 <==> ok && k < length / 20
    ensures length % 20 == 0 && Transfer(20, 20 * k, length, ok) != 20 ==> Transfer(20, 20 * k, length, ok) == 0
  {
  }

  /** The root directory's inode is never denied writing. */
  lemma RootNotDenied(inodes: map<nat, Inode>, handles: map<nat, Handle>, held: multiset<nat>, i: nat)
    requires CountsOk(inodes, handles, held) && i in inodes && inodes[i].sector == 1
    ensures inodes[i].denyWriteCnt == 0
  {
    assert CountOk(inodes[i], handles, held, i);
    forall h | h in handles && handles[h].inode == i
      ensures handles[h].Dir?
    {
      assert HandleOk(inodes, handles[h]);
    }
    assert Denying(handles, i) == {};
  }

  lemma FoundOnce(es: seq<Entry>, name: Name, n: nat, r: Option<nat>)
    requires Found(es, name, n, r) && r.Some?
    ensures !Found(es, name, n, None)
  {
  }

  /** Going on from entry k to entry k' lists the name r, or nothing; with enough memory, nothing
      only when nothing is left. */
  ghost predicate NextListed(es: seq<Entry>, k: nat, k': nat, lasts: nat, r: Option<Name>)
  {
    k <= |es| && k' <= |es| &&
    match r
    case Some(name) => Listing(es, k) == [name] + Listing(es, k')
    case None => Listing(es, k) == Listing(es, k') && (lasts > |es| ==> Listing(es, k) == [])
  }

  /** Can an entry be added under this name? */
  ghost predicate Addable(es: seq<Entry>, name: Name, m: Memory)
  {
    && 1 <= |name| <= 14 && Found(es, name, m.lookup, None) && m.write
    && exists k: nat :: k < |es| && IsSlot(es, m.search, k)
  }

  lemma AddableSlot(es: seq<Entry>, name: Name, m: Memory, k: nat)
    requires IsSlot(es, m.search, k)
    ensures Addable(es, name, m) <==> 1 <= |name| <= 14 && Found(es, name, m.lookup, None) && m.write && k < |es|
  {
    forall j: nat | IsSlot(es, m.search, j)
      ensures j == k
    {
      SlotUnique(es, m.search, j, k);
    }
  }

  lemma SlotUnique(es: seq<Entry>, n: nat, j: nat, k: nat)
    requires IsSlot(es, n, j) && IsSlot(es, n, k)
    ensures j == k
  {
  }

  /** With memory for all entry reads, a successful dir_add adds exactly one binding. */
  lemma AddedBinding(es: seq<Entry>, es': seq<Entry>, name: Name, sector: uint32, lookup: nat, search: nat, slot: nat, e: Entry)
    requires NamesOk(es) && Unique(es) && IsCString(name) && Added(es, es', name, sector, lookup, search, slot, e)
    requires lookup >= |es| && search >= |es|
    ensures name !in Bindings(es) && Unique(es') && Bindings(es') == Bindings(es)[name := sector]
  {
    AddCorrectIff(es, es', name, sector, lookup, search, slot, e);
    assert search >= slot && !es[slot].inUse;
  }

  /** A 16-entry directory with one file named "a" and 15 free entries. */
  ghost function OneFile(sector: uint32, rest: seq<byte>): seq<Entry>
  {
    [Entry(sector, [97, 0] + rest, true)] + seq(15, _ => Entry(0, seq(15, _ => 0), false))
  }

  lemma OneFileIs(sector: uint32, rest: seq<byte>)
    requires |rest| == 13
    ensures var es := OneFile(sector, rest);
            && |es| == 16 && NamesOk(es) && Unique(es) && NameOf(es[0]) == [97] && !StrEq([98], es[0].name)
            && (forall j :: 1 <= j < 16 ==> !es[j].inUse) && [97] in Bindings(es)
  {
    var es := OneFile(sector, rest);
    var a := [97, 0] + rest;
    assert es[0] == Entry(sector, a, true) && a[1] == 0 && a[..1] == [97];
    StrEqIsCString([97], a);
    StrEqIsCString([98], a);
    assert NameOf(es[0]) in Bindings(es);
  }

  /** The failure is real: if memory runs out on the first read of the search for a slot, adding "b"
      succeeds, overwrites the entry of "a" and loses its binding, with 15 entries free. */
  lemma AddCanOverwrite(s: uint32, s': uint32, rest: seq<byte>, m: Memory)
    requires |rest| == 13 && m.search == 0 && m.write
    ensures var es := OneFile(s, rest); var e := Entry(s', [98, 0] + rest, true);
            && Addable(es, [98], m) && Added(es, es[0 := e], [98], s', m.lookup, m.search, 0, e)
            && Unique(es) && [97] in Bindings(es) && Unique(es[0 := e]) && [97] !in Bindings(es[0 := e])
  {
    OneFileIs(s, rest);
    var es, b := OneFile(s, rest), [98, 0] + rest;
    var e := Entry(s', b, true);
    assert b[1] == 0 && b[..1] == [98];
    StrEqIsCString([98], b);
    AddableSlot(es, [98], m, 0);
  }

  /** And if memory runs out on the first read of lookup, adding "a" again binds the name twice. */
  lemma AddCanDuplicate(s: uint32, s': uint32, rest: seq<byte>, m: Memory)
    requires |rest| == 13 && m.lookup == 0 && m.search >= 16 && m.write
    ensures var es := OneFile(s, rest); var e := Entry(s', [97, 0] + rest, true);
            && Addable(es, [97], m) && Added(es, es[1 := e], [97], s', m.lookup, m.search, 1, e)
            && Unique(es) && !Unique(es[1 := e])
  {
    OneFileIs(s, rest);
    var es := OneFile(s, rest);
    var e := Entry(s', [97, 0] + rest, true);
    AddableSlot(es, [97], m, 1);
    assert es[1 := e][0] == es[0] && es[1 := e][1] == e;
  }

  ghost function Cleared(es: seq<Entry>, k: nat): seq<Entry>
    requires k < |es|
  {
    es[k := es[k].(inUse := false)]
  }

  /** A successful dir_remove removes exactly the binding of its name. */
  lemma ClearedBinding(es: seq<Entry>, name: Name, lookup: nat, k: nat)
    requires NamesOk(es) && Unique(es) && IsCString(name) && Found(es, name, lookup, Some(k))
    ensures name in Bindings(es) && Unique(Cleared(es, k)) && Bindings(Cleared(es, k)) == Bindings(es) - {name}
  {
    StrEqIsCString(name, es[k].name);
    assert NameOf(es[k]) in Bindings(es);
    RemoveBinding(es, k);
  }

  /** Opening the root directory around a removal makes no difference to it. */
  lemma RemovedAround(a: map<nat, Inode>, b: map<nat, Inode>, c: map<nat, Inode>, z: map<nat, Inode>, handles: map<nat, Handle>, i: nat, h: nat, root: InodeDisk, d: InodeDisk, marked: seq<bool>, marked': seq<bool>, owner: Owner, owner': Owner)
    requires CountsOk(a, handles, multiset{}) && Opened(a, b, 1, root, i) && Closed(c, z, i)
    requires h != 1 && RemovedFile(b, c, h, d, marked, marked', owner, owner')
    ensures RemovedFile(a, z, h, d, marked, marked', owner, owner')
  {
    if i in a { assert CountOk(a[i], handles, multiset{}, i); }
    assert NotOpen(a, h) ==> NotOpen(b, h);
    if NotOpen(b, h) {
      forall j | j in a
        ensures a[j].sector != h
      {
        assert j in b && b[j].sector == a[j].sector;
      }
      OpenClose(a, b, z, handles, multiset{}, 1, root, i);
    } else {
      var j :| j in b && b[j].sector == h && c == b[j := Removed(b[j])];
      assert j != i && j in a && a[j] == b[j];
      assert z == a[j := Removed(a[j])];
    }
  }

  /** Opening and closing the root directory around opening a file makes no difference to it. */
  lemma OpenedAround(a: map<nat, Inode>, b: map<nat, Inode>, c: map<nat, Inode>, z: map<nat, Inode>, handles: map<nat, Handle>, i: nat, root: InodeDisk, t: nat, h: nat, d: InodeDisk)
    requires CountsOk(a, handles, multiset{}) && Opened(a, b, 1, root, i) && Opened(b, c, h, d, t) && Closed(c, z, i) && h != 1
    ensures i != t && t in c && Opened(a, z, h, d, t) && z[t] == c[t]
  {
    if i in a { assert CountOk(a[i], handles, multiset{}, i); }
    assert i != t;
    if t in b {
      assert t in a && a[t] == b[t];
      assert z == a[t := Reopened(a[t])];
    } else {
      assert t !in a;
      forall j | j in a
        ensures a[j].sector != h
      {
        assert j in b && b[j].sector == a[j].sector;
      }
      assert z == a[t := c[t]];
    }
  }

  // ----- creating named files

  /** The file named by e is new: its sectors were nobody's, it has the size asked for and reads as
      zeros, and one entry of the root directory now names it. */
  ghost predicate FileCreated(disk: seq<Sector>, es: seq<Entry>, es': seq<Entry>, owner: Owner, owner': Owner, name: Name, size: nat, m: Memory, slot: nat, e: Entry)
  {
    Added(es, es', name, e.sector, m.lookup, m.search, slot, e) && e.sector !in owner && e.sector < |disk| &&
    var d := Header(disk[e.sector]);
    && d.length == size && ZeroRun(disk, d) && owner' == Adopted(owner, e.sector, d)
    && forall s :: s in owner ==> !InRun(d, s)
  }

  /** Is there room on the disk and in the directory, and memory for the header and the entry? */
  ghost predicate CanCreate(marked: seq<bool>, es: seq<Entry>, name: Name, size: nat, m: Memory)
  {
    m.header && HasRoom(marked, Sectors(size)) && Addable(es, name, m)
  }

  /** The first free run of n sectors, at t, is taken. */
  ghost predicate FitTaken(marked: seq<bool>, marked': seq<bool>, n: nat, t: nat)
  {
    FirstFit(marked, 0, n, false, t) && marked' == Filled(marked, t, n, true)
  }

  /** Sector s and then the run of n sectors at t are taken, each the first that fits; a file that is
      not linked gives s back, and s alone. */
  ghost predicate SectorsTaken(marked: seq<bool>, marked': seq<bool>, n: nat, s: nat, t: nat, linked: bool)
  {
    FirstFit(marked, 0, 1, false, s) && FirstFit(Filled(marked, s, 1, true), 0, n, false, t) &&
    var both := Filled(Filled(marked, s, 1, true), t, n, true);
    marked' == if linked then both else Filled(both, s, 1, false)
  }

  /** The free map after a failure: as it was, unless the file was made and only not linked. */
  ghost predicate NotCreated(marked: seq<bool>, marked': seq<bool>, n: nat, made: bool)
  {
    if made then exists s: nat, t: nat :: SectorsTaken(marked, marked', n, s, t, false) else marked' == marked
  }

  /** Sector s is given back, after a file was made at s or not. */
  ghost predicate GivenBack(marked: seq<bool>, marked': seq<bool>, n: nat, s: nat, made: bool)
  {
    s < |marked| &&
    if made then exists t: nat :: FirstFit(marked, 0, n, false, t) && marked' == Filled(Filled(marked, t, n, true), s, 1, false)
    else marked' == Filled(marked, s, 1, false)
  }

  lemma AllGivenBack(marked: seq<bool>, marked': seq<bool>, n: nat, s: nat, made: bool)
    requires FirstFit(marked, 0, 1, false, s) && GivenBack(Filled(marked, s, 1, true), marked', n, s, made)
    ensures NotCreated(marked, marked', n, made)
  {
    var one := Filled(marked, s, 1, true);
    if made {
      var t: nat :| FirstFit(one, 0, n, false, t) && marked' == Filled(Filled(one, t, n, true), s, 1, false);
      assert SectorsTaken(marked, marked', n, s, t, false);
    } else {
      FillBack(marked, s, 1, true);
    }
  }

  /** The free map can be saved after each of the two allocations. */
  ghost predicate CanSaveTwice(file: Option<nat>, inodes: map<nat, Inode>, handles: map<nat, Handle>, size: nat, m: Memory)
  {
    CanSave(file, inodes, handles, size, m.bounces(0)) && CanSave(file, inodes, handles, size, m.bounces(1))
  }

  // ----- runs of calls

  datatype Call =
    | Create(name: Name, size: nat, stack: Entry)
    | Open(name: Name)
    | Remove(name: Name)
    | OpenRoot
    | ReadDir(h: nat)
    | CloseDir(h: nat)
    | Close(h: nat)
    | Reopen(h: nat)
    | Read(h: nat, count: int)
    | Write(h: nat, buffer: seq<byte>)
    | Seek(h: nat, pos: nat)
    | Deny(h: nat)
    | Allow(h: nat)

  /** The state of the file system between two calls. */
  datatype Snap = Snap(
    disk: seq<Sector>, marked: seq<bool>, owner: Owner,
    inodes: map<nat, Inode>, handles: map<nat, Handle>, file: Option<nat>)

  ghost predicate StateOk(a: Snap)
  {
    && Owned(a.disk, a.marked, a.owner) && InodesOk(a.disk, a.owner, a.inodes) && RootOk(a.disk, a.owner, a.inodes)
    && CountsOk(a.inodes, a.handles, multiset{}) && a.file.Some? && FreeMapFileOk(a.file, a.inodes, a.handles)
  }

  /** Can this call be made, with these handles open and this one being the free map's? */
  predicate CanCall(c: Call, handles: map<nat, Handle>, file: Option<nat>)
  {
    match c
    case Create(name, size, stack) => IsCString(name) && WellFormed(stack) && size + 511 < 0x8000_0000
    case Open(name) => IsCString(name)
    case Remove(name) => IsCString(name)
    case OpenRoot => true
    case ReadDir(h) => h in handles && handles[h].Dir?
    case CloseDir(h) => h in handles && handles[h].Dir?
    case _ => c.h in handles && handles[c.h].File? && file != Some(c.h)
  }

  // What each kind of call does, from a to b.

  /** Memory and disk have room for the new file. */
  ghost predicate MakesFile(size: nat, m: Memory, a: Snap)
  {
    && (m.inode || !NotOpen(a.inodes, 1)) && m.dir && m.header && HasRoom(a.marked, Sectors(size))
    && CanSaveTwice(a.file, a.inodes, a.handles, 4 * WordCount(|a.marked|), m)
  }

  /** A new file is made and linked, or nothing but the free map changes. */
  ghost predicate Creates(name: Name, size: nat, m: Memory, a: Snap, b: Snap)
    requires HasRoot(a.disk) && HasRoot(b.disk)
  {
    && b.handles == a.handles && b.inodes == a.inodes && OnlyData(a.disk, b.disk, a.owner, {0, 1})
    && if MakesFile(size, m, a) && Addable(Root(a.disk), name, m) then exists slot, e :: CreatesEntry(name, size, m, a, b, slot, e)
       else Root(b.disk) == Root(a.disk) && b.owner == a.owner && NotCreated(a.marked, b.marked, Sectors(size), MakesFile(size, m, a))
  }

  ghost predicate CreatesEntry(name: Name, size: nat, m: Memory, a: Snap, b: Snap, slot: nat, e: Entry)
    requires HasRoot(a.disk) && HasRoot(b.disk)
  {
    && FileCreated(b.disk, Root(a.disk), Root(b.disk), a.owner, b.owner, name, size, m, slot, e)
    && SectorsTaken(a.marked, b.marked, Sectors(size), e.sector, Header(b.disk[e.sector]).start, true)
  }

  ghost predicate Removes(name: Name, m: Memory, a: Snap, b: Snap)
    requires HasRoot(a.disk) && HasRoot(b.disk)
  {
    && b.handles == a.handles && OnlyData(a.disk, b.disk, b.owner, {0, 1})
    && (|| (&& (Ample(m) ==> Found(Root(a.disk), name, m.lookup, None))
            && Root(b.disk) == Root(a.disk) && b.inodes == a.inodes && b.owner == a.owner && b.marked == a.marked)
        || exists k: nat :: RemovesEntry(name, m, a, b, k))
  }

  ghost predicate RemovesEntry(name: Name, m: Memory, a: Snap, b: Snap, k: nat)
    requires HasRoot(a.disk) && HasRoot(b.disk)
  {
    k < 16 && Found(Root(a.disk), name, m.lookup, Some(k)) && Root(b.disk) == Cleared(Root(a.disk), k) &&
    var h := Root(a.disk)[k].sector;
    h < |a.disk| && RemovedFile(a.inodes, b.inodes, h, Header(a.disk[h]), a.marked, b.marked, a.owner, b.owner)
  }

  ghost predicate Closes(h: nat, a: Snap, b: Snap)
    requires HasRoot(a.disk) && HasRoot(b.disk)
  {
    && h in a.handles && FileClosed(a.inodes, b.inodes, a.handles[h]) && b.handles == a.handles - {h}
    && OnlyData(a.disk, b.disk, b.owner, {0}) && Root(b.disk) == Root(a.disk)
    && Released(a.inodes[a.handles[h].inode], a.marked, b.marked, a.owner, b.owner)
  }

  ghost predicate WritesFile(h: nat, buffer: seq<byte>, m: Memory, a: Snap, b: Snap)
    requires HasRoot(a.disk) && HasRoot(b.disk)
  {
    h in a.handles && a.handles[h].inode in a.inodes && b.owner == a.owner && b.marked == a.marked && b.inodes == a.inodes &&
    var f := a.handles[h];
    var x := a.inodes[f.inode];
    var n := if x.denyWriteCnt > 0 then 0 else Transfer(|buffer|, f.pos, x.data.length, m.write);
    && Written(a.disk, b.disk, x.data.start, f.pos, buffer[..n]) && OnlyData(a.disk, b.disk, a.owner, {x.sector})
    && Root(b.disk) == Root(a.disk) && b.handles == a.handles[h := Moved(f, f.pos + n)]
  }

  /** Nothing on the disk changes. */
  ghost predicate Quiet(a: Snap, b: Snap)
  {
    b.disk == a.disk && b.owner == a.owner && b.marked == a.marked
  }

  ghost predicate Opens(name: Name, m: Memory, a: Snap, b: Snap)
    requires HasRoot(a.disk)
  {
    || (b.handles == a.handles && b.inodes == a.inodes && (Ample(m) ==> Found(Root(a.disk), name, m.lookup, None)))
    || exists h: nat, k: nat :: OpensAs(name, m, a, b, h, k)
  }

  /** h is a new handle at the start of the file that entry k binds the name to. */
  ghost predicate OpensAs(name: Name, m: Memory, a: Snap, b: Snap, h: nat, k: nat)
    requires HasRoot(a.disk)
  {
    k < 16 && Found(Root(a.disk), name, m.lookup, Some(k)) && h !in a.handles && h in b.handles &&
    var i := b.handles[h].inode;
    && b.handles == a.handles[h := File(i, 0, false)]
    && i in b.inodes && Opened(a.inodes, b.inodes, Root(a.disk)[k].sector, b.inodes[i].data, i)
  }

  ghost predicate Reopens(h: nat, m: Memory, a: Snap, b: Snap)
  {
    h in a.handles && a.handles[h].inode in a.inodes &&
    var i := a.handles[h].inode;
    if m.file then
      b.inodes == a.inodes[i := Reopened(a.inodes[i])]
      && exists g: nat :: g !in a.handles && b.handles == a.handles[g := File(i, 0, false)]
    else b.inodes == a.inodes && b.handles == a.handles
  }

  ghost predicate OpensRoot(m: Memory, a: Snap, b: Snap)
  {
    if (m.inode || !NotOpen(a.inodes, 1)) && m.dir then exists h: nat :: OpensRootAs(a, b, h)
    else b.inodes == a.inodes && b.handles == a.handles
  }

  ghost predicate OpensRootAs(a: Snap, b: Snap, h: nat)
  {
    h !in a.handles && h in b.handles &&
    var i := b.handles[h].inode;
    b.handles == a.handles[h := Dir(i, 0)] && i in b.inodes && Opened(a.inodes, b.inodes, 1, b.inodes[i].data, i)
  }

  ghost predicate ReadsFile(h: nat, count: int, m: Memory, a: Snap, b: Snap)
  {
    h in a.handles && a.handles[h].inode in a.inodes && b.inodes == a.inodes &&
    var f := a.handles[h];
    b.handles == a.handles[h := Moved(f, f.pos + Transfer(count, f.pos, a.inodes[f.inode].data.length, m.write))]
  }

  ghost predicate SetsDeny(h: nat, deny: bool, a: Snap, b: Snap)
  {
    && h in a.handles && DenyChanged(a.inodes, b.inodes, a.handles[h], deny)
    && b.handles == a.handles[h := File(a.handles[h].inode, a.handles[h].pos, deny)]
  }

  ghost predicate ReadsDir(h: nat, m: Memory, a: Snap, b: Snap)
    requires HasRoot(a.disk)
  {
    && h in a.handles && h in b.handles && b.inodes == a.inodes
    && b.handles == a.handles[h := Moved(a.handles[h], b.handles[h].pos)]
    && exists r :: NextListed(Root(a.disk), a.handles[h].pos / 20, b.handles[h].pos / 20, m.lookup, r)
  }

  ghost predicate ClosesDir(h: nat, a: Snap, b: Snap)
  {
    h in a.handles && b.handles == a.handles - {h} && Closed(a.inodes, b.inodes, a.handles[h].inode)
  }

  /** If every write of the free map would succeed, the map stays saved. */
  ghost predicate SavesMap(m: Memory, a: Snap, b: Snap)
  {
    CanSaveAll(b.file, b.inodes, b.handles, 4 * WordCount(|b.marked|), m) ==> KeepsSaved(a.disk, a.marked, b.disk, b.marked)
  }

  ghost predicate Effect(c: Call, m: Memory, a: Snap, b: Snap)
    requires HasRoot(a.disk) && HasRoot(b.disk)
  {
    && b.file == a.file
    && match c
       case Create(name, size, stack) => Creates(name, size, m, a, b) && SavesMap(m, a, b)
       case Remove(name) => Removes(name, m, a, b) && SavesMap(m, a, b)
       case Close(h) => Closes(h, a, b) && SavesMap(m, a, b)
       case Write(h, buffer) => WritesFile(h, buffer, m, a, b)
       case Open(name) => Quiet(a, b) && Opens(name, m, a, b)
       case Reopen(h) => Quiet(a, b) && Reopens(h, m, a, b)
       case Read(h, count) => Quiet(a, b) && ReadsFile(h, count, m, a, b)
       case Seek(h, pos) => Quiet(a, b) && h in a.handles && b.inodes == a.inodes && b.handles == a.handles[h := Moved(a.handles[h], pos)]
       case Deny(h) => Quiet(a, b) && SetsDeny(h, true, a, b)
       case Allow(h) => Quiet(a, b) && SetsDeny(h, false, a, b)
       case OpenRoot => Quiet(a, b) && OpensRoot(m, a, b)
       case ReadDir(h) => Quiet(a, b) && ReadsDir(h, m, a, b)
       case CloseDir(h) => Quiet(a, b) && ClosesDir(h, a, b)
  }

  /** What a call returns. */
  datatype Reply =
    | Done
    | Success(ok: bool)
    | HandleIs(h: Option<nat>)
    | Bytes(data: seq<byte>)
    | Count(n: nat)
    | Listed(name: Option<Name>)

  /** A read through h in state a returns the bytes of the file from the handle's position on. */
  ghost predicate ReadAnswer(a: Snap, h: nat, count: int, m: Memory, data: seq<byte>)
  {
    h in a.handles && a.handles[h].inode in a.inodes &&
    var f := a.handles[h];
    var d := a.inodes[f.inode].data;
    OnDisk(|a.disk|, d) && |data| == Transfer(count, f.pos, d.length, m.write) && Reads(Contents(a.disk, d), f.pos, data)
  }

  /** The reply to call c, made in state a and leaving state b. */
  ghost predicate Answers(c: Call, m: Memory, a: Snap, b: Snap, r: Reply)
    requires HasRoot(a.disk) && HasRoot(b.disk)
  {
    match c
    case Create(name, size, _) => r == Success(MakesFile(size, m, a) && Addable(Root(a.disk), name, m))
    case Remove(_) => r == Success(Root(b.disk) != Root(a.disk))
    case Open(name) => r.HandleIs? && if r.h.Some? then exists k: nat :: OpensAs(name, m, a, b, r.h.value, k) else b.handles == a.handles
    case OpenRoot => r.HandleIs? && if r.h.Some? then OpensRootAs(a, b, r.h.value) else b.handles == a.handles
    case Reopen(_) => r.HandleIs? && if r.h.Some? then r.h.value !in a.handles && r.h.value in b.handles else b.handles == a.handles
    case Read(h, count) => r.Bytes? && ReadAnswer(a, h, count, m, r.data)
    case Write(h, buffer) => h in a.handles && a.handles[h].inode in a.inodes && r == Count(WriteCount(a, h, buffer, m))
    case ReadDir(h) =>
      h in a.handles && h in b.handles && r.Listed? && NextListed(Root(a.disk), a.handles[h].pos / 20, b.handles[h].pos / 20, m.lookup, r.name)
    case _ => r == Done
  }

  /** The call writes to the file at inode sector f. */
  ghost predicate WritesTo(c: Call, a: Snap, f: nat)
  {
    c.Write? && c.h in a.handles && a.handles[c.h].inode in a.inodes && a.inodes[a.handles[c.h].inode].sector == f
  }

  /** The file at f is gone. */
  ghost predicate Gone(a: Snap, b: Snap, f: nat) { Head(a.owner, f) && !Head(b.owner, f) }

  /** The call removes the name of the file at f, which is not open. */
  ghost predicate RemovesClosed(c: Call, m: Memory, a: Snap, b: Snap, f: nat)
    requires HasRoot(a.disk) && HasRoot(b.disk)
  {
    && c.Remove? && NotOpen(a.inodes, f)
    && exists k: nat :: k < 16 && Found(Root(a.disk), c.name, m.lookup, Some(k)) && Root(a.disk)[k].sector == f
                        && Root(b.disk) == Cleared(Root(a.disk), k)
  }

  /** The call is the last close of the file at f, which has been removed. */
  ghost predicate ClosesRemoved(c: Call, a: Snap, f: nat)
  {
    c.Close? && c.h in a.handles && a.handles[c.h].inode in a.inodes &&
    var x := a.inodes[a.handles[c.h].inode];
    x.sector == f && x.removed && x.openCnt == 1
  }

  /** Files go in exactly two ways: by removing the name of a file that is not open, and by the last
      close of a removed file. */
  lemma GoneExactlyBy(c: Call, m: Memory, a: Snap, b: Snap, f: nat)
    requires StateOk(a) && HasRoot(b.disk) && Effect(c, m, a, b) && Head(a.owner, f)
    ensures Gone(a, b, f) <==> RemovesClosed(c, m, a, b, f) || ClosesRemoved(c, a, f)
  {
    match c
    case Remove(name) => RemoveGone(name, m, a, b, f);
    case Create(name, size, stack) => CreateKeepsHead(name, size, m, a, b, f);
    case Close(h) => CloseGone(h, a, b, f);
    case _ =>
  }

  lemma RemoveGone(name: Name, m: Memory, a: Snap, b: Snap, f: nat)
    requires HasRoot(a.disk) && HasRoot(b.disk) && Removes(name, m, a, b) && Head(a.owner, f)
    ensures Gone(a, b, f) <==> RemovesClosed(Call.Remove(name), m, a, b, f)
  {
    if k: nat :| RemovesEntry(name, m, a, b, k) {
      RemovedEntryGone(name, m, a, b, k, f);
    } else {
      forall k: nat | k < 16 && Found(Root(a.disk), name, m.lookup, Some(k))
        ensures Root(b.disk) != Cleared(Root(a.disk), k)
      {
        assert Root(a.disk)[k].inUse && !Cleared(Root(a.disk), k)[k].inUse;
      }
    }
  }

  lemma RemovedEntryGone(name: Name, m: Memory, a: Snap, b: Snap, k: nat, f: nat)
    requires HasRoot(a.disk) && HasRoot(b.disk) && RemovesEntry(name, m, a, b, k) && Head(a.owner, f)
    ensures Gone(a, b, f) <==> RemovesClosed(Call.Remove(name), m, a, b, f)
  {
    assert k < 16 && Found(Root(a.disk), name, m.lookup, Some(k)) && Root(b.disk) == Cleared(Root(a.disk), k);
    assert Gone(a, b, f) <==> NotOpen(a.inodes, f) && f == Root(a.disk)[k].sector;
    forall j: nat | j < 16 && Found(Root(a.disk), name, m.lookup, Some(j))
      ensures j == k
    {
    }
  }

  lemma CloseGone(h: nat, a: Snap, b: Snap, f: nat)
    requires HasRoot(a.disk) && HasRoot(b.disk) && Closes(h, a, b) && Head(a.owner, f)
    ensures Gone(a, b, f) <==> ClosesRemoved(Call.Close(h), a, f)
  {
  }

  /** Creating a file frees none. */
  lemma CreateKeepsHead(name: Name, size: nat, m: Memory, a: Snap, b: Snap, f: nat)
    requires HasRoot(a.disk) && HasRoot(b.disk) && Creates(name, size, m, a, b) && Head(a.owner, f)
    ensures Head(b.owner, f)
  {
    if slot, e :| CreatesEntry(name, size, m, a, b, slot, e) { assert f != e.sector && !InRun(Header(b.disk[e.sector]), f); }
  }

  /** A file that a call neither writes nor frees keeps its header and contents. */
  lemma EffectKeepsFile(c: Call, m: Memory, a: Snap, b: Snap, f: nat)
    requires StateOk(a) && HasRoot(b.disk) && Effect(c, m, a, b)
    requires f >= 2 && Head(a.owner, f) && !Gone(a, b, f) && !WritesTo(c, a, f)
    ensures SameFile(a.disk, b.disk, f)
  {
    match c
    case Create(_, _, _) => FileKept(a.disk, b.disk, a.marked, a.owner, {0, 1}, f);
    case Remove(name) => RemoveKeepsFile(name, m, a, b, f);
    case Close(h) => OtherFileKept(a.disk, b.disk, a.marked, a.owner, b.owner, a.inodes[a.handles[h].inode].sector, {0}, f);
    case Write(h, _) => FileKept(a.disk, b.disk, a.marked, a.owner, {a.inodes[a.handles[h].inode].sector}, f);
    case _ => LiveFile(a.disk, a.marked, a.owner, f);
  }

  lemma RemoveKeepsFile(name: Name, m: Memory, a: Snap, b: Snap, f: nat)
    requires StateOk(a) && HasRoot(b.disk) && Removes(name, m, a, b) && f >= 2 && Head(b.owner, f)
    ensures SameFile(a.disk, b.disk, f)
  {
    var gone := 0;
    if k: nat :| RemovesEntry(name, m, a, b, k) { gone := Root(a.disk)[k].sector; }
    OtherFileKept(a.disk, b.disk, a.marked, a.owner, b.owner, gone, {0, 1}, f);
  }

  /** What a call may do to the map from names to files: a Create binds an unbound name to a new
      file or nothing, a Remove unbinds its name or nothing, and no other call changes it. */
  ghost predicate BindingsStep(c: Call, a: Snap, b: Snap)
    requires HasRoot(a.disk) && HasRoot(b.disk) && Unique(Root(a.disk))
  {
    Unique(Root(b.disk)) &&
    var x, y := Bindings(Root(a.disk)), Bindings(Root(b.disk));
    || y == x
    || (c.Create? && c.name !in x && exists h: uint32 :: h !in a.owner && y == x[c.name := h])
    || (c.Remove? && c.name in x && y == x - {c.name})
  }

  lemma EffectBindings(c: Call, m: Memory, a: Snap, b: Snap)
    requires StateOk(a) && HasRoot(b.disk) && Effect(c, m, a, b) && CanCall(c, a.handles, a.file)
    requires Unique(Root(a.disk)) && ReadsAll(m)
    ensures BindingsStep(c, a, b)
  {
    var x, y := Root(a.disk), Root(b.disk);
    if y != x && c.Create? {
      var slot, e :| CreatesEntry(c.name, c.size, m, a, b, slot, e);
      AddedBinding(x, y, c.name, e.sector, m.lookup, m.search, slot, e);
    } else if y != x && c.Remove? {
      var k: nat :| RemovesEntry(c.name, m, a, b, k);
      ClearedBinding(x, c.name, m.lookup, k);
    }
  }

  /** From trace[n] to trace[n + 1] call n has had its effect; a call that cannot be made has none. */
  ghost predicate Linked(calls: seq<(Call, Memory)>, trace: seq<Snap>, n: nat)
    requires n < |calls| && n + 1 < |trace|
  {
    Follows(calls[n].0, calls[n].1, trace[n], trace[n + 1])
  }

  ghost predicate Follows(c: Call, m: Memory, a: Snap, b: Snap)
  {
    StateOk(a) && StateOk(b) && if CanCall(c, a.handles, a.file) then Effect(c, m, a, b) else b == a
  }

  /** The states that a run of calls goes through. */
  ghost predicate Traced(calls: seq<(Call, Memory)>, trace: seq<Snap>)
  {
    |trace| == |calls| + 1 && forall n {:trigger Linked(calls, trace, n)} :: 0 <= n < |calls| ==> Linked(calls, trace, n)
  }

  lemma TraceGrows(calls: seq<(Call, Memory)>, before: seq<Snap>, trace: seq<Snap>, n: nat)
    requires |before| == n + 1 && |trace| == n + 2 && trace[..n + 1] == before && n < |calls|
    requires forall j {:trigger Linked(calls, before, j)} :: 0 <= j < n ==> Linked(calls, before, j)
    requires Linked(calls, trace, n)
    ensures forall j {:trigger Linked(calls, trace, j)} :: 0 <= j < n + 1 ==> Linked(calls, trace, j)
  {
    forall j | 0 <= j < n
      ensures Linked(calls, trace, j)
    {
      assert Linked(calls, before, j);
    }
  }

  /** The file at f is live at the start, and no call of the run writes or frees it. */
  ghost predicate Untouched(calls: seq<(Call, Memory)>, trace: seq<Snap>, f: nat)
    requires |trace| == |calls| + 1
  {
    && f >= 2 && Head(trace[0].owner, f)
    && forall n {:trigger SparedBy(calls, trace, n, f)} :: 0 <= n < |calls| ==> SparedBy(calls, trace, n, f)
  }

  ghost predicate SparedBy(calls: seq<(Call, Memory)>, trace: seq<Snap>, n: nat, f: nat)
    requires n < |calls| && n + 1 < |trace|
  {
    !WritesTo(calls[n].0, trace[n], f) && !Gone(trace[n], trace[n + 1], f)
  }

  lemma FollowsKeepsFile(c: Call, m: Memory, a: Snap, b: Snap, f: nat)
    requires Follows(c, m, a, b) && f >= 2 && Head(a.owner, f) && !WritesTo(c, a, f) && !Gone(a, b, f)
    ensures Head(b.owner, f) && SameFile(a.disk, b.disk, f)
  {
    if CanCall(c, a.handles, a.file) {
      EffectKeepsFile(c, m, a, b, f);
    } else {
      LiveFile(a.disk, a.marked, a.owner, f);
    }
  }

  /** No call from n on, before k, writes or frees the file at f. */
  ghost predicate SparedBetween(calls: seq<(Call, Memory)>, trace: seq<Snap>, n: nat, k: nat, f: nat)
    requires n <= k <= |calls| && |trace| == |calls| + 1
  {
    forall j {:trigger SparedBy(calls, trace, j, f)} :: n <= j < k ==> SparedBy(calls, trace, j, f)
  }

  lemma {:induction false} KeptBetween(calls: seq<(Call, Memory)>, trace: seq<Snap>, n: nat, k: nat, f: nat)
    requires Traced(calls, trace) && n <= k <= |calls| && StateOk(trace[n]) && f >= 2 && Head(trace[n].owner, f)
    requires SparedBetween(calls, trace, n, k, f)
    ensures Head(trace[k].owner, f) && SameFile(trace[n].disk, trace[k].disk, f)
    decreases k
  {
    if k == n {
      LiveFile(trace[n].disk, trace[n].marked, trace[n].owner, f);
    } else {
      KeptBetween(calls, trace, n, k - 1, f);
      LinkKeepsFile(calls, trace, k - 1, f);
    }
  }

  lemma LinkKeepsFile(calls: seq<(Call, Memory)>, trace: seq<Snap>, n: nat, f: nat)
    requires Traced(calls, trace) && n < |calls| && f >= 2 && Head(trace[n].owner, f) && SparedBy(calls, trace, n, f)
    ensures Head(trace[n + 1].owner, f) && SameFile(trace[n].disk, trace[n + 1].disk, f)
  {
    assert Linked(calls, trace, n);
    FollowsKeepsFile(calls[n].0, calls[n].1, trace[n], trace[n + 1], f);
  }

  lemma TraceKeepsFile(calls: seq<(Call, Memory)>, trace: seq<Snap>, f: nat, n: nat)
    requires Traced(calls, trace) && Untouched(calls, trace, f) && n <= |calls| && StateOk(trace[0])
    ensures Head(trace[n].owner, f) && SameFile(trace[0].disk, trace[n].disk, f)
  {
    KeptBetween(calls, trace, 0, n, f);
  }

  ghost predicate NamesUnique(a: Snap) { StateOk(a) && Unique(Root(a.disk)) }

  lemma FollowsBindings(c: Call, m: Memory, a: Snap, b: Snap)
    requires NamesUnique(a) && ReadsAll(m) && Follows(c, m, a, b)
    ensures NamesUnique(b) && BindingsStep(c, a, b)
  {
    if CanCall(c, a.handles, a.file) { EffectBindings(c, m, a, b); }
  }

  lemma FollowsUnique(c: Call, m: Memory, a: Snap, b: Snap)
    requires NamesUnique(a) && ReadsAll(m) && Follows(c, m, a, b)
    ensures NamesUnique(b)
  {
    FollowsBindings(c, m, a, b);
  }

  lemma LinkUnique(calls: seq<(Call, Memory)>, trace: seq<Snap>, n: nat)
    requires Traced(calls, trace) && n < |calls| && NamesUnique(trace[n]) && ReadsAll(calls[n].1)
    ensures NamesUnique(trace[n + 1])
  {
    assert Linked(calls, trace, n);
    FollowsUnique(calls[n].0, calls[n].1, trace[n], trace[n + 1]);
  }

  lemma {:induction false} TraceUnique(calls: seq<(Call, Memory)>, trace: seq<Snap>, n: nat)
    requires Traced(calls, trace) && n <= |calls| && NamesUnique(trace[0])
    requires forall j :: 0 <= j < |calls| ==> ReadsAll(calls[j].1)
    ensures NamesUnique(trace[n])
    decreases n
  {
    if n > 0 {
      TraceUnique(calls, trace, n - 1);
      LinkUnique(calls, trace, n - 1);
    }
  }

  /** With memory for the directory reads, names stay unique throughout a run and every call is a
      step of the map from names to files. */
  lemma TraceBindings(calls: seq<(Call, Memory)>, trace: seq<Snap>, n: nat)
    requires Traced(calls, trace) && n < |calls| && NamesUnique(trace[0])
    requires forall j :: 0 <= j < |calls| ==> ReadsAll(calls[j].1)
    ensures NamesUnique(trace[n]) && NamesUnique(trace[n + 1]) && BindingsStep(calls[n].0, trace[n], trace[n + 1])
  {
    TraceUnique(calls, trace, n);
    assert Linked(calls, trace, n) && ReadsAll(calls[n].1);
    FollowsBindings(calls[n].0, calls[n].1, trace[n], trace[n + 1]);
  }

  // ----- handles and removed files over runs

  /** The same file, unless it has been removed in the meantime. */
  predicate SameInode(x: Inode, y: Inode)
  {
    y.sector == x.sector && y.data == x.data && (x.removed ==> y.removed)
  }

  lemma OpenPersists(name: Name, m: Memory, a: Snap, b: Snap, i: nat)
    requires HasRoot(a.disk) && Opens(name, m, a, b) && i in a.inodes
    ensures i in b.inodes && SameInode(a.inodes[i], b.inodes[i])
  {
    if h: nat, k: nat :| OpensAs(name, m, a, b, h, k) {
      assert Opened(a.inodes, b.inodes, Root(a.disk)[k].sector, b.inodes[b.handles[h].inode].data, b.handles[h].inode);
    }
  }

  lemma OpenRootPersists(m: Memory, a: Snap, b: Snap, i: nat)
    requires OpensRoot(m, a, b) && i in a.inodes
    ensures i in b.inodes && SameInode(a.inodes[i], b.inodes[i])
  {
    if h: nat :| OpensRootAs(a, b, h) { assert Opened(a.inodes, b.inodes, 1, b.inodes[b.handles[h].inode].data, b.handles[h].inode); }
  }

  /** An inode that stays in memory stays the inode of its file, and a removed file stays removed. */
  lemma InodePersists(c: Call, m: Memory, a: Snap, b: Snap, i: nat)
    requires HasRoot(a.disk) && HasRoot(b.disk) && Effect(c, m, a, b) && i in a.inodes && i in b.inodes
    ensures SameInode(a.inodes[i], b.inodes[i])
  {
    match c
    case Remove(name) =>
      if k: nat :| RemovesEntry(name, m, a, b, k) { RemovedPersists(a, b, Root(a.disk)[k].sector, i); }
    case Open(name) => OpenPersists(name, m, a, b, i);
    case OpenRoot => OpenRootPersists(m, a, b, i);
    case _ =>
  }

  lemma RemovedPersists(a: Snap, b: Snap, h: nat, i: nat)
    requires i in a.inodes && h < |a.disk| && RemovedFile(a.inodes, b.inodes, h, Header(a.disk[h]), a.marked, b.marked, a.owner, b.owner)
    ensures i in b.inodes && SameInode(a.inodes[i], b.inodes[i])
  {
  }

  /** The call that gives handle h up. */
  predicate Ends(c: Call, h: nat) { (c.Close? || c.CloseDir?) && c.h == h }

  /** From a to b handle h has kept its kind and its inode, which is still that of the same file. */
  ghost predicate SameHandle(a: Snap, b: Snap, h: nat)
  {
    && h in a.handles && h in b.handles
    && b.handles[h].inode == a.handles[h].inode && b.handles[h].File? == a.handles[h].File?
    && a.handles[h].inode in a.inodes && a.handles[h].inode in b.inodes
    && SameInode(a.inodes[a.handles[h].inode], b.inodes[a.handles[h].inode])
  }

  lemma HandlePersists(c: Call, m: Memory, a: Snap, b: Snap, h: nat)
    requires HasRoot(a.disk) && HasRoot(b.disk) && Effect(c, m, a, b) && h in a.handles && !Ends(c, h)
    ensures h in b.handles && b.handles[h].inode == a.handles[h].inode && b.handles[h].File? == a.handles[h].File?
  {
    match c
    case Open(name) =>
      if g: nat, k: nat :| OpensAs(name, m, a, b, g, k) { assert g != h; }
    case OpenRoot =>
      if g: nat :| OpensRootAs(a, b, g) { assert g != h; }
    case Reopen(g) =>
    case _ =>
  }

  lemma FollowsKeepsHandle(c: Call, m: Memory, a: Snap, b: Snap, h: nat)
    requires Follows(c, m, a, b) && h in a.handles && !Ends(c, h)
    ensures SameHandle(a, b, h)
  {
    assert HandleOk(a.inodes, a.handles[h]);
    if CanCall(c, a.handles, a.file) {
      HandlePersists(c, m, a, b, h);
      assert HandleOk(b.inodes, b.handles[h]);
      InodePersists(c, m, a, b, a.handles[h].inode);
    }
  }

  lemma SameHandleTwice(a: Snap, b: Snap, c: Snap, h: nat)
    requires SameHandle(a, b, h) && SameHandle(b, c, h)
    ensures SameHandle(a, c, h)
  {
  }

  /** Over every run, an open handle refers to the same file until it is closed, whatever is opened,
      closed, created or removed in the meantime. */
  lemma {:induction false} TraceKeepsHandle(calls: seq<(Call, Memory)>, trace: seq<Snap>, n: nat, k: nat, h: nat)
    requires Traced(calls, trace) && n <= k <= |calls| && StateOk(trace[n]) && h in trace[n].handles
    requires forall j :: n <= j < k ==> !Ends(calls[j].0, h)
    ensures SameHandle(trace[n], trace[k], h)
    decreases k
  {
    if k == n {
      assert HandleOk(trace[n].inodes, trace[n].handles[h]);
    } else {
      TraceKeepsHandle(calls, trace, n, k - 1, h);
      LinkKeepsHandle(calls, trace, k - 1, h);
      SameHandleTwice(trace[n], trace[k - 1], trace[k], h);
    }
  }

  lemma LinkKeepsHandle(calls: seq<(Call, Memory)>, trace: seq<Snap>, n: nat, h: nat)
    requires Traced(calls, trace) && n < |calls| && h in trace[n].handles && !Ends(calls[n].0, h)
    ensures SameHandle(trace[n], trace[n + 1], h)
  {
    assert Linked(calls, trace, n);
    FollowsKeepsHandle(calls[n].0, calls[n].1, trace[n], trace[n + 1], h);
  }

  /** The file at f has been removed, and is still open through the in-memory inode i. */
  ghost predicate RemovedOpen(a: Snap, i: nat, f: nat)
  {
    i in a.inodes && a.inodes[i].sector == f && a.inodes[i].removed
  }

  /** The call closes the only handle that still refers to inode i. */
  ghost predicate LastClose(c: Call, a: Snap, i: nat)
  {
    c.Close? && CanCall(c, a.handles, a.file) && a.handles[c.h].inode == i && Holding(a.handles, i) == {c.h}
  }

  lemma OnlyHolder(handles: map<nat, Handle>, h: nat, i: nat)
    requires h in handles && handles[h].inode == i
    ensures Holding(handles, i) == {h} <==> |Holding(handles, i)| == 1
  {
    var s := Holding(handles, i);
    assert h in s;
    assert s == {h} + (s - {h});
  }

  /** Closing a handle of a removed file. */
  lemma CloseRemoved(h: nat, a: Snap, b: Snap, i: nat, f: nat)
    requires StateOk(a) && HasRoot(b.disk) && Closes(h, a, b) && RemovedOpen(a, i, f) && a.handles[h].inode == i
    ensures if Holding(a.handles, i) == {h} then Gone(a, b, f) && i !in b.inodes
            else RemovedOpen(b, i, f)
  {
    assert InodeOk(a.disk, a.owner, a.inodes[i]) && CountOk(a.inodes[i], a.handles, multiset{}, i);
    OnlyHolder(a.handles, h, i);
  }

  lemma CloseOther(h: nat, a: Snap, b: Snap, i: nat, f: nat)
    requires HasRoot(a.disk) && HasRoot(b.disk) && Closes(h, a, b) && RemovedOpen(a, i, f) && a.handles[h].inode != i
    ensures RemovedOpen(b, i, f)
  {
  }

  lemma CloseDirOther(h: nat, a: Snap, b: Snap, i: nat, f: nat)
    requires StateOk(a) && h in a.handles && a.handles[h].Dir? && ClosesDir(h, a, b) && RemovedOpen(a, i, f)
    ensures RemovedOpen(b, i, f)
  {
    assert HandleOk(a.inodes, a.handles[h]) && RemovedOk(Root(a.disk), a.inodes[i]);
  }

  lemma QuietRemoved(c: Call, m: Memory, a: Snap, b: Snap, i: nat, f: nat)
    requires HasRoot(a.disk) && HasRoot(b.disk) && Effect(c, m, a, b) && RemovedOpen(a, i, f) && !c.Close? && !c.CloseDir?
    ensures RemovedOpen(b, i, f)
  {
    match c
    case Remove(name) =>
      if k: nat :| RemovesEntry(name, m, a, b, k) { RemovedPersists(a, b, Root(a.disk)[k].sector, i); }
    case Open(name) => OpenPersists(name, m, a, b, i);
    case OpenRoot => OpenRootPersists(m, a, b, i);
    case _ =>
  }

  /** One call, while a removed file is open: the file goes if and only if the call closes its last
      handle, and otherwise it is still there, removed and open. */
  lemma RemovedStep(c: Call, m: Memory, a: Snap, b: Snap, i: nat, f: nat)
    requires Follows(c, m, a, b) && RemovedOpen(a, i, f)
    ensures if LastClose(c, a, i) then Gone(a, b, f) && i !in b.inodes else RemovedOpen(b, i, f)
  {
    if CanCall(c, a.handles, a.file) {
      if c.Close? && a.handles[c.h].inode == i {
        CloseRemoved(c.h, a, b, i, f);
      } else if c.Close? {
        CloseOther(c.h, a, b, i, f);
      } else if c.CloseDir? {
        CloseDirOther(c.h, a, b, i, f);
      } else {
        QuietRemoved(c, m, a, b, i, f);
      }
    }
  }

  lemma RemovedIsLive(a: Snap, i: nat, f: nat)
    requires StateOk(a) && RemovedOpen(a, i, f)
    ensures Head(a.owner, f) && f >= 2
  {
    assert InodeOk(a.disk, a.owner, a.inodes[i]) && RemovedOk(Root(a.disk), a.inodes[i]);
  }

  lemma LinkRemoved(calls: seq<(Call, Memory)>, trace: seq<Snap>, n: nat, i: nat, f: nat)
    requires Traced(calls, trace) && n < |calls| && RemovedOpen(trace[n], i, f)
    ensures StateOk(trace[n]) && StateOk(trace[n + 1])
    ensures LastClose(calls[n].0, trace[n], i) ==> Gone(trace[n], trace[n + 1], f)
    ensures !LastClose(calls[n].0, trace[n], i) ==> RemovedOpen(trace[n + 1], i, f) && !Gone(trace[n], trace[n + 1], f)
  {
    assert Linked(calls, trace, n);
    RemovedStep(calls[n].0, calls[n].1, trace[n], trace[n + 1], i, f);
    if RemovedOpen(trace[n + 1], i, f) { RemovedIsLive(trace[n + 1], i, f); }
  }

  /** Delayed deletion over every run: a file removed while open stays there, removed and open,
      until its last handle is closed, and a call frees it if and only if it closes that handle. */
  lemma {:induction false} DelayedDeletion(calls: seq<(Call, Memory)>, trace: seq<Snap>, n: nat, k: nat, i: nat, f: nat)
    requires Traced(calls, trace) && n <= k < |calls| && RemovedOpen(trace[n], i, f)
    requires forall j :: n <= j < k ==> !LastClose(calls[j].0, trace[j], i)
    ensures RemovedOpen(trace[k], i, f) && Head(trace[k].owner, f)
    ensures Gone(trace[k], trace[k + 1], f) <==> LastClose(calls[k].0, trace[k], i)
    decreases k
  {
    if n < k {
      DelayedDeletion(calls, trace, n, k - 1, i, f);
      LinkRemoved(calls, trace, k - 1, i, f);
    }
    LinkRemoved(calls, trace, k, i, f);
    RemovedIsLive(trace[k], i, f);
  }

  /** How many bytes of the buffer a write through h in state a puts into the file. */
  ghost function WriteCount(a: Snap, h: nat, buffer: seq<byte>, m: Memory): (n: nat)
    requires h in a.handles && a.handles[h].inode in a.inodes
    ensures n <= |buffer|
  {
    var x := a.inodes[a.handles[h].inode];
    if x.denyWriteCnt > 0 then 0 else Transfer(|buffer|, a.handles[h].pos, x.data.length, m.write)
  }

  /** The inode sector of the file that h is open on. */
  ghost function SectorOf(a: Snap, h: nat): nat
    requires h in a.handles && a.handles[h].inode in a.inodes
  {
    a.inodes[a.handles[h].inode].sector
  }

  /** In state b the file written through h in state a has the contents it had in a, with the bytes
      written in their place. */
  ghost predicate HasWrite(a: Snap, b: Snap, h: nat, buffer: seq<byte>, m: Memory)
    requires h in a.handles && a.handles[h].inode in a.inodes
  {
    var f := a.handles[h];
    var x, w := a.inodes[f.inode], WriteCount(a, h, buffer, m);
    && OnDisk(|a.disk|, x.data) && |b.disk| == |a.disk| && x.sector < |b.disk| && Header(b.disk[x.sector]) == x.data
    && (w > 0 ==> f.pos + w <= x.data.length && Contents(b.disk, x.data) == Spliced(Contents(a.disk, x.data), f.pos, buffer[..w]))
  }

  lemma WriteContents(c: Call, m: Memory, a: Snap, b: Snap)
    requires StateOk(a) && StateOk(b) && c.Write? && CanCall(c, a.handles, a.file) && WritesFile(c.h, c.buffer, m, a, b)
    ensures HasWrite(a, b, c.h, c.buffer, m)
    ensures InodeOk(b.disk, b.owner, a.inodes[a.handles[c.h].inode])
  {
    var f := a.handles[c.h];
    assert HandleOk(a.inodes, f);
    InodeOnDisk(a.disk, a.marked, a.owner, a.inodes, f.inode);
    assert InodeOk(b.disk, b.owner, b.inodes[f.inode]);
    var x, w := a.inodes[f.inode], WriteCount(a, c.h, c.buffer, m);
    if w > 0 { WrittenContents(a.disk, b.disk, x.data, f.pos, c.buffer[..w]); }
  }

  /** A later state in which the file is still as the write left it. */
  lemma WriteKept(c: Call, m: Memory, a: Snap, b: Snap, e: Snap)
    requires StateOk(a) && StateOk(b) && c.Write? && CanCall(c, a.handles, a.file) && WritesFile(c.h, c.buffer, m, a, b)
    requires SameFile(b.disk, e.disk, SectorOf(a, c.h))
    ensures HasWrite(a, e, c.h, c.buffer, m)
  {
    WriteContents(c, m, a, b);
  }

  /** What was written stays written: from the write at call n until some later call writes or frees
      the file, its contents are those before the write with the bytes put in their place, however
      many files are opened, closed, created, removed or written in between. */
  lemma WriteSurvives(calls: seq<(Call, Memory)>, trace: seq<Snap>, n: nat, k: nat)
    requires Traced(calls, trace) && n < k <= |calls|
    requires calls[n].0.Write? && CanCall(calls[n].0, trace[n].handles, trace[n].file)
    requires trace[n].handles[calls[n].0.h].inode in trace[n].inodes && SectorOf(trace[n], calls[n].0.h) >= 2
    requires SparedBetween(calls, trace, n + 1, k, SectorOf(trace[n], calls[n].0.h))
    ensures HasWrite(trace[n], trace[k], calls[n].0.h, calls[n].0.buffer, calls[n].1)
  {
    assert Linked(calls, trace, n);
    assert InodeOk(trace[n].disk, trace[n].owner, trace[n].inodes[trace[n].handles[calls[n].0.h].inode]);
    KeptBetween(calls, trace, n + 1, k, SectorOf(trace[n], calls[n].0.h));
    WriteKept(calls[n].0, calls[n].1, trace[n], trace[n + 1], trace[k]);
  }

  // ----- what calls return over runs

  /** Reply n is that to call n; a call that cannot be made has none to give. */
  ghost predicate Replied(calls: seq<(Call, Memory)>, trace: seq<Snap>, replies: seq<Reply>, n: nat)
    requires n < |calls| && n + 1 < |trace| && n < |replies|
  {
    && HasRoot(trace[n].disk) && HasRoot(trace[n + 1].disk)
    && if CanCall(calls[n].0, trace[n].handles, trace[n].file) then Answers(calls[n].0, calls[n].1, trace[n], trace[n + 1], replies[n])
       else replies[n] == Done
  }

  ghost predicate AllReplied(calls: seq<(Call, Memory)>, trace: seq<Snap>, replies: seq<Reply>)
    requires |trace| == |calls| + 1
  {
    |replies| == |calls| && forall n {:trigger Replied(calls, trace, replies, n)} :: 0 <= n < |calls| ==> Replied(calls, trace, replies, n)
  }

  lemma RepliesGrow(calls: seq<(Call, Memory)>, t: seq<Snap>, trace: seq<Snap>, r: seq<Reply>, replies: seq<Reply>, n: nat)
    requires |t| == n + 1 && |trace| == n + 2 && trace[..n + 1] == t && |r| == n && |replies| == n + 1 && replies[..n] == r && n < |calls|
    requires forall j {:trigger Replied(calls, t, r, j)} :: 0 <= j < n ==> Replied(calls, t, r, j)
    requires Replied(calls, trace, replies, n)
    ensures forall j {:trigger Replied(calls, trace, replies, j)} :: 0 <= j < n + 1 ==> Replied(calls, trace, replies, j)
  {
    forall j | 0 <= j < n
      ensures Replied(calls, trace, replies, j)
    {
      assert Replied(calls, t, r, j);
    }
  }

  /** What a read through g in state e gives is what a write through h in state a has left. */
  ghost predicate ReadsWrite(a: Snap, h: nat, buffer: seq<byte>, n: nat, e: Snap, g: nat, data: seq<byte>)
    requires h in a.handles && a.handles[h].inode in a.inodes && g in e.handles && n <= |buffer|
  {
    var x, p := a.inodes[a.handles[h].inode], a.handles[h].pos;
    && OnDisk(|a.disk|, x.data) && p + n <= x.data.length
    && Reads(Spliced(Contents(a.disk, x.data), p, buffer[..n]), e.handles[g].pos, data)
  }

  lemma ReadBack(a: Snap, h: nat, buffer: seq<byte>, m: Memory, e: Snap, g: nat, count: int, m': Memory, data: seq<byte>)
    requires h in a.handles && a.handles[h].inode in a.inodes && HasWrite(a, e, h, buffer, m) && WriteCount(a, h, buffer, m) > 0
    requires StateOk(e) && ReadAnswer(e, g, count, m', data) && SectorOf(e, g) == SectorOf(a, h)
    ensures ReadsWrite(a, h, buffer, WriteCount(a, h, buffer, m), e, g, data)
  {
    assert InodeOk(e.disk, e.owner, e.inodes[e.handles[g].inode]);
  }

  /** Read after write, over every run and through any handles: when call n has written w bytes, and no
      call between n and k writes or frees the file, then a read of it by call k returns bytes of what
      the file held before call n with these bytes put in their place. */
  lemma ReadReturnsWrite(calls: seq<(Call, Memory)>, trace: seq<Snap>, replies: seq<Reply>, n: nat, k: nat)
    requires Traced(calls, trace) && AllReplied(calls, trace, replies) && n < k < |calls|
    requires calls[n].0.Write? && CanCall(calls[n].0, trace[n].handles, trace[n].file)
    requires calls[k].0.Read? && CanCall(calls[k].0, trace[k].handles, trace[k].file)
    requires trace[n].handles[calls[n].0.h].inode in trace[n].inodes && trace[k].handles[calls[k].0.h].inode in trace[k].inodes
    requires SectorOf(trace[n], calls[n].0.h) == SectorOf(trace[k], calls[k].0.h) >= 2
    requires SparedBetween(calls, trace, n + 1, k, SectorOf(trace[n], calls[n].0.h))
    ensures replies[n].Count? && replies[n].n <= |calls[n].0.buffer| && replies[k].Bytes?
    ensures replies[n].n > 0 ==>
              ReadsWrite(trace[n], calls[n].0.h, calls[n].0.buffer, replies[n].n, trace[k], calls[k].0.h, replies[k].data)
  {
    assert Replied(calls, trace, replies, n) && Replied(calls, trace, replies, k);
    if replies[n].n > 0 {
      WriteSurvives(calls, trace, n, k);
      assert StateOk(trace[k]) by { assert Linked(calls, trace, k); }
      ReadBack(trace[n], calls[n].0.h, calls[n].0.buffer, calls[n].1, trace[k], calls[k].0.h, calls[k].0.count, calls[k].1, replies[k].data);
    }
  }

  // ----- the free map over runs

  /** The free map file has the right size, and only the kernel's own handle, which does not deny
      writing, is open on it. */
  ghost predicate MapReady(a: Snap)
  {
    && |a.disk| > 0 && Header(a.disk[0]).length == 4 * WordCount(|a.marked|)
    && a.file.Some? && a.file.value in a.handles && a.handles[a.file.value].File? && !a.handles[a.file.value].denyWrite
    && forall g {:trigger OnMap(a, g)} :: g in a.handles && OnMap(a, g) ==> g == a.file.value
  }

  /** Handle g is open on the free map file. */
  ghost predicate OnMap(a: Snap, g: nat)
  {
    g in a.handles && a.handles[g].inode in a.inodes && a.inodes[a.handles[g].inode].sector == 0
  }

  /** Memory lasts for writing the free map. */
  predicate WritesMap(m: Memory) { m.bounces(0) && m.bounces(1) && m.bounces(2) }

  lemma ReadyCanSave(a: Snap, m: Memory)
    requires StateOk(a) && MapReady(a) && WritesMap(m)
    ensures CanSaveAll(a.file, a.inodes, a.handles, 4 * WordCount(|a.marked|), m)
  {
    var i := a.handles[a.file.value].inode;
    assert InodeOk(a.disk, a.owner, a.inodes[i]) && CountOk(a.inodes[i], a.handles, multiset{}, i);
    forall g | g in a.handles && a.handles[g].inode == i
      ensures g == a.file.value
    {
      assert OnMap(a, g);
    }
    assert Denying(a.handles, i) == {};
  }

  /** A handle that a call adds is not on the free map file. */
  lemma NewNotOnMap(c: Call, m: Memory, a: Snap, b: Snap, g: nat)
    requires StateOk(a) && HasRoot(b.disk) && MapReady(a) && CanCall(c, a.handles, a.file) && Effect(c, m, a, b)
    requires g in b.handles && g !in a.handles
    ensures !OnMap(b, g)
  {
    match c
    case Open(name) =>
      var h: nat, k: nat :| OpensAs(name, m, a, b, h, k);
      EntryLive(a.disk, a.marked, a.owner, a.inodes, k);
    case Reopen(h) =>
      assert !OnMap(a, h);
    case OpenRoot =>
      var h: nat :| OpensRootAs(a, b, h);
    case _ =>
  }

  /** The kernel's own handle is not touched. */
  lemma MapHandleKept(c: Call, m: Memory, a: Snap, b: Snap)
    requires StateOk(a) && HasRoot(b.disk) && MapReady(a) && CanCall(c, a.handles, a.file) && Effect(c, m, a, b)
    ensures b.file == a.file && b.file.value in b.handles && b.handles[b.file.value] == a.handles[a.file.value]
  {
    match c
    case Open(name) =>
      if h: nat, k: nat :| OpensAs(name, m, a, b, h, k) { assert h != a.file.value; }
    case OpenRoot =>
      if h: nat :| OpensRootAs(a, b, h) { assert h != a.file.value; }
    case Reopen(h) =>
    case _ =>
  }

  lemma MapHeaderKept(c: Call, m: Memory, a: Snap, b: Snap)
    requires StateOk(a) && StateOk(b) && Effect(c, m, a, b)
    ensures |b.disk| == |a.disk| && |b.marked| == |a.marked| && Header(b.disk[0]) == Header(a.disk[0])
  {
    assert SectorOwned(a.disk, a.marked, a.owner, 0);
  }

  lemma FollowsReady(c: Call, m: Memory, a: Snap, b: Snap)
    requires Follows(c, m, a, b) && MapReady(a)
    ensures MapReady(b)
  {
    if CanCall(c, a.handles, a.file) {
      MapHeaderKept(c, m, a, b);
      MapHandleKept(c, m, a, b);
      forall g | g in b.handles && OnMap(b, g)
        ensures g == b.file.value
      {
        if g !in a.handles {
          NewNotOnMap(c, m, a, b, g);
        } else if !Ends(c, g) {
          FollowsKeepsHandle(c, m, a, b, g);
          assert OnMap(a, g);
        }
      }
    }
  }

  lemma FollowsSaved(c: Call, m: Memory, a: Snap, b: Snap)
    requires Follows(c, m, a, b) && MapReady(a) && MapSaved(a.disk, a.marked) && WritesMap(m)
    ensures MapSaved(b.disk, b.marked)
  {
    FollowsReady(c, m, a, b);
    ReadyCanSave(b, m);
    if CanCall(c, a.handles, a.file) && c.Write? {
      assert !OnMap(a, c.h);
      SavedKept(a.disk, b.disk, a.marked, a.owner, {a.inodes[a.handles[c.h].inode].sector}, a.marked);
    }
  }

  /** The free map on the disk follows the one in memory: over every run in which memory lasts for
      writing it, it is saved again after every call. */
  lemma {:induction false} TraceSavesMap(calls: seq<(Call, Memory)>, trace: seq<Snap>, n: nat)
    requires Traced(calls, trace) && n <= |calls| && MapReady(trace[0]) && MapSaved(trace[0].disk, trace[0].marked)
    requires forall j :: 0 <= j < n ==> WritesMap(calls[j].1)
    ensures MapReady(trace[n]) && MapSaved(trace[n].disk, trace[n].marked)
    decreases n
  {
    if n > 0 {
      TraceSavesMap(calls, trace, n - 1);
      assert Linked(calls, trace, n - 1) && WritesMap(calls[n - 1].1);
      FollowsReady(calls[n - 1].0, calls[n - 1].1, trace[n - 1], trace[n]);
      FollowsSaved(calls[n - 1].0, calls[n - 1].1, trace[n - 1], trace[n]);
    }
  }

  /** The disk can be mounted, with these files and the free map in these words. */
  ghost predicate Mountable(disk: seq<Sector>, files: Owner, words: seq<Word>)
  {
    && |words| == WordCount(|disk|) && Owned(disk, BitsOf(words, |disk|), files) && RootOk(disk, files, map[])
    && Header(disk[0]).length == 4 * |words| && FreeMapSaved(disk, words)
  }

  /** Whenever the free map is saved, the disk can be mounted, with every file that has a name and the
      same sectors taken. */
  lemma Remountable(a: Snap) returns (words: seq<Word>)
    requires StateOk(a) && MapReady(a) && MapSaved(a.disk, a.marked)
    ensures Mountable(a.disk, a.owner, words) && BitsOf(words, |a.disk|) == a.marked
  {
    words :| SavedAs(a.disk, a.marked, words);
    RootInodes(a.disk, a.owner, a.inodes, map[]);
  }
}
