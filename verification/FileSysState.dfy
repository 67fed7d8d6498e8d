/** The state of the file system and what every operation keeps: which file owns which sector
    (ghost), the in-memory inodes and the handles that refer to them. */
module FileSysState {
  import opened Wrappers
  import opened Slices
  import opened Bytes
  import opened Bitmap
  import opened InodeData
  import opened Directory

  /** struct inode; in-memory inodes are named by their address. */
  datatype Inode = Inode(sector: nat, openCnt: nat, removed: bool, denyWriteCnt: nat, data: InodeDisk)

  /** struct file and struct dir. */
  datatype Handle =
    | File(inode: nat, pos: nat, denyWrite: bool)
    | Dir(inode: nat, pos: nat)

  // ----- sectors and their owners

  /** Maps each sector in use to the inode sector of the file it belongs to. */
  type Owner = map<nat, nat>

  /** Sector h holds the inode of a live or still open file. */
  ghost predicate Head(owner: Owner, h: nat) { h in owner && owner[h] == h }

  /** The run of the file at h is on the disk and belongs to it alone. */
  ghost predicate RunOwned(disk: seq<Sector>, owner: Owner, h: nat)
  {
    h < |disk| &&
    var d := Header(disk[h]);
    && d.length + 511 < 0x8000_0000 && OnDisk(|disk|, d)
    && forall s: nat :: InRun(d, s) ==> s in owner && owner[s] == h && s != h
  }

  /** An owned sector is marked, and is its file's inode sector or in its run. */
  ghost predicate SectorOwned(disk: seq<Sector>, marked: seq<bool>, owner: Owner, s: nat)
    requires s in owner && |marked| == |disk|
  {
    && s < |disk| && marked[s] && Head(owner, owner[s]) && owner[s] < |disk|
    && (s == owner[s] || InRun(Header(disk[owner[s]]), s))
  }

  ghost predicate Owned(disk: seq<Sector>, marked: seq<bool>, owner: Owner)
  {
    && |marked| == |disk|
    && (forall s {:trigger SectorOwned(disk, marked, owner, s)} :: s in owner ==> SectorOwned(disk, marked, owner, s))
    && (forall h: nat {:trigger RunOwned(disk, owner, h)} :: Head(owner, h) ==> RunOwned(disk, owner, h))
  }

  /** Nothing but data sectors of the files fs, and sectors nobody owns, has changed. */
  ghost predicate OnlyData(disk: seq<Sector>, disk': seq<Sector>, owner: Owner, fs: set<nat>)
  {
    && |disk'| == |disk|
    && forall s {:trigger disk'[s]} :: s in owner && s < |disk| && (s == owner[s] || owner[s] !in fs) ==> disk'[s] == disk[s]
  }

  lemma OnlyDataTwice(d0: seq<Sector>, d1: seq<Sector>, d2: seq<Sector>, owner: Owner, fs: set<nat>, fs': set<nat>)
    requires OnlyData(d0, d1, owner, fs) && OnlyData(d1, d2, owner, fs')
    ensures OnlyData(d0, d2, owner, fs + fs')
  {
  }

  lemma OnlyDataDisown(disk: seq<Sector>, disk': seq<Sector>, owner: Owner, h: nat, fs: set<nat>)
    requires OnlyData(disk, disk', owner, fs)
    ensures OnlyData(disk, disk', Disowned(owner, h), fs)
  {
  }

  /** A write to fs, and then a close that may free the file at h. */
  lemma OnlyDataClose(d0: seq<Sector>, d1: seq<Sector>, d2: seq<Sector>, owner: Owner, owner': Owner, h: nat)
    requires OnlyData(d0, d1, owner, {1}) && OnlyData(d1, d2, owner', {0}) && (owner' == owner || owner' == Disowned(owner, h))
    ensures OnlyData(d0, d2, owner', {0, 1})
  {
    OnlyDataDisown(d0, d1, owner, h, {1});
    OnlyDataTwice(d0, d1, d2, owner', {1}, {0});
    assert {1} + {0} == {0, 1};
  }

  /** Free sectors have no owner. */
  lemma FreeUnowned(disk: seq<Sector>, marked: seq<bool>, owner: Owner, s: nat)
    requires Owned(disk, marked, owner) && s < |marked| && !marked[s]
    ensures s !in owner
  {
    assert s in owner ==> SectorOwned(disk, marked, owner, s);
  }

  ghost predicate Marks(marked: seq<bool>, marked': seq<bool>, owner: Owner)
  {
    |marked'| == |marked| && forall s :: s in owner && s < |marked| && marked[s] ==> marked'[s]
  }

  lemma OwnedFrame(disk: seq<Sector>, disk': seq<Sector>, marked: seq<bool>, marked': seq<bool>, owner: Owner, fs: set<nat>)
    requires Owned(disk, marked, owner) && OnlyData(disk, disk', owner, fs) && Marks(marked, marked', owner)
    ensures Owned(disk', marked', owner)
  {
    forall s | s in owner
      ensures SectorOwned(disk', marked', owner, s)
    {
      assert SectorOwned(disk, marked, owner, s);
      assert disk'[owner[s]] == disk[owner[s]];
    }
    forall h: nat | Head(owner, h)
      ensures RunOwned(disk', owner, h)
    {
      assert RunOwned(disk, owner, h) && disk'[h] == disk[h];
    }
  }

  /** The files of two inode sectors share no sector, and all their sectors are marked. */
  lemma FilesDisjoint(disk: seq<Sector>, marked: seq<bool>, owner: Owner, h: nat, k: nat)
    requires Owned(disk, marked, owner) && Head(owner, h) && Head(owner, k) && h != k
    ensures h < |disk| && k < |disk| && marked[h] && marked[k]
    ensures !InRun(Header(disk[h]), h) && !InRun(Header(disk[h]), k) && !InRun(Header(disk[k]), h)
    ensures forall s: nat :: InRun(Header(disk[h]), s) ==> s < |disk| && marked[s] && !InRun(Header(disk[k]), s)
  {
    assert SectorOwned(disk, marked, owner, h) && SectorOwned(disk, marked, owner, k);
    assert RunOwned(disk, owner, h) && RunOwned(disk, owner, k);
    forall s: nat | InRun(Header(disk[h]), s)
      ensures s < |disk| && marked[s] && !InRun(Header(disk[k]), s)
    {
      assert SectorOwned(disk, marked, owner, s);
    }
  }

  /** A write to one file touches only its data sectors. */
  lemma WrittenIsOnlyData(disk: seq<Sector>, disk': seq<Sector>, marked: seq<bool>, owner: Owner, h: nat, off: nat, data: seq<byte>)
    requires Owned(disk, marked, owner) && Head(owner, h)
    requires h < |disk| && Written(disk, disk', Header(disk[h]).start, off, data)
    requires off + |data| <= Header(disk[h]).length || data == []
    ensures OnlyData(disk, disk', owner, {h})
  {
    var d := Header(disk[h]);
    assert RunOwned(disk, owner, h);
    forall s | s in owner && s < |disk| && (s == owner[s] || owner[s] !in {h})
      ensures disk'[s] == disk[s]
    {
      if data == [] {
        assert SectorWritten(disk[s], disk'[s], 512 * (s - d.start), off, data);
      } else {
        WrittenOutside(disk, disk', d, off, data, s);
      }
    }
  }

  /** A file not among fs keeps its header and contents. */
  lemma FileKept(disk: seq<Sector>, disk': seq<Sector>, marked: seq<bool>, owner: Owner, fs: set<nat>, h: nat)
    requires Owned(disk, marked, owner) && OnlyData(disk, disk', owner, fs) && Head(owner, h) && h !in fs
    ensures h < |disk| && Header(disk'[h]) == Header(disk[h]) && OnDisk(|disk|, Header(disk[h]))
    ensures Contents(disk', Header(disk[h])) == Contents(disk, Header(disk[h]))
  {
    assert RunOwned(disk, owner, h);
    var d := Header(disk[h]);
    forall p | 0 <= p < d.length
      ensures disk'[d.start + p / 512] == disk[d.start + p / 512]
    {
      assert InRun(d, d.start + p / 512);
    }
  }

  /** The file at h has the same header and contents. */
  ghost predicate SameFile(disk: seq<Sector>, disk': seq<Sector>, h: nat)
  {
    && h < |disk| == |disk'| && Header(disk'[h]) == Header(disk[h]) && OnDisk(|disk|, Header(disk[h]))
    && Contents(disk', Header(disk[h])) == Contents(disk, Header(disk[h]))
  }

  lemma LiveFile(disk: seq<Sector>, marked: seq<bool>, owner: Owner, h: nat)
    requires Owned(disk, marked, owner) && Head(owner, h)
    ensures SameFile(disk, disk, h)
  {
    assert RunOwned(disk, owner, h);
  }

  /** A file that was not written, and is still there after another one may have gone, is the same. */
  lemma OtherFileKept(disk: seq<Sector>, disk': seq<Sector>, marked: seq<bool>, owner: Owner, owner': Owner, gone: nat, fs: set<nat>, h: nat)
    requires Owned(disk, marked, owner) && (owner' == owner || owner' == Disowned(owner, gone))
    requires OnlyData(disk, disk', owner', fs) && Head(owner', h) && h !in fs
    ensures SameFile(disk, disk', h)
  {
    DisownOwned(disk, marked, owner, gone);
    FileKept(disk, disk', marked, owner', fs, h);
  }

  // ----- creating and releasing files

  ghost function Adopted(owner: Owner, h: nat, d: InodeDisk): Owner
  {
    owner + map s: nat | 0 <= s <= h + d.start + Sectors(d.length) && (s == h || InRun(d, s)) :: h
  }

  ghost function Disowned(owner: Owner, h: nat): Owner
  {
    map s | s in owner && owner[s] != h :: owner[s]
  }

  ghost predicate ZeroRun(disk: seq<Sector>, d: InodeDisk)
  {
    OnDisk(|disk|, d) && forall s: nat :: InRun(d, s) ==> disk[s] == seq(512, _ => 0)
  }

  /** A file of zero sectors reads as zeros. */
  lemma ZeroContents(disk: seq<Sector>, d: InodeDisk)
    requires ZeroRun(disk, d)
    ensures Contents(disk, d) == seq(d.length, _ => 0)
  {
    forall p | 0 <= p < d.length
      ensures Contents(disk, d)[p] == 0
    {
      assert InRun(d, d.start + p / 512);
    }
  }

  lemma ZeroKept(disk: seq<Sector>, disk': seq<Sector>, marked: seq<bool>, owner: Owner, fs: set<nat>, h: nat)
    requires Owned(disk, marked, owner) && OnlyData(disk, disk', owner, fs) && Head(owner, h) && h !in fs
    requires h < |disk| && ZeroRun(disk, Header(disk[h]))
    ensures disk'[h] == disk[h] && ZeroRun(disk', Header(disk[h]))
  {
    assert RunOwned(disk, owner, h);
  }

  /** h and the run d are marked sectors that nobody owns. */
  ghost predicate Spare(marked: seq<bool>, owner: Owner, h: nat, d: InodeDisk)
  {
    && h < |marked| && marked[h] && h !in owner && !InRun(d, h)
    && d.length + 511 < 0x8000_0000 && OnDisk(|marked|, d)
    && forall s: nat :: InRun(d, s) ==> marked[s] && s !in owner
  }

  lemma AdoptOwned(disk: seq<Sector>, marked: seq<bool>, owner: Owner, h: nat, d: InodeDisk)
    requires Owned(disk, marked, owner) && Spare(marked, owner, h, d) && Header(disk[h]) == d
    ensures Owned(disk, marked, Adopted(owner, h, d)) && Head(Adopted(owner, h, d), h)
  {
    var owner' := Adopted(owner, h, d);
    forall s | s in owner'
      ensures SectorOwned(disk, marked, owner', s)
    {
      if s in owner { assert SectorOwned(disk, marked, owner, s); }
    }
    forall k: nat | Head(owner', k)
      ensures RunOwned(disk, owner', k)
    {
      if k != h { assert Head(owner, k) && RunOwned(disk, owner, k); }
    }
  }

  lemma DisownOwned(disk: seq<Sector>, marked: seq<bool>, owner: Owner, h: nat)
    requires Owned(disk, marked, owner)
    ensures Owned(disk, marked, Disowned(owner, h))
  {
    var owner' := Disowned(owner, h);
    forall s | s in owner'
      ensures SectorOwned(disk, marked, owner', s)
    {
      assert SectorOwned(disk, marked, owner, s);
    }
    forall k: nat | Head(owner', k)
      ensures RunOwned(disk, owner', k)
    {
      assert Head(owner, k) && RunOwned(disk, owner, k);
    }
  }

  /** Creating a file and disowning it again leaves the other owners as they were. */
  lemma AdoptDisown(owner: Owner, h: nat, d: InodeDisk)
    requires forall s :: s in owner ==> owner[s] != h && !InRun(d, s)
    requires h !in owner
    ensures Disowned(Adopted(owner, h, d), h) == owner
  {
  }

  // ----- in-memory inodes

  /** Every open inode is that of a live file and caches its header; no two share a sector. */
  ghost predicate InodesOk(disk: seq<Sector>, owner: Owner, inodes: map<nat, Inode>)
  {
    && (forall i {:trigger InodeOk(disk, owner, inodes[i])} :: i in inodes ==> InodeOk(disk, owner, inodes[i]))
    && (forall i, j {:trigger Apart(inodes, i, j)} :: i in inodes && j in inodes && i != j ==> Apart(inodes, i, j))
  }

  ghost predicate Apart(inodes: map<nat, Inode>, i: nat, j: nat)
    requires i in inodes && j in inodes
  {
    inodes[i].sector != inodes[j].sector
  }

  ghost predicate InodeOk(disk: seq<Sector>, owner: Owner, inode: Inode)
  {
    inode.sector < |disk| && Head(owner, inode.sector) && inode.data == Header(disk[inode.sector])
  }

  lemma InodesFrame(disk: seq<Sector>, disk': seq<Sector>, owner: Owner, owner': Owner, inodes: map<nat, Inode>, fs: set<nat>)
    requires InodesOk(disk, owner, inodes) && OnlyData(disk, disk', owner, fs)
    requires forall i :: i in inodes ==> Head(owner', inodes[i].sector)
    ensures InodesOk(disk', owner', inodes)
  {
    forall i | i in inodes
      ensures InodeOk(disk', owner', inodes[i])
    {
      assert InodeOk(disk, owner, inodes[i]);
    }
  }

  /** Writing through an open inode changes only data sectors of its file. */
  lemma InodeWrite(disk: seq<Sector>, disk': seq<Sector>, marked: seq<bool>, owner: Owner, inodes: map<nat, Inode>, i: nat, off: nat, data: seq<byte>)
    requires Owned(disk, marked, owner) && InodesOk(disk, owner, inodes) && i in inodes
    requires Written(disk, disk', inodes[i].data.start, off, data)
    requires off + |data| <= inodes[i].data.length || data == []
    ensures OnlyData(disk, disk', owner, {inodes[i].sector})
    ensures Owned(disk', marked, owner) && InodesOk(disk', owner, inodes)
  {
    assert InodeOk(disk, owner, inodes[i]);
    WrittenIsOnlyData(disk, disk', marked, owner, inodes[i].sector, off, data);
    OwnedFrame(disk, disk', marked, marked, owner, {inodes[i].sector});
    SameHeads(disk, owner, inodes);
    InodesFrame(disk, disk', owner, owner, inodes, {inodes[i].sector});
  }

  lemma InodeOnDisk(disk: seq<Sector>, marked: seq<bool>, owner: Owner, inodes: map<nat, Inode>, i: nat)
    requires Owned(disk, marked, owner) && InodesOk(disk, owner, inodes) && i in inodes
    ensures InodeOk(disk, owner, inodes[i]) && OnDisk(|disk|, inodes[i].data)
  {
    assert InodeOk(disk, owner, inodes[i]);
    assert RunOwned(disk, owner, inodes[i].sector);
  }

  lemma SameHeads(disk: seq<Sector>, owner: Owner, inodes: map<nat, Inode>)
    requires InodesOk(disk, owner, inodes)
    ensures forall i :: i in inodes ==> Head(owner, inodes[i].sector)
  {
    forall i | i in inodes
      ensures Head(owner, inodes[i].sector)
    {
      assert InodeOk(disk, owner, inodes[i]);
    }
  }

  // ----- the root directory

  /** The root directory, in the file with inode sector 1, has 16 entries. */
  ghost predicate HasRoot(disk: seq<Sector>)
  {
    |disk| >= 2 && Header(disk[1]).length == 320 && OnDisk(|disk|, Header(disk[1]))
  }

  ghost function Root(disk: seq<Sector>): (es: seq<Entry>)
    requires HasRoot(disk)
    ensures |es| == 16
  {
    Entries(Contents(disk, Header(disk[1])))
  }

  /** Entries in use name distinct live files, none of them the free map or the root itself, and
      no removed file. */
  ghost predicate EntriesOk(es: seq<Entry>, owner: Owner, inodes: map<nat, Inode>)
  {
    && NamesOk(es)
    && (forall k {:trigger EntryOk(es[k], owner)} :: 0 <= k < |es| ==> EntryOk(es[k], owner))
    && (forall j, k {:trigger EntriesApart(es[j], es[k])} :: 0 <= j < k < |es| ==> EntriesApart(es[j], es[k]))
    && (forall i {:trigger RemovedOk(es, inodes[i])} :: i in inodes ==> RemovedOk(es, inodes[i]))
  }

  ghost predicate EntryOk(e: Entry, owner: Owner) { e.inUse ==> e.sector >= 2 && Head(owner, e.sector) }

  ghost predicate EntriesApart(e: Entry, f: Entry) { e.inUse && f.inUse ==> e.sector != f.sector }

  ghost predicate RemovedOk(es: seq<Entry>, x: Inode) { x.removed ==> x.sector >= 2 && Unlinked(es, x.sector) }

  ghost predicate Unlinked(es: seq<Entry>, h: nat)
  {
    forall k :: 0 <= k < |es| && es[k].inUse ==> es[k].sector != h
  }

  ghost predicate RootOk(disk: seq<Sector>, owner: Owner, inodes: map<nat, Inode>)
  {
    HasRoot(disk) && Head(owner, 0) && Head(owner, 1) && EntriesOk(Root(disk), owner, inodes)
  }

  lemma RootFrame(disk: seq<Sector>, disk': seq<Sector>, marked: seq<bool>, owner: Owner, inodes: map<nat, Inode>, fs: set<nat>)
    requires Owned(disk, marked, owner) && OnlyData(disk, disk', owner, fs) && RootOk(disk, owner, inodes) && 1 !in fs
    ensures HasRoot(disk') && Root(disk') == Root(disk) && RootOk(disk', owner, inodes)
  {
    FileKept(disk, disk', marked, owner, fs, 1);
  }

  /** A root directory of zeros is empty. */
  lemma EmptyRoot(disk: seq<Sector>, owner: Owner, inodes: map<nat, Inode>)
    requires |disk| >= 2 && ZeroRun(disk, Header(disk[1])) && Header(disk[1]).length == 320
    requires Head(owner, 0) && Head(owner, 1) && forall i :: i in inodes ==> !inodes[i].removed
    ensures RootOk(disk, owner, inodes) && forall k :: 0 <= k < 16 ==> !Root(disk)[k].inUse
  {
    ZeroContents(disk, Header(disk[1]));
    var c, es := Contents(disk, Header(disk[1])), Root(disk);
    forall k | 0 <= k < 16
      ensures WellFormed(es[k]) && !es[k].inUse
    {
      EntryAt(c, k);
      assert c[20 * k + 19] == 0;
      assert c[20 * k..20 * k + 20][19] == c[20 * k + 19];
    }
  }

  /** More files do not disturb the root directory. */
  lemma RootHeads(disk: seq<Sector>, owner: Owner, owner': Owner, inodes: map<nat, Inode>)
    requires RootOk(disk, owner, inodes)
    requires forall x :: x in owner ==> x in owner' && owner'[x] == owner[x]
    ensures RootOk(disk, owner', inodes)
  {
    var es := Root(disk);
    forall k | 0 <= k < |es|
      ensures EntryOk(es[k], owner')
    {
      assert EntryOk(es[k], owner);
    }
  }

  /** A sector that was not in use is in no entry and no inode. */
  lemma FreshUnlinked(disk: seq<Sector>, owner: Owner, inodes: map<nat, Inode>, h: nat)
    requires RootOk(disk, owner, inodes) && InodesOk(disk, owner, inodes) && h !in owner
    ensures h >= 2 && Unlinked(Root(disk), h) && NotOpen(inodes, h)
  {
    var es := Root(disk);
    forall k | 0 <= k < |es| && es[k].inUse
      ensures es[k].sector != h
    {
      assert EntryOk(es[k], owner);
    }
    forall i | i in inodes
      ensures inodes[i].sector != h
    {
      assert InodeOk(disk, owner, inodes[i]);
    }
  }

  /** Writing one entry of the root directory. */
  lemma RootWritten(disk: seq<Sector>, disk': seq<Sector>, marked: seq<bool>, owner: Owner, k: nat, e: Entry)
    requires Owned(disk, marked, owner) && Head(owner, 1) && HasRoot(disk) && k < 16 && WellFormed(e)
    requires Written(disk, disk', Header(disk[1]).start, 20 * k, EntryBytes(e))
    ensures HasRoot(disk') && Root(disk') == Root(disk)[k := e]
  {
    var d := Header(disk[1]);
    WrittenIsOnlyData(disk, disk', marked, owner, 1, 20 * k, EntryBytes(e));
    assert Header(disk'[1]) == d;
    WrittenContents(disk, disk', d, 20 * k, EntryBytes(e));
    EntriesSpliced(Contents(disk, d), k, e);
  }

  /** Sector h is in no entry and not that of a removed file. */
  ghost predicate Linkable(es: seq<Entry>, owner: Owner, inodes: map<nat, Inode>, h: nat)
  {
    h >= 2 && Head(owner, h) && Unlinked(es, h) && forall i :: i in inodes && inodes[i].removed ==> inodes[i].sector != h
  }

  lemma EntriesPut(es: seq<Entry>, owner: Owner, inodes: map<nat, Inode>, k: nat, e: Entry)
    requires EntriesOk(es, owner, inodes) && k < |es| && WellFormed(e)
    requires e.inUse ==> Terminated(e.name) && Linkable(es, owner, inodes, e.sector)
    ensures EntriesOk(es[k := e], owner, inodes)
  {
    var es' := es[k := e];
    forall j | 0 <= j < |es'|
      ensures EntryOk(es'[j], owner)
    {
      if j != k { assert EntryOk(es[j], owner); }
    }
    forall i, j | 0 <= i < j < |es'|
      ensures EntriesApart(es'[i], es'[j])
    {
      if i != k && j != k { assert EntriesApart(es[i], es[j]); }
    }
    forall i | i in inodes
      ensures RemovedOk(es', inodes[i])
    {
      assert RemovedOk(es, inodes[i]);
    }
  }

  /** The file of an entry in use is live and not removed. */
  lemma EntryLive(disk: seq<Sector>, marked: seq<bool>, owner: Owner, inodes: map<nat, Inode>, k: nat)
    requires Owned(disk, marked, owner) && RootOk(disk, owner, inodes) && k < 16 && Root(disk)[k].inUse
    ensures 2 <= Root(disk)[k].sector < |disk| && Head(owner, Root(disk)[k].sector)
    ensures forall i :: i in inodes && inodes[i].sector == Root(disk)[k].sector ==> !inodes[i].removed
  {
    var es := Root(disk);
    assert EntryOk(es[k], owner);
    assert SectorOwned(disk, marked, owner, es[k].sector);
    forall i | i in inodes && inodes[i].sector == es[k].sector
      ensures !inodes[i].removed
    {
      assert RemovedOk(es, inodes[i]);
    }
  }

  lemma ClearedUnlinked(es: seq<Entry>, owner: Owner, inodes: map<nat, Inode>, k: nat)
    requires EntriesOk(es, owner, inodes) && k < |es| && es[k].inUse
    ensures Unlinked(es[k := es[k].(inUse := false)], es[k].sector)
  {
    var es' := es[k := es[k].(inUse := false)];
    forall j | 0 <= j < |es'| && es'[j].inUse
      ensures es'[j].sector != es[k].sector
    {
      if j < k { assert EntriesApart(es[j], es[k]); } else { assert EntriesApart(es[k], es[j]); }
    }
  }

  // ----- reference counts

  ghost function Holding(handles: map<nat, Handle>, i: nat): set<nat>
  {
    set h | h in handles && handles[h].inode == i
  }

  ghost function Denying(handles: map<nat, Handle>, i: nat): set<nat>
  {
    set h | h in handles && Denies(handles[h], i)
  }

  predicate Denies(x: Handle, i: nat) { x.File? && x.inode == i && x.denyWrite }

  function Moved(x: Handle, pos: nat): Handle
  {
    match x
    case File(i, _, deny) => File(i, pos, deny)
    case Dir(i, _) => Dir(i, pos)
  }

  /** open_cnt counts the handles and the references held by the calls in progress, and
      deny_write_cnt the handles that deny writing. */
  ghost predicate CountOk(inode: Inode, handles: map<nat, Handle>, held: multiset<nat>, i: nat)
  {
    && inode.openCnt == |Holding(handles, i)| + held[i] && inode.openCnt > 0
    && inode.denyWriteCnt == |Denying(handles, i)|
  }

  /** A handle refers to an inode in memory; the root directory is open only as a directory. */
  ghost predicate HandleOk(inodes: map<nat, Inode>, x: Handle)
  {
    && x.inode in inodes && (x.Dir? <==> inodes[x.inode].sector == 1)
    && (x.Dir? ==> x.pos % 20 == 0 && x.pos <= 320)
  }

  /** The handles stay right when the inodes they refer to keep their sectors. */
  lemma HandlesKept(inodes: map<nat, Inode>, inodes': map<nat, Inode>, handles: map<nat, Handle>, held: multiset<nat>)
    requires CountsOk(inodes, handles, held)
    requires forall i :: i in inodes && (i in inodes' || Holding(handles, i) != {}) ==> i in inodes' && inodes'[i].sector == inodes[i].sector
    ensures forall h :: h in handles ==> HandleOk(inodes', handles[h])
  {
    forall h | h in handles
      ensures HandleOk(inodes', handles[h])
    {
      assert HandleOk(inodes, handles[h]);
      assert h in Holding(handles, handles[h].inode);
    }
  }

  ghost predicate CountsOk(inodes: map<nat, Inode>, handles: map<nat, Handle>, held: multiset<nat>)
  {
    && (forall i {:trigger CountOk(inodes[i], handles, held, i)} :: i in inodes ==> CountOk(inodes[i], handles, held, i))
    && (forall h {:trigger HandleOk(inodes, handles[h])} :: h in handles ==> HandleOk(inodes, handles[h]))
    && (forall i :: i in held ==> i in inodes)
  }

  ghost predicate ListOk(openInodes: seq<nat>, inodes: map<nat, Inode>)
  {
    NoDup(openInodes) && forall i :: i in openInodes <==> i in inodes
  }

  ghost predicate Fresh(next: nat, inodes: map<nat, Inode>, handles: map<nat, Handle>)
  {
    (forall i :: i in inodes ==> i < next) && (forall h :: h in handles ==> h < next)
  }

  lemma HoldingAdd(handles: map<nat, Handle>, h: nat, x: Handle, i: nat)
    requires h !in handles
    ensures |Holding(handles[h := x], i)| == |Holding(handles, i)| + if x.inode == i then 1 else 0
  {
    var a, b := Holding(handles, i), Holding(handles[h := x], i);
    if x.inode == i { assert b == a + {h}; } else { assert b == a; }
  }

  lemma DenyingAdd(handles: map<nat, Handle>, h: nat, x: Handle, i: nat)
    requires h !in handles
    ensures |Denying(handles[h := x], i)| == |Denying(handles, i)| + if Denies(x, i) then 1 else 0
  {
    var a, b := Denying(handles, i), Denying(handles[h := x], i);
    if Denies(x, i) { assert b == a + {h}; } else { assert b == a; }
  }

  lemma HoldingRemove(handles: map<nat, Handle>, h: nat, i: nat)
    requires h in handles
    ensures |Holding(handles, i)| == |Holding(handles - {h}, i)| + if handles[h].inode == i then 1 else 0
    ensures |Denying(handles, i)| == |Denying(handles - {h}, i)| + if Denies(handles[h], i) then 1 else 0
  {
    var rest := handles - {h};
    assert rest[h := handles[h]] == handles;
    HoldingAdd(rest, h, handles[h], i);
    DenyingAdd(rest, h, handles[h], i);
  }

  lemma DenyingHold(handles: map<nat, Handle>, i: nat)
    ensures |Denying(handles, i)| <= |Holding(handles, i)|
  {
    assert Denying(handles, i) <= Holding(handles, i);
    SubsetSize(Denying(handles, i), Holding(handles, i));
  }

  lemma HandleCameAndWent(handles: map<nat, Handle>, h: nat, x: Handle)
    requires h !in handles
    ensures handles[h := x] - {h} == handles
  {
  }

  lemma SubsetSize<T>(a: set<T>, b: set<T>)
    requires a <= b
    ensures |a| <= |b|
  {
    assert b == a + (b - a);
  }

  function Reopened(x: Inode): Inode { x.(openCnt := x.openCnt + 1) }

  function Dropped(x: Inode): Inode
    requires x.openCnt > 0
  {
    x.(openCnt := x.openCnt - 1)
  }

  /** A new reference to an inode already open. */
  lemma CountsReopen(inodes: map<nat, Inode>, handles: map<nat, Handle>, held: multiset<nat>, i: nat)
    requires CountsOk(inodes, handles, held) && i in inodes
    ensures CountsOk(inodes[i := Reopened(inodes[i])], handles, held + multiset{i})
  {
    var inodes' := inodes[i := Reopened(inodes[i])];
    HandlesKept(inodes, inodes', handles, held);
    forall j | j in inodes'
      ensures CountOk(inodes'[j], handles, held + multiset{i}, j)
    {
      assert CountOk(inodes[j], handles, held, j);
    }
  }

  lemma Unheld(inodes: map<nat, Inode>, handles: map<nat, Handle>, held: multiset<nat>, i: nat)
    requires CountsOk(inodes, handles, held) && i !in inodes
    ensures Holding(handles, i) == {} && Denying(handles, i) == {}
  {
    forall h | h in handles
      ensures handles[h].inode != i
    {
      assert HandleOk(inodes, handles[h]);
    }
  }

  lemma CountsNew(inodes: map<nat, Inode>, handles: map<nat, Handle>, held: multiset<nat>, i: nat, x: Inode)
    requires CountsOk(inodes, handles, held) && i !in inodes && x.openCnt == 1 && x.denyWriteCnt == 0
    ensures CountsOk(inodes[i := x], handles, held + multiset{i})
  {
    var inodes' := inodes[i := x];
    HandlesKept(inodes, inodes', handles, held);
    forall j | j in inodes'
      ensures CountOk(inodes'[j], handles, held + multiset{i}, j)
    {
      if j == i {
        Unheld(inodes, handles, held, i);
      } else {
        assert CountOk(inodes[j], handles, held, j);
      }
    }
  }

  /** A held reference becomes a handle's. */
  lemma CountsAdd(inodes: map<nat, Inode>, handles: map<nat, Handle>, held: multiset<nat>, h: nat, x: Handle)
    requires CountsOk(inodes, handles, held) && h !in handles && x.inode in held && (x.File? ==> !x.denyWrite)
    requires HandleOk(inodes, x)
    ensures CountsOk(inodes, handles[h := x], held - multiset{x.inode})
  {
    var handles' := handles[h := x];
    forall k | k in handles'
      ensures HandleOk(inodes, handles'[k])
    {
      if k != h { assert HandleOk(inodes, handles[k]); }
    }
    var held' := held - multiset{x.inode};
    forall j | j in inodes
      ensures CountOk(inodes[j], handles[h := x], held', j)
    {
      assert CountOk(inodes[j], handles, held, j);
      HoldingAdd(handles, h, x, j);
      DenyingAdd(handles, h, x, j);
    }
  }

  /** A handle's reference becomes a held one. */
  lemma CountsRemove(inodes: map<nat, Inode>, handles: map<nat, Handle>, held: multiset<nat>, h: nat)
    requires CountsOk(inodes, handles, held) && h in handles && (handles[h].File? ==> !handles[h].denyWrite)
    ensures CountsOk(inodes, handles - {h}, held + multiset{handles[h].inode})
  {
    var handles' := handles - {h};
    forall k | k in handles'
      ensures HandleOk(inodes, handles'[k])
    {
      assert HandleOk(inodes, handles[k]);
    }
    assert HandleOk(inodes, handles[h]);
    var held' := held + multiset{handles[h].inode};
    forall j | j in inodes
      ensures CountOk(inodes[j], handles - {h}, held', j)
    {
      assert CountOk(inodes[j], handles, held, j);
      HoldingRemove(handles, h, j);
    }
  }

  /** Replacing a handle by one on the same inode with a different deny flag. */
  lemma CountsDeny(inodes: map<nat, Inode>, handles: map<nat, Handle>, held: multiset<nat>, h: nat, x: Inode)
    requires CountsOk(inodes, handles, held) && h in handles && handles[h].File? && handles[h].inode in inodes
    requires x == inodes[handles[h].inode].(denyWriteCnt := x.denyWriteCnt)
    requires x.denyWriteCnt == inodes[handles[h].inode].denyWriteCnt + if handles[h].denyWrite then -1 else 1
    ensures var f := handles[h]; CountsOk(inodes[f.inode := x], handles[h := f.(denyWrite := !f.denyWrite)], held)
  {
    var f := handles[h];
    var f' := f.(denyWrite := !f.denyWrite);
    var rest := handles - {h};
    assert handles[h := f'] == rest[h := f'];
    var handles', inodes' := handles[h := f'], inodes[f.inode := x];
    forall k | k in handles'
      ensures HandleOk(inodes', handles'[k])
    {
      assert HandleOk(inodes, handles[k]);
    }
    forall j | j in inodes
      ensures CountOk(inodes[f.inode := x][j], handles[h := f'], held, j)
    {
      assert CountOk(inodes[j], handles, held, j);
      HoldingRemove(handles, h, j);
      HoldingAdd(rest, h, f', j);
      DenyingAdd(rest, h, f', j);
    }
  }

  /** A handle's position does not matter to the counts. */
  lemma CountsMove(inodes: map<nat, Inode>, handles: map<nat, Handle>, held: multiset<nat>, h: nat, pos: nat)
    requires CountsOk(inodes, handles, held) && h in handles && (handles[h].Dir? ==> pos % 20 == 0 && pos <= 320)
    ensures CountsOk(inodes, handles[h := Moved(handles[h], pos)], held)
  {
    var handles' := handles[h := Moved(handles[h], pos)];
    forall k | k in handles'
      ensures HandleOk(inodes, handles'[k])
    {
      assert HandleOk(inodes, handles[k]);
    }
    forall j | j in inodes
      ensures CountOk(inodes[j], handles', held, j)
    {
      assert CountOk(inodes[j], handles, held, j);
      assert Holding(handles', j) == Holding(handles, j) && Denying(handles', j) == Denying(handles, j);
    }
  }

  /** The assertions in inode_deny_write and inode_allow_write hold. */
  lemma CountDenied(inodes: map<nat, Inode>, handles: map<nat, Handle>, held: multiset<nat>, h: nat)
    requires CountsOk(inodes, handles, held) && h in handles && handles[h].File? && handles[h].inode in inodes
    ensures var x := inodes[handles[h].inode];
            if handles[h].denyWrite then 0 < x.denyWriteCnt <= x.openCnt else x.denyWriteCnt < x.openCnt
  {
    var i := handles[h].inode;
    assert CountOk(inodes[i], handles, held, i);
    HoldingRemove(handles, h, i);
    DenyingHold(handles, i);
    DenyingHold(handles - {h}, i);
  }

  /** Dropping a held reference that is not the last one; and one that is. */
  lemma CountsDrop(inodes: map<nat, Inode>, handles: map<nat, Handle>, held: multiset<nat>, i: nat)
    requires CountsOk(inodes, handles, held) && i in held
    ensures inodes[i].openCnt > 1 ==>
              CountsOk(inodes[i := Dropped(inodes[i])], handles, held - multiset{i})
    ensures inodes[i].openCnt == 1 ==> CountsOk(inodes - {i}, handles, held - multiset{i})
  {
    var held' := held - multiset{i};
    assert CountOk(inodes[i], handles, held, i);
    forall j | j in inodes && j != i
      ensures CountOk(inodes[j], handles, held', j)
    {
      assert CountOk(inodes[j], handles, held, j);
    }
    if inodes[i].openCnt == 1 {
      assert held[i] == 1 && held'[i] == 0 && |Holding(handles, i)| == 0;
      HandlesKept(inodes, inodes - {i}, handles, held);
    } else {
      HandlesKept(inodes, inodes[i := Dropped(inodes[i])], handles, held);
    }
  }

  // ----- the open inode list

  ghost predicate TablesOk(openInodes: seq<nat>, inodes: map<nat, Inode>, handles: map<nat, Handle>, next: nat, held: multiset<nat>)
  {
    ListOk(openInodes, inodes) && CountsOk(inodes, handles, held) && Fresh(next, inodes, handles)
  }

  /** inode i, for this sector, was opened once more, or is newly in memory. */
  ghost predicate Opened(inodes: map<nat, Inode>, inodes': map<nat, Inode>, sector: nat, data: InodeDisk, i: nat)
  {
    || (i in inodes && inodes[i].sector == sector && inodes' == inodes[i := Reopened(inodes[i])])
    || (i !in inodes && NotOpen(inodes, sector) && inodes' == inodes[i := Inode(sector, 1, false, 0, data)])
  }

  ghost predicate NotOpen(inodes: map<nat, Inode>, sector: nat)
  {
    forall j :: j in inodes ==> inodes[j].sector != sector
  }

  lemma OpenTables(openInodes: seq<nat>, inodes: map<nat, Inode>, handles: map<nat, Handle>, next: nat, held: multiset<nat>, sector: nat, data: InodeDisk)
    requires TablesOk(openInodes, inodes, handles, next, held)
    ensures TablesOk([next] + openInodes, inodes[next := Inode(sector, 1, false, 0, data)], handles, next + 1, held + multiset{next})
  {
    CountsNew(inodes, handles, held, next, Inode(sector, 1, false, 0, data));
  }

  lemma OpenInodesOk(disk: seq<Sector>, marked: seq<bool>, owner: Owner, inodes: map<nat, Inode>, inodes': map<nat, Inode>, sector: nat, i: nat)
    requires Owned(disk, marked, owner) && InodesOk(disk, owner, inodes) && Head(owner, sector) && sector < |disk|
    requires Opened(inodes, inodes', sector, Header(disk[sector]), i)
    ensures InodesOk(disk, owner, inodes')
  {
    forall j | j in inodes'
      ensures InodeOk(disk, owner, inodes'[j])
    {
      if j in inodes { assert InodeOk(disk, owner, inodes[j]); }
    }
    forall j, k | j in inodes' && k in inodes' && j != k
      ensures Apart(inodes', j, k)
    {
      if j in inodes && k in inodes { assert Apart(inodes, j, k); }
    }
  }

  // ----- closing

  /** s without x. */
  function Without(s: seq<nat>, x: nat): (r: seq<nat>)
    ensures |r| <= |s|
  {
    if s == [] then [] else (if s[0] == x then [] else [s[0]]) + Without(s[1..], x)
  }

  lemma {:induction false} WithoutMembers(s: seq<nat>, x: nat)
    requires NoDup(s)
    ensures NoDup(Without(s, x))
    ensures forall y :: y in Without(s, x) <==> y in s && y != x
    decreases |s|
  {
    if s != [] {
      WithoutMembers(s[1..], x);
      var t := Without(s[1..], x);
      assert s == [s[0]] + s[1..];
      assert s[0] !in s[1..];
      if s[0] == x {
        assert Without(s, x) == t;
      } else {
        assert Without(s, x) == [s[0]] + t && s[0] !in t;
      }
    }
  }

  lemma CloseTables(openInodes: seq<nat>, inodes: map<nat, Inode>, handles: map<nat, Handle>, next: nat, held: multiset<nat>, i: nat)
    requires TablesOk(openInodes, inodes, handles, next, held) && i in held
    ensures inodes[i].openCnt > 0
    ensures inodes[i].openCnt > 1 ==>
              TablesOk(openInodes, inodes[i := Dropped(inodes[i])], handles, next, held - multiset{i})
    ensures inodes[i].openCnt == 1 ==> TablesOk(Without(openInodes, i), inodes - {i}, handles, next, held - multiset{i})
  {
    assert CountOk(inodes[i], handles, held, i);
    CountsDrop(inodes, handles, held, i);
    WithoutMembers(openInodes, i);
  }

  lemma ChangeInodesOk(disk: seq<Sector>, owner: Owner, inodes: map<nat, Inode>, i: nat, x: Inode)
    requires InodesOk(disk, owner, inodes) && i in inodes && x.sector == inodes[i].sector && x.data == inodes[i].data
    ensures InodesOk(disk, owner, inodes[i := x])
  {
    var inodes' := inodes[i := x];
    forall j | j in inodes'
      ensures InodeOk(disk, owner, inodes'[j])
    {
      assert InodeOk(disk, owner, inodes[j]);
    }
    forall j, k | j in inodes' && k in inodes' && j != k
      ensures Apart(inodes', j, k)
    {
      assert Apart(inodes, j, k);
    }
  }

  lemma CloseInodesOk(disk: seq<Sector>, owner: Owner, inodes: map<nat, Inode>, i: nat)
    requires InodesOk(disk, owner, inodes) && i in inodes
    ensures InodesOk(disk, owner, inodes - {i}) && InodeOk(disk, owner, inodes[i]) && NotOpen(inodes - {i}, inodes[i].sector)
  {
    var inodes' := inodes - {i};
    assert InodeOk(disk, owner, inodes[i]);
    forall j | j in inodes'
      ensures inodes'[j].sector != inodes[i].sector
    {
      assert Apart(inodes, i, j);
    }
    forall j | j in inodes'
      ensures InodeOk(disk, owner, inodes'[j])
    {
      assert InodeOk(disk, owner, inodes[j]);
    }
    forall j, k | j in inodes' && k in inodes' && j != k
      ensures Apart(inodes', j, k)
    {
      assert Apart(inodes, j, k);
    }
  }

  /** Every removed inode was already removed. */
  ghost predicate NoneRemoved(inodes: map<nat, Inode>, inodes': map<nat, Inode>)
  {
    forall i :: i in inodes' && inodes'[i].removed ==> i in inodes && inodes[i].removed && inodes'[i].sector == inodes[i].sector
  }

  lemma RootInodes(disk: seq<Sector>, owner: Owner, inodes: map<nat, Inode>, inodes': map<nat, Inode>)
    requires RootOk(disk, owner, inodes) && NoneRemoved(inodes, inodes')
    ensures RootOk(disk, owner, inodes')
  {
    var es := Root(disk);
    forall i | i in inodes'
      ensures RemovedOk(es, inodes'[i])
    {
      if inodes'[i].removed { assert RemovedOk(es, inodes[i]); }
    }
  }

  /** Giving up an unlinked file leaves every directory entry in order. */
  lemma RootDisown(disk: seq<Sector>, owner: Owner, inodes: map<nat, Inode>, h: nat)
    requires RootOk(disk, owner, inodes) && h >= 2 && Unlinked(Root(disk), h)
    ensures RootOk(disk, Disowned(owner, h), inodes)
  {
    var owner', es := Disowned(owner, h), Root(disk);
    forall k | 0 <= k < |es|
      ensures EntryOk(es[k], owner')
    {
      assert EntryOk(es[k], owner);
    }
  }

  lemma RootOpen(disk: seq<Sector>, owner: Owner, inodes: map<nat, Inode>, inodes': map<nat, Inode>, sector: nat, data: InodeDisk, i: nat)
    requires Opened(inodes, inodes', sector, data, i)
    ensures RootKept(disk, owner, inodes, disk, owner, inodes')
  {
    if RootOk(disk, owner, inodes) { RootInodes(disk, owner, inodes, inodes'); }
  }

  /** What the root directory lists and the invariant about it are kept. */
  ghost predicate RootKept(disk: seq<Sector>, owner: Owner, inodes: map<nat, Inode>, disk': seq<Sector>, owner': Owner, inodes': map<nat, Inode>)
  {
    RootOk(disk, owner, inodes) ==> RootOk(disk', owner', inodes') && Root(disk') == Root(disk)
  }

  /** One reference fewer; an inode without references is gone. */
  ghost predicate Closed(inodes: map<nat, Inode>, inodes': map<nat, Inode>, i: nat)
  {
    i in inodes && inodes[i].openCnt > 0 &&
    inodes' == if inodes[i].openCnt == 1 then inodes - {i} else inodes[i := Dropped(inodes[i])]
  }

  /** Opening and closing again leaves the inodes as they were. */
  lemma OpenClose(inodes: map<nat, Inode>, inodes': map<nat, Inode>, inodes'': map<nat, Inode>, handles: map<nat, Handle>, held: multiset<nat>, sector: nat, data: InodeDisk, i: nat)
    requires CountsOk(inodes, handles, held) && Opened(inodes, inodes', sector, data, i) && Closed(inodes', inodes'', i)
    ensures inodes'' == inodes
  {
    if i in inodes { assert CountOk(inodes[i], handles, held, i); }
  }

  /** What closing x does to the sectors: frees exactly its own if the file was removed and this
      was the last reference, and otherwise frees nothing. */
  ghost predicate Released(x: Inode, marked: seq<bool>, marked': seq<bool>, owner: Owner, owner': Owner)
  {
    if x.openCnt == 1 && x.removed then Freed(x.sector, x.data, marked, marked', owner, owner')
    else owner' == owner && marked' == marked
  }

  ghost predicate Freed(h: nat, d: InodeDisk, marked: seq<bool>, marked': seq<bool>, owner: Owner, owner': Owner)
  {
    && owner' == Disowned(owner, h) && h < |marked| && OnDisk(|marked|, d)
    && marked' == Filled(Filled(marked, h, 1, false), d.start, Sectors(d.length), false)
  }

  function Removed(x: Inode): Inode { x.(removed := true) }

  /** Removing the file at h: if it is open its inode is marked, otherwise its sectors are freed. */
  ghost predicate RemovedFile(inodes: map<nat, Inode>, inodes': map<nat, Inode>, h: nat, d: InodeDisk, marked: seq<bool>, marked': seq<bool>, owner: Owner, owner': Owner)
  {
    if NotOpen(inodes, h) then inodes' == inodes && Freed(h, d, marked, marked', owner, owner')
    else owner' == owner && marked' == marked && exists i :: i in inodes && inodes[i].sector == h && inodes' == inodes[i := Removed(inodes[i])]
  }

  lemma RemoveOutcome(inodes: map<nat, Inode>, a: map<nat, Inode>, inodes': map<nat, Inode>, handles: map<nat, Handle>, held: multiset<nat>, i: nat, h: nat, d: InodeDisk, marked: seq<bool>, marked': seq<bool>, owner: Owner, owner': Owner)
    requires CountsOk(inodes, handles, held) && Opened(inodes, a, h, d, i)
    requires Closed(a[i := Removed(a[i])], inodes', i) && Released(Removed(a[i]), marked, marked', owner, owner')
    requires i in inodes ==> inodes[i].data == d
    ensures RemovedFile(inodes, inodes', h, d, marked, marked', owner, owner')
  {
    if i in inodes {
      assert CountOk(inodes[i], handles, held, i);
      assert inodes' == inodes[i := Removed(inodes[i])];
      assert !NotOpen(inodes, h);
    } else {
      assert inodes' == inodes;
    }
  }

  /** Marking a file removed once no entry names it. */
  lemma RootRemove(disk: seq<Sector>, owner: Owner, inodes: map<nat, Inode>, i: nat)
    requires RootOk(disk, owner, inodes) && i in inodes && inodes[i].sector >= 2 && Unlinked(Root(disk), inodes[i].sector)
    ensures RootOk(disk, owner, inodes[i := Removed(inodes[i])])
  {
    var inodes', es := inodes[i := Removed(inodes[i])], Root(disk);
    forall j | j in inodes'
      ensures RemovedOk(es, inodes'[j])
    {
      assert RemovedOk(es, inodes[j]);
    }
  }

  lemma CountsMarkRemoved(inodes: map<nat, Inode>, handles: map<nat, Handle>, held: multiset<nat>, i: nat)
    requires CountsOk(inodes, handles, held) && i in inodes
    ensures CountsOk(inodes[i := Removed(inodes[i])], handles, held)
  {
    var inodes' := inodes[i := Removed(inodes[i])];
    HandlesKept(inodes, inodes', handles, held);
    forall j | j in inodes'
      ensures CountOk(inodes'[j], handles, held, j)
    {
      assert CountOk(inodes[j], handles, held, j);
    }
  }

  lemma RootClose(disk: seq<Sector>, disk': seq<Sector>, marked: seq<bool>, owner: Owner, owner': Owner, inodes: map<nat, Inode>, inodes': map<nat, Inode>, i: nat)
    requires Owned(disk, marked, owner) && Closed(inodes, inodes', i)
    requires owner' == owner || (inodes[i].removed && owner' == Disowned(owner, inodes[i].sector))
    requires OnlyData(disk, disk', owner', {0})
    ensures RootKept(disk, owner, inodes, disk', owner', inodes')
  {
    if RootOk(disk, owner, inodes) {
      var h := inodes[i].sector;
      if owner' != owner {
        assert RemovedOk(Root(disk), inodes[i]);
        DisownOwned(disk, marked, owner, h);
        RootDisown(disk, owner, inodes, h);
      }
      RootInodes(disk, owner', inodes, inodes');
      RootFrame(disk, disk', marked, owner', inodes', {0});
    }
  }

  // ----- what the invariant means for files

  /** h is the inode sector of the free map, of the root directory, of a file with a name or of a
      file still open. */
  ghost predicate Live(es: seq<Entry>, inodes: map<nat, Inode>, h: nat)
  {
    h < 2 || !Unlinked(es, h) || !NotOpen(inodes, h)
  }

  /** Live or still open files have marked, pairwise disjoint inode sectors and data runs. */
  lemma LiveFilesDisjoint(disk: seq<Sector>, marked: seq<bool>, owner: Owner, inodes: map<nat, Inode>, h: nat, k: nat)
    requires Owned(disk, marked, owner) && InodesOk(disk, owner, inodes) && RootOk(disk, owner, inodes)
    requires Live(Root(disk), inodes, h) && Live(Root(disk), inodes, k) && h != k
    ensures h < |disk| && k < |disk| && |marked| == |disk| && marked[h] && marked[k]
    ensures !InRun(Header(disk[h]), h) && !InRun(Header(disk[h]), k) && !InRun(Header(disk[k]), h)
    ensures forall s: nat :: InRun(Header(disk[h]), s) ==> s < |disk| && marked[s] && !InRun(Header(disk[k]), s)
  {
    LiveIsHead(disk, owner, inodes, h);
    LiveIsHead(disk, owner, inodes, k);
    FilesDisjoint(disk, marked, owner, h, k);
  }

  lemma LiveIsHead(disk: seq<Sector>, owner: Owner, inodes: map<nat, Inode>, h: nat)
    requires InodesOk(disk, owner, inodes) && RootOk(disk, owner, inodes) && Live(Root(disk), inodes, h)
    ensures Head(owner, h)
  {
    var es := Root(disk);
    if k :| 0 <= k < |es| && es[k].inUse && es[k].sector == h {
      assert EntryOk(es[k], owner);
    } else if i :| i in inodes && inodes[i].sector == h {
      assert InodeOk(disk, owner, inodes[i]);
    }
  }

  // ----- the free map file

  /** The free map file, when open, is a handle on the file with inode sector 0. */
  ghost predicate FreeMapFileOk(file: Option<nat>, inodes: map<nat, Inode>, handles: map<nat, Handle>)
  {
    match file
    case None => true
    case Some(h) => h in handles && handles[h].File? && handles[h].inode in inodes && inodes[handles[h].inode].sector == 0
  }
}
