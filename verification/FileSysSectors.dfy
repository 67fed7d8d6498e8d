/** Conservation of sectors: which sectors are marked although no file that can still be reached has
    them, what each call adds to these, and what a reboot does. */
module FileSysSectors {
  import opened Wrappers
  import opened Bitmap
  import opened InodeData
  import opened Directory
  import opened FileSysState
  import opened FileSysCalls

  // ----- lost sectors

  /** Sector s is in a file that has a name or is open, or in the free map or the root directory. */
  ghost predicate InLiveFile(owner: Owner, es: seq<Entry>, inodes: map<nat, Inode>, s: nat)
  {
    s in owner && Live(es, inodes, owner[s])
  }

  /** The sectors that are marked although no live file has them. Nobody can free them. */
  ghost function Lost(marked: seq<bool>, owner: Owner, es: seq<Entry>, inodes: map<nat, Inode>): set<nat>
  {
    set s: nat | s < |marked| && marked[s] && !InLiveFile(owner, es, inodes, s)
  }

  ghost function LostIn(a: Snap): set<nat>
    requires HasRoot(a.disk)
  {
    Lost(a.marked, a.owner, Root(a.disk), a.inodes)
  }

  ghost function LostCount(a: Snap): nat { if HasRoot(a.disk) then |LostIn(a)| else 0 }

  ghost function Range(t: nat, n: nat): (r: set<nat>)
    ensures |r| == n && forall s :: s in r <==> t <= s < t + n
  {
    if n == 0 then {} else Range(t, n - 1) + {t + n - 1}
  }

  lemma SetGrows(a: set<nat>, b: set<nat>, more: set<nat>)
    requires forall s :: s in b <==> s in a || s in more
    requires forall s :: s in more ==> s !in a
    ensures |b| == |a| + |more| && a <= b
  {
    assert b == a + more;
  }

  /** The inode sector h and the run of its file. */
  ghost function FileSectors(h: nat, d: InodeDisk): set<nat> { {h} + Range(d.start, Sectors(d.length)) }

  /** h is live afterwards if and only if it was before. */
  ghost predicate SameLife(es: seq<Entry>, inodes: map<nat, Inode>, es': seq<Entry>, inodes': map<nat, Inode>, h: nat)
  {
    Live(es', inodes', h) <==> Live(es, inodes, h)
  }

  lemma LifeKept(disk: seq<Sector>, marked: seq<bool>, owner: Owner, es: seq<Entry>, inodes: map<nat, Inode>, es': seq<Entry>, inodes': map<nat, Inode>)
    requires Owned(disk, marked, owner)
    requires forall h: nat {:trigger SameLife(es, inodes, es', inodes', h)} :: Head(owner, h) ==> SameLife(es, inodes, es', inodes', h)
    ensures Lost(marked, owner, es', inodes') == Lost(marked, owner, es, inodes)
  {
    forall s: nat | s in owner
      ensures InLiveFile(owner, es', inodes', s) == InLiveFile(owner, es, inodes, s)
    {
      assert SectorOwned(disk, marked, owner, s) && SameLife(es, inodes, es', inodes', owner[s]);
    }
  }

  /** The sectors of a file are those it owns. */
  lemma SectorsOwned(disk: seq<Sector>, marked: seq<bool>, owner: Owner, h: nat)
    requires Owned(disk, marked, owner) && Head(owner, h)
    ensures h < |disk| && |FileSectors(h, Header(disk[h]))| == 1 + Sectors(Header(disk[h]).length)
    ensures forall s :: s in FileSectors(h, Header(disk[h])) <==> s in owner && owner[s] == h
    ensures forall s :: s in FileSectors(h, Header(disk[h])) ==> s < |marked| && marked[s]
  {
    assert RunOwned(disk, owner, h);
    forall s | s in owner && owner[s] == h
      ensures s in FileSectors(h, Header(disk[h])) && s < |marked| && marked[s]
    {
      assert SectorOwned(disk, marked, owner, s);
    }
  }

  /** A file that is live no longer loses its sectors, and no others. */
  lemma LifeEnds(disk: seq<Sector>, marked: seq<bool>, owner: Owner, es: seq<Entry>, inodes: map<nat, Inode>, es': seq<Entry>, inodes': map<nat, Inode>, f: nat)
    requires Owned(disk, marked, owner) && Head(owner, f) && Live(es, inodes, f) && !Live(es', inodes', f)
    requires forall h: nat {:trigger SameLife(es, inodes, es', inodes', h)} :: Head(owner, h) && h != f ==> SameLife(es, inodes, es', inodes', h)
    ensures f < |disk| && |Lost(marked, owner, es', inodes')| == |Lost(marked, owner, es, inodes)| + 1 + Sectors(Header(disk[f]).length)
    ensures Lost(marked, owner, es, inodes) <= Lost(marked, owner, es', inodes')
  {
    SectorsOwned(disk, marked, owner, f);
    var lost, lost', file := Lost(marked, owner, es, inodes), Lost(marked, owner, es', inodes'), FileSectors(f, Header(disk[f]));
    forall s: nat
      ensures s in lost' <==> s in lost || s in file
      ensures s in file ==> s !in lost
    {
      if s in owner && owner[s] != f { assert SectorOwned(disk, marked, owner, s) && SameLife(es, inodes, es', inodes', owner[s]); }
    }
    SetGrows(lost, lost', file);
  }

  /** Freeing a live file frees its sectors and no others. */
  lemma FreedLost(disk: seq<Sector>, marked: seq<bool>, marked': seq<bool>, owner: Owner, owner': Owner, es: seq<Entry>, inodes: map<nat, Inode>, h: nat)
    requires Owned(disk, marked, owner) && Head(owner, h) && h < |disk| && Live(es, inodes, h)
    requires Freed(h, Header(disk[h]), marked, marked', owner, owner')
    ensures Lost(marked', owner', es, inodes) == Lost(marked, owner, es, inodes)
  {
    SectorsOwned(disk, marked, owner, h);
    forall s: nat | s < |marked|
      ensures s in Lost(marked', owner', es, inodes) <==> s in Lost(marked, owner, es, inodes)
    {
      assert s in FileSectors(h, Header(disk[h])) <==> s == h || InRun(Header(disk[h]), s);
    }
  }

  /** Making a file that is live takes its sectors and no others. */
  lemma CreatedLost(disk: seq<Sector>, marked: seq<bool>, marked': seq<bool>, owner: Owner, es: seq<Entry>, inodes: map<nat, Inode>, h: nat, d: InodeDisk)
    requires Owned(disk, marked, owner) && SectorsTaken(marked, marked', Sectors(d.length), h, d.start, true) && Live(es, inodes, h)
    ensures Lost(marked', Adopted(owner, h, d), es, inodes) == Lost(marked, owner, es, inodes)
  {
    var owner', one := Adopted(owner, h, d), Filled(marked, h, 1, true);
    forall s: nat | s < |marked|
      ensures s in Lost(marked', owner', es, inodes) <==> s in Lost(marked, owner, es, inodes)
    {
      if s == h || InRun(d, s) {
        assert !marked[s] && owner'[s] == h;
      } else {
        assert s in owner' <==> s in owner;
      }
    }
  }

  /** A file that was made but not linked leaves its run marked. */
  lemma UnlinkedLost(disk: seq<Sector>, marked: seq<bool>, marked': seq<bool>, owner: Owner, es: seq<Entry>, inodes: map<nat, Inode>, n: nat, h: nat, t: nat)
    requires Owned(disk, marked, owner) && SectorsTaken(marked, marked', n, h, t, false)
    ensures |Lost(marked', owner, es, inodes)| == |Lost(marked, owner, es, inodes)| + n
    ensures Lost(marked, owner, es, inodes) <= Lost(marked', owner, es, inodes)
  {
    var lost, lost' := Lost(marked, owner, es, inodes), Lost(marked', owner, es, inodes);
    var one := Filled(marked, h, 1, true);
    assert !(t <= h < t + n) by { assert one[h]; }
    forall s: nat
      ensures s in lost' <==> s in lost || s in Range(t, n)
      ensures s in Range(t, n) ==> s !in lost
    {
      if t <= s < t + n {
        assert !one[s] && !marked[s];
        FreeUnowned(disk, marked, owner, s);
      }
    }
    SetGrows(lost, lost', Range(t, n));
  }

  // ----- what a call loses

  /** Memory for dir_add's search ends at an entry in use, so that dir_add writes over it. */
  ghost predicate Overwrites(es: seq<Entry>, search: nat)
  {
    search < |es| && forall j :: 0 <= j <= search ==> es[j].inUse
  }

  lemma OverwritesSlot(es: seq<Entry>, search: nat, slot: nat)
    requires IsSlot(es, search, slot) && slot < |es|
    ensures Overwrites(es, search) <==> es[slot].inUse
    ensures Overwrites(es, search) ==> slot == search
  {
  }

  /** The call closes the last handle of a file that has no name and has not been removed. */
  ghost predicate ClosesNameless(h: nat, a: Snap)
    requires HasRoot(a.disk)
  {
    h in a.handles && a.handles[h].inode in a.inodes &&
    var x := a.inodes[a.handles[h].inode];
    x.openCnt == 1 && !x.removed && x.sector >= 2 && Unlinked(Root(a.disk), x.sector)
  }

  /** How many sectors a call loses: those of a new file's data, if the file is made and cannot be
      linked; those of a file whose entry is written over, at once or, if it is open, at its last
      close. */
  ghost function LostBy(c: Call, m: Memory, a: Snap): nat
    requires StateOk(a)
  {
    if !CanCall(c, a.handles, a.file) then 0
    else
      match c
      case Create(name, size, _) =>
        if !MakesFile(size, m, a) then 0
        else if !Addable(Root(a.disk), name, m) then Sectors(size)
        else if Overwrites(Root(a.disk), m.search) && NotOpen(a.inodes, Root(a.disk)[m.search].sector) then
          EntryLive(a.disk, a.marked, a.owner, a.inodes, m.search);
          1 + Sectors(Header(a.disk[Root(a.disk)[m.search].sector]).length)
        else 0
      case Close(h) => if ClosesNameless(h, a) then 1 + Sectors(a.inodes[a.handles[h].inode].data.length) else 0
      case _ => 0
  }

  lemma EntryLife(es: seq<Entry>, k: nat, e: Entry, h: nat)
    requires k < |es| && (es[k].inUse ==> es[k].sector != h) && (e.inUse ==> e.sector != h)
    ensures Unlinked(es[k := e], h) <==> Unlinked(es, h)
  {
    var es' := es[k := e];
    forall j | 0 <= j < |es|
      ensures (es'[j].inUse && es'[j].sector == h) <==> (es[j].inUse && es[j].sector == h)
    {
    }
  }

  /** An inode that stays keeps its file open; one that goes matters to no other file. */
  lemma InodeLife(inodes: map<nat, Inode>, i: nat, x: Inode, h: nat)
    requires i in inodes
    ensures x.sector == inodes[i].sector ==> (NotOpen(inodes[i := x], h) <==> NotOpen(inodes, h))
    ensures h != inodes[i].sector ==> (NotOpen(inodes - {i}, h) <==> NotOpen(inodes, h))
  {
    if x.sector == inodes[i].sector && !NotOpen(inodes, h) {
      var j :| j in inodes && inodes[j].sector == h;
      assert inodes[i := x][j].sector == h;
    }
    if h != inodes[i].sector && !NotOpen(inodes, h) {
      var j :| j in inodes && inodes[j].sector == h;
      assert j in inodes - {i};
    }
  }

  /** Writing entry k of the directory, when the file that it names, if any, stays live or is f. */
  lemma EntryWritten(a: Snap, k: nat, e: Entry)
    requires StateOk(a) && k < 16 && (e.inUse ==> e.sector !in a.owner)
    ensures var es := Root(a.disk);
            if es[k].inUse && NotOpen(a.inodes, es[k].sector)
            then es[k].sector < |a.disk| && |Lost(a.marked, a.owner, es[k := e], a.inodes)| == |LostIn(a)| + 1 + Sectors(Header(a.disk[es[k].sector]).length)
            else Lost(a.marked, a.owner, es[k := e], a.inodes) == LostIn(a)
    ensures LostIn(a) <= Lost(a.marked, a.owner, Root(a.disk)[k := e], a.inodes)
  {
    var es := Root(a.disk);
    var f := es[k].sector;
    forall h: nat | Head(a.owner, h) && !(es[k].inUse && h == f && NotOpen(a.inodes, h))
      ensures SameLife(es, a.inodes, es[k := e], a.inodes, h)
    {
      if !(es[k].inUse && h == f) { EntryLife(es, k, e, h); } else { assert es[k].inUse && !Unlinked(es, h); }
    }
    if es[k].inUse && NotOpen(a.inodes, f) {
      EntryLive(a.disk, a.marked, a.owner, a.inodes, k);
      NotNamed(es, a.owner, a.inodes, k, e);
      LifeEnds(a.disk, a.marked, a.owner, es, a.inodes, es[k := e], a.inodes, f);
    } else {
      LifeKept(a.disk, a.marked, a.owner, es, a.inodes, es[k := e], a.inodes);
    }
  }

  /** No other entry names the file of entry k. */
  lemma NotNamed(es: seq<Entry>, owner: Owner, inodes: map<nat, Inode>, k: nat, e: Entry)
    requires EntriesOk(es, owner, inodes) && k < |es| && es[k].inUse && (e.inUse ==> e.sector != es[k].sector)
    ensures Unlinked(es[k := e], es[k].sector) && !Unlinked(es, es[k].sector)
  {
    ClearedUnlinked(es, owner, inodes, k);
    var gone, es' := es[k := es[k].(inUse := false)], es[k := e];
    forall j | 0 <= j < |es'| && es'[j].inUse
      ensures es'[j].sector != es[k].sector
    {
      if j != k { assert gone[j] == es[j]; }
    }
  }

  lemma CreateLost(c: Call, m: Memory, a: Snap, b: Snap)
    requires StateOk(a) && HasRoot(b.disk) && c.Create? && CanCall(c, a.handles, a.file) && Creates(c.name, c.size, m, a, b)
    ensures |LostIn(b)| == |LostIn(a)| + LostBy(c, m, a) && LostIn(a) <= LostIn(b)
  {
    if slot, e :| CreatesEntry(c.name, c.size, m, a, b, slot, e) {
      LinkedLost(c, m, a, b, slot, e);
    } else if MakesFile(c.size, m, a) {
      var s: nat, t: nat :| SectorsTaken(a.marked, b.marked, Sectors(c.size), s, t, false);
      UnlinkedLost(a.disk, a.marked, b.marked, a.owner, Root(a.disk), a.inodes, Sectors(c.size), s, t);
    }
  }

  lemma LinkedLost(c: Call, m: Memory, a: Snap, b: Snap, slot: nat, e: Entry)
    requires StateOk(a) && HasRoot(b.disk) && c.Create? && CanCall(c, a.handles, a.file) && Creates(c.name, c.size, m, a, b)
    requires MakesFile(c.size, m, a) && Addable(Root(a.disk), c.name, m) && CreatesEntry(c.name, c.size, m, a, b, slot, e)
    ensures |LostIn(b)| == |LostIn(a)| + LostBy(c, m, a) && LostIn(a) <= LostIn(b)
  {
    var es, es' := Root(a.disk), Root(b.disk);
    OverwritesSlot(es, m.search, slot);
    EntryWritten(a, slot, e);
    assert es'[slot] == e && !Unlinked(es', e.sector);
    CreatedLost(a.disk, a.marked, b.marked, a.owner, es', a.inodes, e.sector, Header(b.disk[e.sector]));
  }

  lemma RemoveLost(name: Name, m: Memory, a: Snap, b: Snap)
    requires StateOk(a) && StateOk(b) && Removes(name, m, a, b)
    ensures LostIn(b) == LostIn(a)
  {
    if k: nat :| RemovesEntry(name, m, a, b, k) {
      EntryLive(a.disk, a.marked, a.owner, a.inodes, k);
      if NotOpen(a.inodes, Root(a.disk)[k].sector) {
        RemoveFreed(a, b, k);
      } else {
        RemoveOpen(a, b, k);
      }
    }
  }

  lemma RemoveFreed(a: Snap, b: Snap, k: nat)
    requires StateOk(a) && StateOk(b) && k < 16 && Root(a.disk)[k].inUse && Root(b.disk) == Cleared(Root(a.disk), k)
    requires Root(a.disk)[k].sector < |a.disk| && b.inodes == a.inodes
    requires Freed(Root(a.disk)[k].sector, Header(a.disk[Root(a.disk)[k].sector]), a.marked, b.marked, a.owner, b.owner)
    ensures LostIn(b) == LostIn(a)
  {
    var es, f := Root(a.disk), Root(a.disk)[k].sector;
    EntryLive(a.disk, a.marked, a.owner, a.inodes, k);
    assert !Unlinked(es, f);
    FreedLost(a.disk, a.marked, b.marked, a.owner, b.owner, es, a.inodes, f);
    forall h: nat | Head(b.owner, h)
      ensures SameLife(es, a.inodes, Root(b.disk), a.inodes, h)
    {
      EntryLife(es, k, es[k].(inUse := false), h);
    }
    LifeKept(b.disk, b.marked, b.owner, es, a.inodes, Root(b.disk), a.inodes);
  }

  lemma RemoveOpen(a: Snap, b: Snap, k: nat)
    requires StateOk(a) && StateOk(b) && k < 16 && Root(a.disk)[k].inUse && Root(b.disk) == Cleared(Root(a.disk), k)
    requires !NotOpen(a.inodes, Root(a.disk)[k].sector) && b.owner == a.owner && b.marked == a.marked
    requires exists i :: i in a.inodes && b.inodes == a.inodes[i := Removed(a.inodes[i])]
    ensures LostIn(b) == LostIn(a)
  {
    var es := Root(a.disk);
    var i :| i in a.inodes && b.inodes == a.inodes[i := Removed(a.inodes[i])];
    forall h: nat | Head(a.owner, h)
      ensures SameLife(es, a.inodes, Root(b.disk), b.inodes, h)
    {
      InodeLife(a.inodes, i, Removed(a.inodes[i]), h);
      if h != es[k].sector { EntryLife(es, k, es[k].(inUse := false), h); }
    }
    LifeKept(a.disk, a.marked, a.owner, es, a.inodes, Root(b.disk), b.inodes);
  }

  /** What closing does to the set of live files. */
  lemma ClosedLife(inodes: map<nat, Inode>, inodes': map<nat, Inode>, f: Handle, es: seq<Entry>, h: nat)
    requires FileClosed(inodes, inodes', f)
    ensures inodes[f.inode].openCnt > 1 || h != inodes[f.inode].sector ==> SameLife(es, inodes, es, inodes', h)
  {
    var i := f.inode;
    var mid := inodes[i := WithDeny(inodes[i], f.denyWrite, false)];
    InodeLife(inodes, i, mid[i], h);
    InodeLife(mid, i, Dropped(mid[i]), h);
  }

  lemma CloseLost(h: nat, m: Memory, a: Snap, b: Snap)
    requires StateOk(a) && StateOk(b) && CanCall(Call.Close(h), a.handles, a.file) && Closes(h, a, b)
    ensures |LostIn(b)| == |LostIn(a)| + LostBy(Call.Close(h), m, a) && LostIn(a) <= LostIn(b)
  {
    var es, i := Root(a.disk), a.handles[h].inode;
    var x := a.inodes[i];
    assert InodeOk(a.disk, a.owner, x);
    forall g: nat | x.openCnt > 1 || g != x.sector
      ensures SameLife(es, a.inodes, es, b.inodes, g)
    {
      ClosedLife(a.inodes, b.inodes, a.handles[h], es, g);
    }
    assert !NotOpen(a.inodes, x.sector);
    if x.openCnt == 1 && x.removed {
      FreedLost(a.disk, a.marked, b.marked, a.owner, b.owner, es, a.inodes, x.sector);
      LifeKept(b.disk, b.marked, b.owner, es, a.inodes, es, b.inodes);
    } else if ClosesNameless(h, a) {
      LastClosed(a, b, h);
      LifeEnds(a.disk, a.marked, a.owner, es, a.inodes, es, b.inodes, x.sector);
    } else {
      LifeKept(a.disk, a.marked, a.owner, es, a.inodes, es, b.inodes);
    }
  }

  /** After its last close no inode is in memory for the file. */
  lemma LastClosed(a: Snap, b: Snap, h: nat)
    requires StateOk(a) && h in a.handles && FileClosed(a.inodes, b.inodes, a.handles[h]) && a.inodes[a.handles[h].inode].openCnt == 1
    ensures NotOpen(b.inodes, a.inodes[a.handles[h].inode].sector)
  {
    forall j | j in b.inodes
      ensures b.inodes[j].sector != a.inodes[a.handles[h].inode].sector
    {
      assert Apart(a.inodes, j, a.handles[h].inode);
    }
  }

  /** Opening and other calls that leave the disk alone. */
  lemma QuietLost(c: Call, m: Memory, a: Snap, b: Snap)
    requires Follows(c, m, a, b) && CanCall(c, a.handles, a.file) && !c.Create? && !c.Remove? && !c.Close?
    ensures LostIn(b) == LostIn(a)
  {
    var es := Root(a.disk);
    forall h: nat | Head(a.owner, h)
      ensures SameLife(es, a.inodes, es, b.inodes, h)
    {
      QuietLife(c, m, a, b, h);
    }
    LifeKept(a.disk, a.marked, a.owner, es, a.inodes, es, b.inodes);
  }

  lemma QuietLife(c: Call, m: Memory, a: Snap, b: Snap, h: nat)
    requires Follows(c, m, a, b) && CanCall(c, a.handles, a.file) && !c.Create? && !c.Remove? && !c.Close?
    ensures SameLife(Root(a.disk), a.inodes, Root(a.disk), b.inodes, h)
  {
    match c
    case Open(name) =>
      if g: nat, k: nat :| OpensAs(name, m, a, b, g, k) {
        assert !Unlinked(Root(a.disk), Root(a.disk)[k].sector);
        OpenedLife(a.inodes, b.inodes, Root(a.disk)[k].sector, b.inodes[b.handles[g].inode].data, b.handles[g].inode, h);
      }
    case OpenRoot =>
      if g: nat :| OpensRootAs(a, b, g) { OpenedLife(a.inodes, b.inodes, 1, b.inodes[b.handles[g].inode].data, b.handles[g].inode, h); }
    case Reopen(g) => InodeLife(a.inodes, a.handles[g].inode, Reopened(a.inodes[a.handles[g].inode]), h);
    case Deny(g) => InodeLife(a.inodes, a.handles[g].inode, WithDeny(a.inodes[a.handles[g].inode], a.handles[g].denyWrite, true), h);
    case Allow(g) => InodeLife(a.inodes, a.handles[g].inode, WithDeny(a.inodes[a.handles[g].inode], a.handles[g].denyWrite, false), h);
    case CloseDir(g) =>
      assert HandleOk(a.inodes, a.handles[g]);
      InodeLife(a.inodes, a.handles[g].inode, Dropped(a.inodes[a.handles[g].inode]), h);
    case _ =>
  }

  lemma OpenedLife(inodes: map<nat, Inode>, inodes': map<nat, Inode>, sector: nat, data: InodeDisk, i: nat, h: nat)
    requires Opened(inodes, inodes', sector, data, i)
    ensures h != sector ==> (NotOpen(inodes', h) <==> NotOpen(inodes, h))
    ensures !NotOpen(inodes', sector)
  {
    if i in inodes { InodeLife(inodes, i, Reopened(inodes[i]), h); }
    assert inodes'[i].sector == sector;
    if !NotOpen(inodes, h) {
      var j :| j in inodes && inodes[j].sector == h;
      assert inodes'[j].sector == h;
    }
  }

  /** What each call does to the lost sectors, exactly: it adds what it loses, and none comes back. */
  lemma CallLoses(c: Call, m: Memory, a: Snap, b: Snap)
    requires Follows(c, m, a, b)
    ensures |LostIn(b)| == |LostIn(a)| + LostBy(c, m, a) && LostIn(a) <= LostIn(b)
  {
    if CanCall(c, a.handles, a.file) {
      if c.Create? {
        CreateLost(c, m, a, b);
      } else if c.Remove? {
        RemoveLost(c.name, m, a, b);
      } else if c.Close? {
        CloseLost(c.h, m, a, b);
      } else {
        QuietLost(c, m, a, b);
      }
    }
  }

  // ----- whole runs

  /** What the first n calls of a run lose. */
  ghost function LostBefore(calls: seq<(Call, Memory)>, trace: seq<Snap>, n: nat): nat
    requires n <= |calls| && n <= |trace|
  {
    if n == 0 then 0 else LostBefore(calls, trace, n - 1) + LostAt(calls, trace, n - 1)
  }

  ghost function LostAt(calls: seq<(Call, Memory)>, trace: seq<Snap>, n: nat): nat
    requires n < |calls| && n < |trace|
  {
    if StateOk(trace[n]) then LostBy(calls[n].0, calls[n].1, trace[n]) else 0
  }

  lemma LinkLoses(calls: seq<(Call, Memory)>, trace: seq<Snap>, n: nat)
    requires Traced(calls, trace) && n < |calls|
    ensures StateOk(trace[n]) && StateOk(trace[n + 1]) && LostIn(trace[n]) <= LostIn(trace[n + 1])
    ensures LostCount(trace[n + 1]) == LostCount(trace[n]) + LostAt(calls, trace, n)
  {
    assert Linked(calls, trace, n);
    CallLoses(calls[n].0, calls[n].1, trace[n], trace[n + 1]);
  }

  /** Conservation over every run: the free map marks the sectors of the live files, those lost at
      the start and those lost by the calls since, and no others. */
  lemma {:induction false} SectorsConserved(calls: seq<(Call, Memory)>, trace: seq<Snap>, n: nat)
    requires Traced(calls, trace) && n <= |calls|
    ensures LostCount(trace[n]) == LostCount(trace[0]) + LostBefore(calls, trace, n)
    decreases n
  {
    if n > 0 {
      SectorsConserved(calls, trace, n - 1);
      assert LostCount(trace[n]) == LostCount(trace[n - 1]) + LostAt(calls, trace, n - 1) by { LinkLoses(calls, trace, n - 1); }
    }
  }

  /** What is lost stays lost. */
  lemma {:induction false} LostForGood(calls: seq<(Call, Memory)>, trace: seq<Snap>, n: nat, s: nat)
    requires Traced(calls, trace) && n <= |calls| && StateOk(trace[0]) && s in LostIn(trace[0])
    ensures StateOk(trace[n]) && s in LostIn(trace[n])
    decreases n
  {
    if n > 0 {
      LostForGood(calls, trace, n - 1, s);
      LinkLoses(calls, trace, n - 1);
    }
  }

  /** Every sector is free or belongs to a live file. */
  ghost predicate MapExact(a: Snap)
    requires HasRoot(a.disk)
  {
    forall s: nat :: s < |a.marked| && a.marked[s] ==> InLiveFile(a.owner, Root(a.disk), a.inodes, s)
  }

  lemma NoneLost(a: Snap)
    requires HasRoot(a.disk)
    ensures MapExact(a) <==> |LostIn(a)| == 0
  {
    if LostIn(a) == {} {
      forall s: nat | s < |a.marked| && a.marked[s]
        ensures InLiveFile(a.owner, Root(a.disk), a.inodes, s)
      {
        assert s !in LostIn(a);
      }
    } else {
      var s :| s in LostIn(a);
      assert !MapExact(a);
    }
  }

  /** From a state in which nothing is lost, as after formatting: every sector is free or belongs to a
      live file if and only if no call so far has lost any. */
  lemma MapExactIff(calls: seq<(Call, Memory)>, trace: seq<Snap>, n: nat)
    requires Traced(calls, trace) && n <= |calls| && StateOk(trace[0]) && LostIn(trace[0]) == {}
    ensures StateOk(trace[n]) && (MapExact(trace[n]) <==> LostBefore(calls, trace, n) == 0)
  {
    if n > 0 { assert Linked(calls, trace, n - 1); }
    SectorsConserved(calls, trace, n);
    NoneLost(trace[n]);
  }

  /** Creating a file under a name that is bound loses its sectors, if there is room for them. */
  lemma CreateAgainLoses(c: Call, m: Memory, a: Snap)
    requires StateOk(a) && Unique(Root(a.disk)) && c.Create? && CanCall(c, a.handles, a.file)
    requires c.name in Bindings(Root(a.disk)) && ReadsAll(m) && MakesFile(c.size, m, a)
    ensures LostBy(c, m, a) == Sectors(c.size)
  {
    var es := Root(a.disk);
    if Found(es, c.name, m.lookup, None) { LookupIsBinding(es, c.name, m.lookup, None); }
  }

  /** A Create whose memory ends with the search for a slot, when the first entry names a closed file,
      loses that whole file: nothing names it or has it open, and its sectors stay marked. */
  lemma OverwriteLoses(c: Call, m: Memory, a: Snap, b: Snap)
    requires Follows(c, m, a, b) && c.Create? && CanCall(c, a.handles, a.file) && MakesFile(c.size, m, a) && 1 <= |c.name| <= 14
    requires m.search == 0 && m.write && Found(Root(a.disk), c.name, m.lookup, None)
    requires Root(a.disk)[0].inUse && NotOpen(a.inodes, Root(a.disk)[0].sector)
    ensures var f := Root(a.disk)[0].sector;
            && f < |a.disk| && LostBy(c, m, a) == 1 + Sectors(Header(a.disk[f]).length)
            && Head(b.owner, f) && !Live(Root(b.disk), b.inodes, f)
  {
    var es := Root(a.disk);
    AddableSlot(es, c.name, m, 0);
    assert Overwrites(es, m.search);
    EntryLive(a.disk, a.marked, a.owner, a.inodes, 0);
    var slot: nat, e :| CreatesEntry(c.name, c.size, m, a, b, slot, e);
    OverwritesSlot(es, m.search, slot);
    NotNamed(es, a.owner, a.inodes, slot, e);
    CreateKeepsHead(c.name, c.size, m, a, b, es[0].sector);
  }

  // ----- names of open files

  /** Every open file that has not been removed has a name. */
  ghost predicate AllNamed(a: Snap)
    requires HasRoot(a.disk)
  {
    forall i {:trigger NamedInode(a, i)} :: i in a.inodes ==> NamedInode(a, i)
  }

  ghost predicate NamedInode(a: Snap, i: nat)
    requires HasRoot(a.disk) && i in a.inodes
  {
    a.inodes[i].sector >= 2 && !a.inodes[i].removed ==> !Unlinked(Root(a.disk), a.inodes[i].sector)
  }

  /** The call writes over the entry of a file that is open. */
  ghost predicate TakesName(c: Call, m: Memory, a: Snap)
    requires HasRoot(a.disk)
  {
    && CanCall(c, a.handles, a.file) && c.Create? && MakesFile(c.size, m, a) && Addable(Root(a.disk), c.name, m)
    && Overwrites(Root(a.disk), m.search) && !NotOpen(a.inodes, Root(a.disk)[m.search].sector)
  }

  lemma StillNamed(es: seq<Entry>, k: nat, e: Entry, f: nat)
    requires k < |es| && !Unlinked(es, f) && !(es[k].inUse && es[k].sector == f)
    ensures !Unlinked(es[k := e], f)
  {
    var j :| 0 <= j < |es| && es[j].inUse && es[j].sector == f;
    assert es[k := e][j] == es[j];
  }

  lemma LinkedNamed(c: Call, m: Memory, a: Snap, b: Snap, slot: nat, e: Entry)
    requires StateOk(a) && StateOk(b) && c.Create? && CreatesEntry(c.name, c.size, m, a, b, slot, e) && b.inodes == a.inodes && AllNamed(a)
    ensures slot < 16 && (AllNamed(b) <==> !(Root(a.disk)[slot].inUse && !NotOpen(a.inodes, Root(a.disk)[slot].sector)))
  {
    var es := Root(a.disk);
    if es[slot].inUse && !NotOpen(a.inodes, es[slot].sector) {
      var i :| i in a.inodes && a.inodes[i].sector == es[slot].sector;
      EntryLive(a.disk, a.marked, a.owner, a.inodes, slot);
      NotNamed(es, a.owner, a.inodes, slot, e);
      assert !NamedInode(b, i);
    } else {
      forall i | i in b.inodes
        ensures NamedInode(b, i)
      {
        assert NamedInode(a, i);
        if b.inodes[i].sector >= 2 && !b.inodes[i].removed { StillNamed(es, slot, e, b.inodes[i].sector); }
      }
    }
  }

  lemma CreateNamed(c: Call, m: Memory, a: Snap, b: Snap)
    requires StateOk(a) && StateOk(b) && CanCall(c, a.handles, a.file) && c.Create? && Creates(c.name, c.size, m, a, b) && AllNamed(a)
    ensures AllNamed(b) <==> !TakesName(c, m, a)
  {
    if slot: nat, e :| CreatesEntry(c.name, c.size, m, a, b, slot, e) {
      OverwritesSlot(Root(a.disk), m.search, slot);
      LinkedNamed(c, m, a, b, slot, e);
    } else {
      forall i | i in b.inodes
        ensures NamedInode(b, i)
      {
        assert NamedInode(a, i);
      }
    }
  }

  lemma RemoveNamed(name: Name, m: Memory, a: Snap, b: Snap)
    requires StateOk(a) && StateOk(b) && Removes(name, m, a, b) && AllNamed(a)
    ensures AllNamed(b)
  {
    if k: nat :| RemovesEntry(name, m, a, b, k) {
      var es := Root(a.disk);
      forall j | j in b.inodes
        ensures NamedInode(b, j)
      {
        RemovedPersists(a, b, es[k].sector, j);
        assert NamedInode(a, j);
        if b.inodes[j].sector >= 2 && !b.inodes[j].removed {
          OtherRemoved(a, b, es[k].sector, j);
          StillNamed(es, k, es[k].(inUse := false), b.inodes[j].sector);
        }
      }
    } else {
      forall j | j in b.inodes
        ensures NamedInode(b, j)
      {
        assert NamedInode(a, j);
      }
    }
  }

  /** An inode that is still not removed is not that of the file whose name went. */
  lemma OtherRemoved(a: Snap, b: Snap, f: nat, j: nat)
    requires StateOk(a) && f < |a.disk| && RemovedFile(a.inodes, b.inodes, f, Header(a.disk[f]), a.marked, b.marked, a.owner, b.owner)
    requires j in a.inodes && j in b.inodes && !b.inodes[j].removed
    ensures b.inodes[j].sector != f
  {
    if !NotOpen(a.inodes, f) {
      var i :| i in a.inodes && a.inodes[i].sector == f && b.inodes == a.inodes[i := Removed(a.inodes[i])];
      if j != i { assert Apart(a.inodes, i, j); }
    }
  }

  lemma OtherNamed(c: Call, m: Memory, a: Snap, b: Snap, j: nat)
    requires Follows(c, m, a, b) && CanCall(c, a.handles, a.file) && !c.Create? && !c.Remove? && AllNamed(a) && j in b.inodes
    ensures NamedInode(b, j)
  {
    if j in a.inodes {
      InodePersists(c, m, a, b, j);
      assert NamedInode(a, j);
    } else if c.Open? {
      var g: nat, k: nat :| OpensAs(c.name, m, a, b, g, k);
      assert !Unlinked(Root(a.disk), Root(a.disk)[k].sector);
    } else if c.OpenRoot? {
      var g: nat :| OpensRootAs(a, b, g);
      assert b.inodes[j].sector == 1;
    }
  }

  /** Open files keep their names exactly through calls that do not write over one. */
  lemma FollowsNamed(c: Call, m: Memory, a: Snap, b: Snap)
    requires Follows(c, m, a, b) && AllNamed(a)
    ensures AllNamed(b) <==> !TakesName(c, m, a)
  {
    if CanCall(c, a.handles, a.file) {
      if c.Create? {
        CreateNamed(c, m, a, b);
      } else if c.Remove? {
        RemoveNamed(c.name, m, a, b);
      } else {
        forall j | j in b.inodes
          ensures NamedInode(b, j)
        {
          OtherNamed(c, m, a, b, j);
        }
      }
    }
  }

  /** With memory for dir_add's search no open file loses its name, over every run. */
  lemma {:induction false} TraceNamed(calls: seq<(Call, Memory)>, trace: seq<Snap>, n: nat)
    requires Traced(calls, trace) && n <= |calls| && StateOk(trace[0]) && AllNamed(trace[0])
    requires forall j :: 0 <= j < n ==> calls[j].1.search >= 16
    ensures StateOk(trace[n]) && AllNamed(trace[n])
    decreases n
  {
    if n > 0 {
      TraceNamed(calls, trace, n - 1);
      LinkNamed(calls, trace, n - 1);
    }
  }

  lemma LinkNamed(calls: seq<(Call, Memory)>, trace: seq<Snap>, n: nat)
    requires Traced(calls, trace) && n < |calls| && StateOk(trace[n]) && AllNamed(trace[n]) && calls[n].1.search >= 16
    ensures StateOk(trace[n + 1]) && AllNamed(trace[n + 1])
  {
    assert Linked(calls, trace, n);
    FollowsNamed(calls[n].0, calls[n].1, trace[n], trace[n + 1]);
  }

  /** So with that memory sectors are lost only by a Create that makes a file and cannot link it. */
  lemma OnlyUnlinkedLose(c: Call, m: Memory, a: Snap)
    requires StateOk(a) && AllNamed(a) && m.search >= 16
    ensures LostBy(c, m, a) > 0 <==> CanCall(c, a.handles, a.file) && c.Create? && c.size > 0 && MakesFile(c.size, m, a) && !Addable(Root(a.disk), c.name, m)
  {
    assert c.Close? && c.h in a.handles && a.handles[c.h].inode in a.inodes ==> NamedInode(a, a.handles[c.h].inode);
  }

  // ----- rebooting

  /** After a reboot nothing is open. That loses the files that were open and had no name, and
      nothing is lost if and only if there were none. */
  lemma RebootLoses(a: Snap)
    requires StateOk(a)
    ensures LostIn(a) <= Lost(a.marked, a.owner, Root(a.disk), map[])
    ensures Lost(a.marked, a.owner, Root(a.disk), map[]) == LostIn(a) <==>
              forall i :: i in a.inodes && a.inodes[i].sector >= 2 ==> !Unlinked(Root(a.disk), a.inodes[i].sector)
  {
    var es := Root(a.disk);
    if i :| i in a.inodes && a.inodes[i].sector >= 2 && Unlinked(es, a.inodes[i].sector) {
      var f := a.inodes[i].sector;
      assert InodeOk(a.disk, a.owner, a.inodes[i]) && SectorOwned(a.disk, a.marked, a.owner, f);
      assert f !in LostIn(a) && f in Lost(a.marked, a.owner, es, map[]);
    } else {
      forall h: nat
        ensures SameLife(es, a.inodes, es, map[], h)
      {
      }
      LifeKept(a.disk, a.marked, a.owner, es, a.inodes, es, map[]);
    }
  }

  /** The kernel's handle on the free map file is the only one, so only that file is open. */
  lemma OnlyMapOpen(inodes: map<nat, Inode>, handles: map<nat, Handle>, file: Option<nat>)
    requires CountsOk(inodes, handles, multiset{}) && file.Some? && handles.Keys == {file.value} && FreeMapFileOk(file, inodes, handles)
    ensures forall i :: i in inodes ==> inodes[i].sector == 0
  {
    forall i | i in inodes
      ensures inodes[i].sector == 0
    {
      assert CountOk(inodes[i], handles, multiset{}, i);
      var h :| h in Holding(handles, i);
    }
  }

  /** Then the files with names are the live ones. */
  lemma OnlyNamesLive(a: Snap)
    requires HasRoot(a.disk) && forall i :: i in a.inodes ==> a.inodes[i].sector == 0
    ensures LostIn(a) == Lost(a.marked, a.owner, Root(a.disk), map[]) && AllNamed(a)
  {
    forall s: nat
      ensures InLiveFile(a.owner, Root(a.disk), a.inodes, s) == InLiveFile(a.owner, Root(a.disk), map[], s)
    {
    }
  }

  // ----- formatting

  /** The sectors taken are those of the free map file and the root directory, and those in left. */
  ghost predicate OnlyFixed(marked: seq<bool>, owner: Owner, left: set<nat>)
  {
    && (forall s :: s in owner ==> owner[s] < 2)
    && (forall s: nat :: s < |marked| && marked[s] ==> s in owner || s in left)
  }

  lemma FixedMade(disk: seq<Sector>, marked: seq<bool>, marked': seq<bool>, owner: Owner, owner': Owner, h: nat, length: nat, left: set<nat>)
    requires Created(marked, marked', owner, owner', disk, h, length) && h < 2 && OnlyFixed(marked, owner, left)
    ensures OnlyFixed(marked', owner', left - {h})
  {
    var d := Header(disk[h]);
    forall s: nat
      ensures s in owner' <==> s in owner || s == h || InRun(d, s)
    {
    }
  }

  lemma FirstMade(disk: seq<Sector>, marked: seq<bool>, marked': seq<bool>, owner: Owner, length: nat)
    requires (forall s :: 0 <= s < |marked| ==> marked[s] == (s < 2)) && Created(marked, marked', map[], owner, disk, 0, length)
    ensures OnlyFixed(marked', owner, {1})
  {
    FixedMade(disk, marked, marked', map[], owner, 0, length, {0, 1});
  }

  lemma NothingLost(a: Snap)
    requires HasRoot(a.disk) && OnlyFixed(a.marked, a.owner, {}) && forall i :: i in a.inodes ==> a.inodes[i].sector == 0
    ensures LostIn(a) == {} && AllNamed(a)
  {
    forall s: nat | s < |a.marked| && a.marked[s]
      ensures InLiveFile(a.owner, Root(a.disk), a.inodes, s)
    {
    }
  }
}
