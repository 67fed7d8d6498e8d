/** The file system (filesys/inode.c, free-map.c, file.c, directory.c, filesys.c) over an array of
    sectors. Whether a memory allocation succeeds is a parameter of each call. In-memory inodes
    and handles are records named by their addresses. */
module FileSys {
  import opened Wrappers
  import opened Slices
  import opened Bytes
  import opened Bitmap
  import opened InodeData
  import opened Directory
  import opened FileSysState
  import opened FileSysCalls
  import opened FileSysSectors

  class FileSystem {
    var disk: seq<Sector>
    const freeMap: BitMap
    var freeMapFile: Option<nat>
    var inodes: map<nat, Inode>
    var openInodes: seq<nat>
    var handles: map<nat, Handle>
    var next: nat                 // the next unused address
    ghost var owner: Owner

    /** inode_init and free_map_init: nothing is open, and only the two fixed inode sectors are
        marked. */
    constructor (disk: seq<Sector>)
      requires 2 <= |disk| < 0x1_0000_0000
      ensures fresh(freeMap) && fresh(freeMap.bits) && Blank() && this.disk == disk
    {
      var storage := new Word[(|disk| + 31) / 32];
      var bitmap := new BitMap(|disk|, storage);
      bitmap.Mark(0);
      bitmap.Mark(1);
      this.disk, freeMap, freeMapFile := disk, bitmap, None;
      inodes, openInodes, handles, next := map[], [], map[], 0;
      owner := map[];
    }

    // ----- reading and writing inodes

    /** inode_read_at: returns exactly the bytes of the file that it promises. */
    method InodeReadAt(i: nat, size0: int, offset0: nat, bounceOk: bool) returns (got: seq<byte>)
      requires i in inodes && OnDisk(|disk|, inodes[i].data)
      ensures |got| == Transfer(size0, offset0, inodes[i].data.length, bounceOk)
      ensures Greatest(size0, offset0, inodes[i].data.length, bounceOk, |got|)
      ensures Reads(Contents(disk, inodes[i].data), offset0, got)
    {
      var size, offset := size0, offset0;
      var d := inodes[i].data;
      var bounce := false;
      TransferGreatest(size0, offset0, d.length, bounceOk);
      got := [];
      while size > 0
        invariant offset == offset0 + |got|
        invariant |got| + Transfer(size, offset, d.length, bounceOk) == Transfer(size0, offset0, d.length, bounceOk)
        invariant Reads(Contents(disk, d), offset0, got)
        invariant bounce ==> bounceOk
      {
        var chunkSize := Chunk(size, offset, d.length);
        TransferStep(size, offset, d.length, bounceOk, chunkSize);
        if chunkSize <= 0 {
          break;
        }
        if !(offset % 512 == 0 && chunkSize == 512) && !bounce {
          bounce := bounceOk;
          if !bounce {
            break;
          }
        }
        ChunkFits(size, offset, d.length);
        var chunk := ReadChunk(d, offset, chunkSize);
        ReadsMore(Contents(disk, d), offset0, got, chunk);
        size, offset, got := size - chunkSize, offset + chunkSize, got + chunk;
      }
    }

    /** One turn of the loop in inode_read_at. */
    method ReadChunk(d: InodeDisk, offset: nat, n: nat) returns (chunk: seq<byte>)
      requires OnDisk(|disk|, d) && offset % 512 + n <= 512 && offset + n <= d.length && n > 0
      ensures |chunk| == n && Reads(Contents(disk, d), offset, chunk)
    {
      var sectorIdx := d.start + offset / 512;
      var sectorOfs := offset % 512;
      ChunkRead(disk, d, offset, n);
      if sectorOfs == 0 && n == 512 {
        chunk := disk[sectorIdx];
      } else {
        chunk := disk[sectorIdx][sectorOfs..sectorOfs + n];
      }
    }

    /** inode_write_at: puts exactly the promised bytes into the file and changes no other byte. */
    method InodeWriteAt(i: nat, buffer: seq<byte>, offset0: nat, bounceOk: bool) returns (written: nat)
      requires i in inodes && OnDisk(|disk|, inodes[i].data)
      modifies this`disk
      ensures written == if inodes[i].denyWriteCnt > 0 then 0 else Transfer(|buffer|, offset0, inodes[i].data.length, bounceOk)
      ensures inodes[i].denyWriteCnt == 0 ==> Greatest(|buffer|, offset0, inodes[i].data.length, bounceOk, written)
      ensures written <= |buffer| && Written(old(disk), disk, inodes[i].data.start, offset0, buffer[..written])
    {
      var d := inodes[i].data;
      written := 0;
      WrittenNothing(disk, d.start, offset0);
      TransferGreatest(|buffer|, offset0, d.length, bounceOk);
      if inodes[i].denyWriteCnt > 0 {
        return;
      }
      var size: int, offset := |buffer|, offset0;
      var bounce := false;
      while size > 0
        invariant written <= |buffer| && size == |buffer| - written && offset == offset0 + written
        invariant written + Transfer(size, offset, d.length, bounceOk) == Transfer(|buffer|, offset0, d.length, bounceOk)
        invariant Written(old(disk), disk, d.start, offset0, buffer[..written])
        invariant bounce ==> bounceOk
      {
        var chunkSize := Chunk(size, offset, d.length);
        TransferStep(size, offset, d.length, bounceOk, chunkSize);
        if chunkSize <= 0 {
          break;
        }
        if !(offset % 512 == 0 && chunkSize == 512) && !bounce {
          bounce := bounceOk;
          if !bounce {
            break;
          }
        }
        ChunkFits(size, offset, d.length);
        ghost var before := disk;
        WriteChunk(d, offset, buffer[written..written + chunkSize]);
        WrittenMore(old(disk), before, disk, d.start, offset0, buffer, written, chunkSize);
        size, offset, written := size - chunkSize, offset + chunkSize, written + chunkSize;
      }
    }

    /** One turn of the loop in inode_write_at. */
    method WriteChunk(d: InodeDisk, offset: nat, chunk: seq<byte>)
      requires OnDisk(|disk|, d) && offset % 512 + |chunk| <= 512 && offset + |chunk| <= d.length && chunk != []
      modifies this`disk
      ensures Written(old(disk), disk, d.start, offset, chunk)
    {
      var sectorIdx := d.start + offset / 512;
      var sectorOfs := offset % 512;
      var sectorLeft := 512 - sectorOfs;
      var sector: Sector;
      if sectorOfs == 0 && |chunk| == 512 {
        sector := chunk;
      } else {
        assert sectorOfs > 0 || |chunk| < sectorLeft;     // so a zeroed buffer is never written
        var bounce: Sector := seq(512, _ => 0);
        if sectorOfs > 0 || |chunk| < sectorLeft {
          bounce := disk[sectorIdx];
        }
        sector := bounce[..sectorOfs] + chunk + bounce[sectorOfs + |chunk|..];
      }
      ChunkWritten(disk, d.start, offset, chunk, sector);
      disk := disk[sectorIdx := sector];
    }

    // ----- the free map

    /** The disk side of the invariant, with the sectors in marked taken: sectors and their owners,
        in-memory inodes. */
    ghost predicate BaseOn(marked: seq<bool>)
      reads this, freeMap, freeMap.bits
    {
      && freeMap.Valid() && freeMap.bitCnt == |disk| && |disk| < 0x1_0000_0000
      && Owned(disk, marked, owner) && InodesOk(disk, owner, inodes)
      && FreeMapFileOk(freeMapFile, inodes, handles)
    }

    ghost predicate Base()
      reads this, freeMap, freeMap.bits
    {
      freeMap.Valid() && BaseOn(freeMap.Bits())
    }

    /** Would writing the free map to its file succeed? */
    ghost predicate CanSaveMap(bounceOk: bool)
      reads this, freeMap.bits
    {
      CanSave(freeMapFile, inodes, handles, 4 * freeMap.bits.Length, bounceOk)
    }

    /** bitmap_write to the free map file. */
    method BitmapWrite(bounceOk: bool) returns (ok: bool)
      requires Base() && freeMapFile.Some?
      modifies this`disk
      ensures Base() && OnlyData(old(disk), disk, owner, {0})
      ensures ok <==> CanSaveMap(bounceOk)
      ensures ok ==> MapSaved(disk, freeMap.Bits())
    {
      var i := handles[freeMapFile.value].inode;
      var bytes := FileBytes(freeMap.bits[..]);
      InodeOnDisk(disk, freeMap.Bits(), owner, inodes, i);
      var written := InodeWriteAt(i, bytes, 0, bounceOk);
      InodeWrite(old(disk), disk, freeMap.Bits(), owner, inodes, i, 0, bytes[..written]);
      ok := written == |bytes|;
      if ok {
        assert bytes[..written] == bytes;
        if bytes != [] { WrittenContents(old(disk), disk, inodes[i].data, 0, bytes); }
        assert SavedAs(disk, freeMap.Bits(), freeMap.bits[..]);
      }
    }

    /** free_map_allocate: first fit; on failure the map is as it was. */
    method FreeMapAllocate(cnt: nat, bounceOk: bool) returns (r: Option<nat>)
      requires Base()
      modifies this`disk, freeMap.bits
      ensures Base() && OnlyData(old(disk), disk, owner, {0})
      ensures r.Some? ==> FirstFit(old(freeMap.Bits()), 0, cnt, false, r.value)
                          && freeMap.Bits() == Filled(old(freeMap.Bits()), r.value, cnt, true)
                          && (freeMapFile.Some? ==> MapSaved(disk, freeMap.Bits()))
      ensures r.None? ==> freeMap.Bits() == old(freeMap.Bits())
      ensures r.Some? <==> HasFit(old(freeMap.Bits()), cnt) && CanSaveMap(bounceOk)
      ensures r.None? && CanSaveMap(bounceOk) ==> disk == old(disk)
    {
      ghost var bits := freeMap.Bits();
      r := freeMap.ScanAndFlip(0, cnt, false);
      if r.Some? {
        FirstFitFits(bits, cnt, r.value);
        OwnedFrame(disk, disk, bits, freeMap.Bits(), owner, {});
        if freeMapFile.Some? {
          var saved := BitmapWrite(bounceOk);
          if !saved {
            freeMap.SetMultiple(r.value, cnt, false);
            FillBack(bits, r.value, cnt, true);
            OwnedFrame(old(disk), disk, bits, bits, owner, {0});
            r := None;
          }
        }
      }
    }

    /** free_map_release, of sectors that nobody owns any more. */
    method FreeMapRelease(sector: nat, cnt: nat, bounceOk: bool)
      requires Base() && freeMapFile.Some? && sector + cnt <= |disk|
      requires All(freeMap.Bits(), sector, cnt, true)
      requires forall s :: sector <= s < sector + cnt ==> s !in owner
      modifies this`disk, freeMap.bits
      ensures Base() && OnlyData(old(disk), disk, owner, {0})
      ensures freeMap.Bits() == Filled(old(freeMap.Bits()), sector, cnt, false)
      ensures CanSaveMap(bounceOk) ==> MapSaved(disk, freeMap.Bits())
    {
      ghost var bits := freeMap.Bits();
      freeMap.SetMultiple(sector, cnt, false);
      OwnedFrame(disk, disk, bits, freeMap.Bits(), owner, {});
      var _ := BitmapWrite(bounceOk);
    }

    // ----- creating inodes

    method ZeroSectors(start: nat, cnt: nat)
      requires start + cnt <= |disk|
      modifies this`disk
      ensures |disk| == |old(disk)|
      ensures forall s :: start <= s < start + cnt ==> disk[s] == seq(512, _ => 0)
      ensures forall s :: 0 <= s < |disk| && !(start <= s < start + cnt) ==> disk[s] == old(disk)[s]
    {
      var zeros: Sector := seq(512, _ => 0);
      for i := 0 to cnt
        invariant |disk| == |old(disk)|
        invariant forall s :: start <= s < start + i ==> disk[s] == zeros
        invariant forall s :: 0 <= s < |disk| && !(start <= s < start + i) ==> disk[s] == old(disk)[s]
      {
        disk := disk[start + i := zeros];
      }
    }

    /** inode_create: the new file takes the first free run, reads as zeros and shares no sector
        with any other file. */
    method InodeCreate(sector: nat, length: nat, callocOk: bool, bounceOk: bool) returns (ok: bool)
      requires Base() && sector < |disk| && freeMap.Bits()[sector] && sector !in owner
      requires length + 511 < 0x8000_0000
      modifies this`disk, this`owner, freeMap.bits
      ensures Base() && OnlyData(old(disk), disk, old(owner), {0})
      ensures !ok ==> owner == old(owner) && freeMap.Bits() == old(freeMap.Bits())
      ensures ok ==> Created(old(freeMap.Bits()), freeMap.Bits(), old(owner), owner, disk, sector, length)
      ensures ok && freeMapFile.Some? ==> MapSaved(disk, freeMap.Bits())
      ensures !ok && CanSaveMap(bounceOk) ==> disk == old(disk)
      ensures ok <==> callocOk && HasFit(old(freeMap.Bits()), Sectors(length)) && CanSaveMap(bounceOk)
      ensures ok ==> Header(disk[sector]).magic == 0x494e_4f44
    {
      if !callocOk {
        return false;
      }
      var sectors := Sectors(length);
      var start := FreeMapAllocate(sectors, bounceOk);
      if start.None? {
        return false;
      }
      var d := InodeDisk(start.value, length, 0x494e_4f44);
      ghost var before := disk;
      OwnedFrame(old(disk), before, old(freeMap.Bits()), old(freeMap.Bits()), owner, {0});
      FillInode(d, sector, old(freeMap.Bits()));
      OnlyDataTwice(old(disk), before, disk, old(owner), {0}, {});
      assert {0} + {} == {0};
      if freeMapFile.Some? {
        assert InodeOk(before, old(owner), inodes[handles[freeMapFile.value].inode]);
        SavedKept(before, disk, freeMap.Bits(), old(owner), {}, freeMap.Bits());
      }
      ok := true;
    }

    /** Writes the new inode and zeros its data. */
    method FillInode(d: InodeDisk, sector: nat, ghost marked: seq<bool>)
      requires Base() && Fitting(marked, freeMap.Bits(), owner, sector, d) && Owned(disk, marked, owner)
      modifies this`disk, this`owner
      ensures Base() && OnlyData(old(disk), disk, old(owner), {})
      ensures Created(marked, freeMap.Bits(), old(owner), owner, disk, sector, d.length)
      ensures Header(disk[sector]) == d
    {
      HeaderRoundTrip(d);
      disk := disk[sector := HeaderSector(d)];
      ZeroSectors(d.start, Sectors(d.length));
      Adopt(old(disk), marked, d, sector);
    }

    /** Takes note of the new file's sectors. */
    ghost method Adopt(before: seq<Sector>, marked: seq<bool>, d: InodeDisk, h: nat)
      requires freeMap.Valid() && freeMap.bitCnt == |disk| == |before| && |disk| < 0x1_0000_0000
      requires Owned(before, freeMap.Bits(), owner) && InodesOk(before, owner, inodes) && FreeMapFileOk(freeMapFile, inodes, handles)
      requires Fitting(marked, freeMap.Bits(), owner, h, d) && Owned(before, marked, owner)
      requires Header(disk[h]) == d && ZeroRun(disk, d)
      requires forall s :: 0 <= s < |disk| && s != h && !InRun(d, s) ==> disk[s] == before[s]
      modifies this`owner
      ensures owner == Adopted(old(owner), h, d) && Base() && Head(owner, h)
      ensures OnlyData(before, disk, old(owner), {})
    {
      FittingSpare(before, marked, freeMap.Bits(), owner, h, d);
      assert OnlyData(before, disk, owner, {});
      OwnedFrame(before, disk, freeMap.Bits(), freeMap.Bits(), owner, {});
      AdoptOwned(disk, freeMap.Bits(), owner, h, d);
      SameHeads(before, owner, inodes);
      InodesFrame(before, disk, owner, Adopted(owner, h, d), inodes, {});
      owner := Adopted(owner, h, d);
    }

    // ----- opening and closing inodes

    ghost predicate Tables(held: multiset<nat>)
      reads this
    {
      TablesOk(openInodes, inodes, handles, next, held)
    }

    /** The search in inode_open. */
    method FindOpen(sector: nat, ghost held: multiset<nat>) returns (r: Option<nat>)
      requires Tables(held)
      ensures r.Some? ==> r.value in inodes && inodes[r.value].sector == sector
      ensures r.None? ==> NotOpen(inodes, sector)
    {
      var e := 0;
      while e < |openInodes|
        invariant e <= |openInodes|
        invariant forall k :: 0 <= k < e ==> inodes[openInodes[k]].sector != sector
      {
        var i := openInodes[e];
        if inodes[i].sector == sector {
          return Some(i);
        }
        e := e + 1;
      }
      return None;
    }

    /** inode_reopen */
    method InodeReopen(i: nat, ghost held: multiset<nat>, ghost marked: seq<bool>)
      requires BaseOn(marked) && Tables(held) && i in inodes
      modifies this`inodes
      ensures BaseOn(marked) && Tables(held + multiset{i}) && inodes == old(inodes)[i := Reopened(old(inodes)[i])]
      ensures RootKept(disk, owner, old(inodes), disk, owner, inodes)
    {
      CountsReopen(inodes, handles, held, i);
      InodeOnDisk(disk, marked, owner, inodes, i);
      OpenInodesOk(disk, marked, owner, inodes, inodes[i := Reopened(inodes[i])], inodes[i].sector, i);
      RootOpen(disk, owner, inodes, inodes[i := Reopened(inodes[i])], inodes[i].sector, inodes[i].data, i);
      inodes := inodes[i := Reopened(inodes[i])];
    }

    method NewInode(sector: nat, ghost held: multiset<nat>, ghost marked: seq<bool>) returns (i: nat)
      requires BaseOn(marked) && Tables(held) && Head(owner, sector) && sector < |disk| && NotOpen(inodes, sector)
      modifies this`inodes, this`openInodes, this`next
      ensures BaseOn(marked) && Tables(held + multiset{i})
      ensures i !in old(inodes) && inodes == old(inodes)[i := Inode(sector, 1, false, 0, Header(disk[sector]))]
      ensures RootKept(disk, owner, old(inodes), disk, owner, inodes)
    {
      i := next;
      var x := Inode(sector, 1, false, 0, Header(disk[sector]));
      OpenTables(openInodes, inodes, handles, next, held, sector, x.data);
      OpenInodesOk(disk, marked, owner, inodes, inodes[i := x], sector, i);
      RootOpen(disk, owner, inodes, inodes[i := x], sector, x.data, i);
      openInodes := [i] + openInodes;
      inodes := inodes[i := x];
      next := next + 1;
    }

    /** inode_open: an inode already in memory for the sector is shared. */
    method InodeOpen(sector: nat, mallocOk: bool, ghost held: multiset<nat>, ghost marked: seq<bool>) returns (r: Option<nat>)
      requires BaseOn(marked) && Tables(held) && Head(owner, sector) && sector < |disk|
      modifies this`inodes, this`openInodes, this`next
      ensures BaseOn(marked)
      ensures r.None? <==> NotOpen(old(inodes), sector) && !mallocOk
      ensures RootKept(disk, owner, old(inodes), disk, owner, inodes)
      ensures r.None? ==> Tables(held) && inodes == old(inodes)
      ensures r.Some? ==> Tables(held + multiset{r.value}) && Opened(old(inodes), inodes, sector, Header(disk[sector]), r.value)
    {
      r := FindOpen(sector, held);
      if r.Some? {
        InodeReopen(r.value, held, marked);
      } else if mallocOk {
        var i := NewInode(sector, held, marked);
        r := Some(i);
      }
    }

    /** The end of inode_close for a removed file: gives back its inode sector and its run. */
    method ReleaseInode(x: Inode, bounceOk: bool, bounceOk2: bool)
      requires Base() && freeMapFile.Some? && InodeOk(disk, owner, x) && NotOpen(inodes, x.sector)
      modifies this`disk, this`owner, freeMap.bits
      ensures Base() && OnlyData(old(disk), disk, owner, {0})
      ensures owner == Disowned(old(owner), x.sector)
      ensures x.sector < |old(freeMap.Bits())| && OnDisk(|old(freeMap.Bits())|, x.data)
      ensures freeMap.Bits() == Filled(Filled(old(freeMap.Bits()), x.sector, 1, false), x.data.start, Sectors(x.data.length), false)
      ensures CanSaveMap(bounceOk2) ==> MapSaved(disk, freeMap.Bits())
    {
      OwnedMarked(disk, freeMap.Bits(), owner, x.sector);
      Disown(x.sector);
      FreeMapRelease(x.sector, 1, bounceOk);
      ghost var between := disk;
      FreeMapRelease(x.data.start, Sectors(x.data.length), bounceOk2);
      OnlyDataTwice(old(disk), between, disk, owner, {0}, {0});
      assert {0} + {0} == {0};
    }

    /** From here on nobody owns the file's sectors. */
    ghost method Disown(h: nat)
      requires Base() && Head(owner, h) && h < |disk| && NotOpen(inodes, h)
      modifies this`owner
      ensures Base() && owner == Disowned(old(owner), h)
      ensures h !in owner && forall s: nat :: InRun(Header(disk[h]), s) ==> s !in owner
    {
      assert RunOwned(disk, owner, h);
      DisownOwned(disk, freeMap.Bits(), owner, h);
      DisownInodesOk(disk, owner, inodes, h);
      owner := Disowned(owner, h);
    }

    /** Takes a closed inode out of memory. */
    method ForgetInode(i: nat, ghost held: multiset<nat>)
      requires Base() && Tables(held) && i in held && inodes[i].openCnt == 1
      modifies this`inodes, this`openInodes
      ensures Base() && Tables(held - multiset{i}) && inodes == old(inodes) - {i}
      ensures InodeOk(disk, owner, old(inodes)[i]) && NotOpen(inodes, old(inodes)[i].sector)
    {
      CloseTables(openInodes, inodes, handles, next, held, i);
      CloseInodesOk(disk, owner, inodes, i);
      openInodes := Without(openInodes, i);
      inodes := inodes - {i};
      if freeMapFile.Some? { assert HandleOk(inodes, handles[freeMapFile.value]); }
    }

    /** Drops a reference that is not the last. */
    method DropInode(i: nat, ghost held: multiset<nat>)
      requires Base() && Tables(held) && i in held && inodes[i].openCnt > 1
      modifies this`inodes
      ensures Base() && Tables(held - multiset{i}) && inodes == old(inodes)[i := Dropped(old(inodes)[i])]
    {
      CloseTables(openInodes, inodes, handles, next, held, i);
      ChangeInodesOk(disk, owner, inodes, i, Dropped(inodes[i]));
      inodes := inodes[i := Dropped(inodes[i])];
    }

    /** inode_close: the last close takes the inode out of memory and, if the file was removed,
        frees its sectors. */
    method InodeClose(i: nat, bounceOk: bool, bounceOk2: bool, ghost held: multiset<nat>)
      requires Base() && Tables(held) && i in held
      requires inodes[i].removed ==> freeMapFile.Some?
      modifies this`disk, this`owner, this`inodes, this`openInodes, freeMap.bits
      ensures Base() && Tables(held - multiset{i})
      ensures OnlyData(old(disk), disk, owner, {0})
      ensures Closed(old(inodes), inodes, i)
      ensures Released(old(inodes)[i], old(freeMap.Bits()), freeMap.Bits(), old(owner), owner)
      ensures RootKept(old(disk), old(owner), old(inodes), disk, owner, inodes)
      ensures !(old(inodes)[i].removed && old(inodes)[i].openCnt == 1) ==> disk == old(disk)
      ensures CanSaveMap(bounceOk2) ==> KeepsSaved(old(disk), old(freeMap.Bits()), disk, freeMap.Bits())
    {
      assert inodes[i].openCnt > 0 by { assert CountOk(inodes[i], handles, held, i); }
      var x := inodes[i];
      if x.openCnt == 1 {
        ForgetInode(i, held);
        if x.removed {
          ReleaseInode(x, bounceOk, bounceOk2);
        }
      } else {
        DropInode(i, held);
      }
      RootClose(old(disk), disk, old(freeMap.Bits()), old(owner), owner, old(inodes), inodes, i);
    }

    // ----- files

    /** What every call keeps; calls in progress may hold references of their own. */
    ghost predicate Inv(held: multiset<nat>)
      reads this, freeMap, freeMap.bits
    {
      Base() && Tables(held) && RootOk(disk, owner, inodes) && freeMapFile.Some?
    }

    ghost predicate Valid()
      reads this, freeMap, freeMap.bits
    {
      Inv(multiset{})
    }

    /** Turns a held reference into a handle. */
    method NewHandle(x: Handle, ghost held: multiset<nat>, ghost marked: seq<bool>) returns (h: nat)
      requires BaseOn(marked) && Tables(held) && x.inode in held && HandleOk(inodes, x) && (x.File? ==> !x.denyWrite)
      modifies this`handles, this`next
      ensures BaseOn(marked) && Tables(held - multiset{x.inode})
      ensures h !in old(handles) && handles == old(handles)[h := x]
    {
      h := next;
      CountsAdd(inodes, handles, held, h, x);
      handles := handles[h := x];
      next := next + 1;
    }

    /** Turns a handle back into a held reference. */
    method FreeHandle(h: nat, ghost held: multiset<nat>) returns (i: nat)
      requires Base() && Tables(held) && h in handles && freeMapFile != Some(h)
      requires handles[h].File? ==> !handles[h].denyWrite
      modifies this`handles
      ensures Base() && Tables(held + multiset{i}) && i in inodes
      ensures i == old(handles)[h].inode && handles == old(handles) - {h}
    {
      i := handles[h].inode;
      assert HandleOk(inodes, handles[h]);
      CountsRemove(inodes, handles, held, h);
      handles := handles - {h};
    }

    /** file_open: takes over a held reference, or gives it up. */
    method FileOpen(i: nat, m: Memory, ghost held: multiset<nat>) returns (r: Option<nat>)
      requires Inv(held) && i in held && inodes[i].sector != 1
      modifies this`inodes, this`openInodes, this`next, this`handles, this`disk, this`owner, freeMap.bits
      ensures Inv(held - multiset{i}) && Root(disk) == old(Root(disk)) && OnlyData(old(disk), disk, owner, {0})
      ensures r.Some? <==> m.file
      ensures r.Some? ==> r.value !in old(handles) && handles == old(handles)[r.value := File(i, 0, false)] && inodes == old(inodes)
      ensures r.Some? ==> owner == old(owner) && freeMap.Bits() == old(freeMap.Bits()) && disk == old(disk)
      ensures r.None? ==> handles == old(handles) && Closed(old(inodes), inodes, i)
                          && Released(old(inodes)[i], old(freeMap.Bits()), freeMap.Bits(), old(owner), owner)
      ensures !(old(inodes)[i].removed && old(inodes)[i].openCnt == 1) ==> disk == old(disk)
    {
      if m.file {
        var h := NewHandle(File(i, 0, false), held, freeMap.Bits());
        return Some(h);
      }
      InodeClose(i, m.bounces(0), m.bounces(1), held);
      return None;
    }

    /** Writes to INODE are denied by one handle more, or one fewer. */
    method SetDeny(h: nat, deny: bool, ghost held: multiset<nat>)
      requires Inv(held) && h in handles && handles[h].File? && handles[h].denyWrite != deny
      modifies this`inodes, this`handles
      ensures Inv(held) && Root(disk) == old(Root(disk))
      ensures handles == old(handles)[h := old(handles)[h].(denyWrite := deny)]
      ensures DenyChanged(old(inodes), inodes, old(handles)[h], deny)
    {
      var f := handles[h];
      assert HandleOk(inodes, f);
      var x := inodes[f.inode];
      CountDenied(inodes, handles, held, h);
      var x' := x.(denyWriteCnt := x.denyWriteCnt + if deny then 1 else -1);
      assert x'.denyWriteCnt <= x'.openCnt;
      CountsDeny(inodes, handles, held, h, x');
      ChangeInodesOk(disk, owner, inodes, f.inode, x');
      RootInodes(disk, owner, inodes, inodes[f.inode := x']);
      inodes := inodes[f.inode := x'];
      handles := handles[h := f.(denyWrite := deny)];
    }

    /** file_deny_write */
    method FileDenyWrite(h: nat)
      requires Valid() && h in handles && handles[h].File?
      modifies this`inodes, this`handles
      ensures Valid() && handles == old(handles)[h := old(handles)[h].(denyWrite := true)]
      ensures DenyChanged(old(inodes), inodes, old(handles)[h], true)
    {
      assert HandleOk(inodes, handles[h]);
      if !handles[h].denyWrite {
        SetDeny(h, true, multiset{});
      }
    }

    /** file_allow_write */
    method FileAllowWrite(h: nat)
      requires Valid() && h in handles && handles[h].File?
      modifies this`inodes, this`handles
      ensures Valid() && handles == old(handles)[h := old(handles)[h].(denyWrite := false)]
      ensures Root(disk) == old(Root(disk)) && DenyChanged(old(inodes), inodes, old(handles)[h], false)
    {
      assert HandleOk(inodes, handles[h]);
      if handles[h].denyWrite {
        SetDeny(h, false, multiset{});
      }
    }

    /** file_close: nothing for a null handle; otherwise the sectors of a removed file are freed by
        its last close. */
    method FileClose(file: Option<nat>, m: Memory)
      requires Valid() && (file.Some? ==> file.value in handles && handles[file.value].File? && freeMapFile != file)
      modifies this`inodes, this`openInodes, this`next, this`handles, this`disk, this`owner, freeMap.bits
      ensures Valid() && Root(disk) == old(Root(disk)) && OnlyData(old(disk), disk, owner, {0})
      ensures file.None? ==> View() == old(View())
      ensures file.Some? ==> handles == old(handles) - {file.value} && FileClosed(old(inodes), inodes, old(handles)[file.value])
      ensures file.Some? ==> Released(old(inodes)[old(handles)[file.value].inode], old(freeMap.Bits()), freeMap.Bits(), old(owner), owner)
      ensures CanSaveMap(m.bounces(1)) ==> KeepsSaved(old(disk), old(freeMap.Bits()), disk, freeMap.Bits())
    {
      if file.Some? {
        FileAllowWrite(file.value);
        CloseHandle(file.value, m, multiset{});
      }
    }

    /** file_reopen */
    method FileReopen(h: nat, m: Memory) returns (r: Option<nat>)
      requires Valid() && h in handles && handles[h].File?
      modifies this`inodes, this`openInodes, this`next, this`handles, this`disk, this`owner, freeMap.bits
      ensures Valid() && Root(disk) == old(Root(disk)) && owner == old(owner) && freeMap.Bits() == old(freeMap.Bits()) && disk == old(disk)
      ensures r.Some? <==> m.file
      ensures old(handles)[h].inode in old(inodes)
      ensures r.Some? ==> r.value !in old(handles) && handles == old(handles)[r.value := File(old(handles)[h].inode, 0, false)]
                          && inodes == old(inodes)[old(handles)[h].inode := Reopened(old(inodes)[old(handles)[h].inode])]
      ensures r.None? ==> handles == old(handles) && inodes == old(inodes)
    {
      assert HandleOk(inodes, handles[h]);
      var i := handles[h].inode;
      ghost var none: multiset<nat> := multiset{};
      assert CountOk(inodes[i], handles, none, i);
      InodeReopen(i, none, freeMap.Bits());
      r := FileOpen(i, m, none + multiset{i});
      assert none + multiset{i} - multiset{i} == none;
    }

    /** file_read: reads on from the handle's position. */
    method FileRead(h: nat, size: int, bounceOk: bool) returns (got: seq<byte>)
      requires Valid() && h in handles && handles[h].File?
      modifies this`handles
      ensures Valid() && HandleOk(inodes, old(handles)[h]) && OnDisk(|disk|, inodes[old(handles)[h].inode].data)
      ensures var f := old(handles)[h]; var d := inodes[f.inode].data;
              && |got| == Transfer(size, f.pos, d.length, bounceOk) && Reads(Contents(disk, d), f.pos, got)
              && handles == old(handles)[h := Moved(f, f.pos + |got|)]
    {
      var f := handles[h];
      assert HandleOk(inodes, f);
      InodeOnDisk(disk, freeMap.Bits(), owner, inodes, f.inode);
      got := InodeReadAt(f.inode, size, f.pos, bounceOk);
      MoveHandle(h, f.pos + |got|);
    }

    /** file_seek and then file_read, as the loader does. */
    method SeekAndRead(h: nat, pos: nat, n: nat, bounceOk: bool) returns (got: seq<byte>)
      requires Valid() && h in handles && handles[h].File?
      modifies this`handles
      ensures Valid() && HandleOk(inodes, old(handles)[h]) && OnDisk(|disk|, inodes[old(handles)[h].inode].data)
      ensures Gives(Contents(disk, inodes[old(handles)[h].inode].data), pos, n, bounceOk, got)
      ensures handles == old(handles)[h := Moved(old(handles)[h], pos + |got|)]
    {
      FileSeek(h, pos);
      got := FileRead(h, n, bounceOk);
    }

    method MoveHandle(h: nat, pos: nat)
      requires Valid() && h in handles && (handles[h].Dir? ==> pos % 20 == 0 && pos <= 320)
      modifies this`handles
      ensures Valid() && handles == old(handles)[h := Moved(old(handles)[h], pos)]
    {
      CountsMove(inodes, handles, multiset{}, h, pos);
      handles := handles[h := Moved(handles[h], pos)];
    }

    /** file_write: writes at the handle's position, and no other file is affected. */
    method FileWrite(h: nat, buffer: seq<byte>, bounceOk: bool) returns (n: nat)
      requires Valid() && h in handles && handles[h].File?
      modifies this`handles, this`disk
      ensures Valid() && Root(disk) == old(Root(disk)) && HandleOk(inodes, old(handles)[h])
      ensures var f := old(handles)[h]; var x := inodes[f.inode];
              && n == (if x.denyWriteCnt > 0 then 0 else Transfer(|buffer|, f.pos, x.data.length, bounceOk))
              && Written(old(disk), disk, x.data.start, f.pos, buffer[..n])
              && OnlyData(old(disk), disk, owner, {x.sector})
              && handles == old(handles)[h := Moved(f, f.pos + n)]
    {
      var f := handles[h];
      assert HandleOk(inodes, f);
      n := WriteFile(f.inode, buffer, f.pos, bounceOk);
      MoveHandle(h, f.pos + n);
    }

    /** inode_write_at on a file other than the root directory. */
    method WriteFile(i: nat, buffer: seq<byte>, pos: nat, bounceOk: bool) returns (n: nat)
      requires Valid() && i in inodes && inodes[i].sector != 1
      modifies this`disk
      ensures Valid() && Root(disk) == old(Root(disk)) && OnlyData(old(disk), disk, owner, {inodes[i].sector})
      ensures n == if inodes[i].denyWriteCnt > 0 then 0 else Transfer(|buffer|, pos, inodes[i].data.length, bounceOk)
      ensures Written(old(disk), disk, inodes[i].data.start, pos, buffer[..n])
    {
      InodeOnDisk(disk, freeMap.Bits(), owner, inodes, i);
      n := InodeWriteAt(i, buffer, pos, bounceOk);
      InodeWrite(old(disk), disk, freeMap.Bits(), owner, inodes, i, pos, buffer[..n]);
      RootFrame(old(disk), disk, freeMap.Bits(), owner, inodes, {inodes[i].sector});
    }

    /** file_seek */
    method FileSeek(h: nat, pos: nat)
      requires Valid() && h in handles && handles[h].File?
      modifies this`handles
      ensures Valid() && handles == old(handles)[h := Moved(old(handles)[h], pos)]
    {
      MoveHandle(h, pos);
    }

    // ----- directories

    /** The inode of the root directory is open as i. */
    ghost predicate IsRoot(i: nat)
      reads this
    {
      i in inodes && inodes[i].sector == 1
    }

    /** Reads entry k of the root directory. */
    method ReadEntry(i: nat, k: nat, bounceOk: bool, ghost held: multiset<nat>) returns (r: Option<Entry>)
      requires Inv(held) && IsRoot(i)
      ensures r.Some? <==> bounceOk && k < 16
      ensures r.Some? ==> r.value == Root(disk)[k] && WellFormed(r.value)
    {
      InodeOnDisk(disk, freeMap.Bits(), owner, inodes, i);
      var got := InodeReadAt(i, 20, 20 * k, bounceOk);
      EntryTransfer(k, 320, bounceOk);
      if |got| == 20 { EntryAt(Contents(disk, inodes[i].data), k); }
      return if |got| == 20 then Some(EntryOf(got)) else None;
    }

    /** lookup, when memory lasts for this many entry reads. */
    method Lookup(i: nat, name: Name, lasts: nat, ghost held: multiset<nat>) returns (r: Option<nat>, e: Entry)
      requires Inv(held) && IsRoot(i) && IsCString(name)
      ensures Found(Root(disk), name, lasts, r)
      ensures r.Some? ==> e == Root(disk)[r.value]
    {
      var k := 0;
      var x := ReadEntry(i, k, k < lasts, held);
      while x.Some?
        invariant k <= 16
        invariant x.Some? <==> k < lasts && k < 16
        invariant x.Some? ==> x.value == Root(disk)[k]
        invariant forall j :: 0 <= j < k ==> !Matches(Root(disk)[j], name)
        decreases 16 - k
      {
        e := x.value;
        if e.inUse && StrEq(name, e.name) {
          return Some(k), e;
        }
        k := k + 1;
        x := ReadEntry(i, k, k < lasts, held);
      }
      return None, Entry(0, [], false);
    }

    /** The search for a free slot in dir_add. e is what was last read, or what was there before. */
    method FindSlot(i: nat, lasts: nat, stack: Entry, ghost held: multiset<nat>) returns (k: nat, e: Entry)
      requires Inv(held) && IsRoot(i) && WellFormed(stack)
      ensures IsSlot(Root(disk), lasts, k) && WellFormed(e)
    {
      k, e := 0, stack;
      var x := ReadEntry(i, k, k < lasts, held);
      while x.Some?
        invariant k <= 16 && k <= lasts && WellFormed(e)
        invariant x.Some? <==> k < lasts && k < 16
        invariant x.Some? ==> x.value == Root(disk)[k] && WellFormed(x.value)
        invariant forall j :: 0 <= j < k ==> Root(disk)[j].inUse
        decreases 16 - k
      {
        e := x.value;
        if !e.inUse {
          break;
        }
        k := k + 1;
        x := ReadEntry(i, k, k < lasts, held);
      }
    }

    /** Writes entry k of the root directory, which leaves the free map file alone. */
    method WriteEntry(i: nat, k: nat, e: Entry, bounceOk: bool, ghost held: multiset<nat>) returns (ok: bool)
      requires Inv(held) && IsRoot(i) && WellFormed(e)
      requires e.inUse ==> Terminated(e.name) && Linkable(Root(disk), owner, inodes, e.sector)
      modifies this`disk
      ensures Inv(held) && OnlyData(old(disk), disk, owner, {1})
      ensures ok <==> bounceOk && k < 16
      ensures Root(disk) == if ok then old(Root(disk))[k := e] else old(Root(disk))
      ensures KeepsSaved(old(disk), old(freeMap.Bits()), disk, freeMap.Bits())
    {
      ok := PutEntry(i, k, e, bounceOk, held);
      if MapSaved(old(disk), freeMap.Bits()) { SavedKept(old(disk), disk, freeMap.Bits(), owner, {1}, freeMap.Bits()); }
    }

    method PutEntry(i: nat, k: nat, e: Entry, bounceOk: bool, ghost held: multiset<nat>) returns (ok: bool)
      requires Inv(held) && IsRoot(i) && WellFormed(e)
      requires e.inUse ==> Terminated(e.name) && Linkable(Root(disk), owner, inodes, e.sector)
      modifies this`disk
      ensures Inv(held) && OnlyData(old(disk), disk, owner, {1})
      ensures ok <==> bounceOk && k < 16
      ensures Root(disk) == if ok then old(Root(disk))[k := e] else old(Root(disk))
    {
      InodeOnDisk(disk, freeMap.Bits(), owner, inodes, i);
      RootNotDenied(inodes, handles, held, i);
      EntryTransfer(k, 320, bounceOk);
      var bytes := EntryBytes(e);
      var n := InodeWriteAt(i, bytes, 20 * k, bounceOk);
      InodeWrite(old(disk), disk, freeMap.Bits(), owner, inodes, i, 20 * k, bytes[..n]);
      ok := n == 20;
      if ok {
        assert bytes[..n] == bytes;
        RootWritten(old(disk), disk, freeMap.Bits(), owner, k, e);
        EntriesPut(old(Root(disk)), owner, inodes, k, e);
      } else {
        assert disk == old(disk) by { NothingWritten(old(disk), disk, inodes[i].data.start, 20 * k, bytes[..n]); }
      }
    }

    /** dir_add, when memory lasts for m.lookup and then m.search entry reads. */
    method DirAdd(i: nat, name: Name, sector: uint32, stack: Entry, m: Memory, ghost held: multiset<nat>)
      returns (ok: bool, ghost slot: nat, ghost e: Entry)
      requires Inv(held) && IsRoot(i) && IsCString(name) && WellFormed(stack)
      requires Linkable(Root(disk), owner, inodes, sector)
      modifies this`disk
      ensures Inv(held) && OnlyData(old(disk), disk, owner, {1})
      ensures ok <==> Addable(old(Root(disk)), name, m)
      ensures ok ==> Added(old(Root(disk)), Root(disk), name, sector, m.lookup, m.search, slot, e)
      ensures !ok ==> Root(disk) == old(Root(disk))
      ensures KeepsSaved(old(disk), old(freeMap.Bits()), disk, freeMap.Bits())
    {
      slot, e := 0, stack;
      if name == [] || |name| > 14 {
        return false, slot, e;
      }
      var r, _ := Lookup(i, name, m.lookup, held);
      if r.Some? {
        FoundOnce(Root(disk), name, m.lookup, r);
        return false, slot, e;
      }
      var k, x := FindSlot(i, m.search, stack, held);
      x := Entry(sector, PutName(x.name, name), true);
      StrEqIsCString(name, x.name);
      AddableSlot(Root(disk), name, m, k);
      ok := WriteEntry(i, k, x, m.write, held);
      slot, e := k, x;
    }

    /** inode_remove, of a file that no entry names. */
    method InodeRemove(i: nat, ghost held: multiset<nat>)
      requires Inv(held) && i in inodes && inodes[i].sector >= 2 && Unlinked(Root(disk), inodes[i].sector)
      modifies this`inodes
      ensures Inv(held) && inodes == old(inodes)[i := Removed(old(inodes)[i])]
    {
      CountsMarkRemoved(inodes, handles, held, i);
      ChangeInodesOk(disk, owner, inodes, i, Removed(inodes[i]));
      RootRemove(disk, owner, inodes, i);
      inodes := inodes[i := Removed(inodes[i])];
    }

    /** The loop of dir_readdir, from entry k0. */
    method NextInUse(i: nat, k0: nat, lasts: nat, ghost held: multiset<nat>) returns (k: nat, r: Option<Name>)
      requires Inv(held) && IsRoot(i) && k0 <= 16
      ensures k <= 16 && NextListed(Root(disk), k0, k, lasts, r)
    {
      ghost var es := Root(disk);
      var n := 0;
      k := k0;
      var x := ReadEntry(i, k, n < lasts, held);
      while x.Some?
        invariant k <= 16 && n <= k
        invariant x.Some? <==> n < lasts && k < 16
        invariant x.Some? ==> x.value == es[k]
        invariant Listing(es, k0) == Listing(es, k)
        decreases 16 - k
      {
        if x.value.inUse {
          return k + 1, Some(NameOf(x.value));
        }
        ListingSkip(es, k);
        k, n := k + 1, n + 1;
        x := ReadEntry(i, k, n < lasts, held);
      }
      r := None;
    }

    /** dir_readdir, when memory lasts for this many entry reads: returns the next name listed. */
    method ReadDir(h: nat, lasts: nat) returns (r: Option<Name>)
      requires Valid() && h in handles && handles[h].Dir?
      modifies this`handles
      ensures Valid() && HandleOk(inodes, old(handles)[h])
      ensures h in handles && handles[h].pos <= 320 && handles == old(handles)[h := Moved(old(handles)[h], handles[h].pos)]
      ensures NextListed(Root(disk), old(handles)[h].pos / 20, handles[h].pos / 20, lasts, r)
    {
      assert HandleOk(inodes, handles[h]);
      var k;
      k, r := NextInUse(handles[h].inode, handles[h].pos / 20, lasts, multiset{});
      var pos := 20 * k;
      assert pos / 20 == k && pos % 20 == 0;
      MoveHandle(h, pos);
    }

    /** dir_readdir until there is no more, as ls does, with memory for the reads: every bound name
        is listed exactly once. */
    method ListDir(h: nat) returns (names: seq<Name>)
      requires Valid() && h in handles && handles[h].Dir? && handles[h].pos == 0 && Unique(Root(disk))
      modifies this`handles
      ensures Valid() && h in handles && handles == old(handles)[h := Moved(old(handles)[h], handles[h].pos)]
      ensures NoDup(names) && forall n :: n in names <==> n in Bindings(Root(disk))
    {
      ghost var es := Root(disk);
      names := [];
      var more := true;
      ghost var k := 0;
      while more
        invariant Valid() && h in handles && handles[h].Dir? && k <= 16 && handles[h].pos / 20 == k && Root(disk) == es
        invariant handles == old(handles)[h := Moved(old(handles)[h], handles[h].pos)]
        invariant Listing(es, 0) == names + Listing(es, k) && (!more ==> Listing(es, k) == [])
        decreases |Listing(es, k)|, more
      {
        ghost var k0 := k;
        var r := ReadDir(h, 17);
        k := handles[h].pos / 20;
        if r.None? {
          more := false;
        } else {
          ListingGrows(es, names, k0, k, r.value);
          names := names + [r.value];
        }
      }
      assert names == Listing(es, 0);
      ListingIsBindings(es);
    }

    /** The end of dir_remove, once the inode is open as t: clears entry k and removes the file. */
    method Unlink(i: nat, k: nat, e: Entry, t: nat, m: Memory, ghost held: multiset<nat>) returns (ok: bool)
      requires Inv(held) && IsRoot(i) && k < 16 && e == Root(disk)[k] && e.inUse && WellFormed(e)
      requires t in held && t in inodes && inodes[t].sector == e.sector
      modifies this`disk, this`inodes, this`openInodes, this`owner, freeMap.bits
      ensures Inv(held - multiset{t}) && OnlyData(old(disk), disk, owner, {0, 1})
      ensures ok <==> m.write
      ensures !ok ==> Root(disk) == old(Root(disk)) && Closed(old(inodes), inodes, t)
                      && owner == old(owner) && freeMap.Bits() == old(freeMap.Bits())
      ensures ok ==> Root(disk) == old(Root(disk))[k := e.(inUse := false)]
      ensures ok ==> var x := Removed(old(inodes)[t]);
                Closed(old(inodes)[t := x], inodes, t) && Released(x, old(freeMap.Bits()), freeMap.Bits(), old(owner), owner)
      ensures CanSaveMap(m.bounces(1)) ==> KeepsSaved(old(disk), old(freeMap.Bits()), disk, freeMap.Bits())
    {
      EntryLive(disk, freeMap.Bits(), owner, inodes, k);
      ok := WriteEntry(i, k, e.(inUse := false), m.write, held);
      ghost var between := disk;
      if ok {
        ClearedUnlinked(old(Root(disk)), owner, inodes, k);
        RemoveAndClose(t, m, held);
      } else {
        InodeClose(t, m.bounces(0), m.bounces(1), held);
      }
      OnlyDataClose(old(disk), between, disk, old(owner), owner, e.sector);
    }

    /** inode_remove and then inode_close. */
    method RemoveAndClose(t: nat, m: Memory, ghost held: multiset<nat>)
      requires Inv(held) && t in held && t in inodes && inodes[t].sector >= 2 && Unlinked(Root(disk), inodes[t].sector)
      modifies this`disk, this`inodes, this`openInodes, this`owner, freeMap.bits
      ensures Inv(held - multiset{t}) && OnlyData(old(disk), disk, owner, {0}) && Root(disk) == old(Root(disk))
      ensures Closed(old(inodes)[t := Removed(old(inodes)[t])], inodes, t)
      ensures Released(Removed(old(inodes)[t]), old(freeMap.Bits()), freeMap.Bits(), old(owner), owner)
      ensures CanSaveMap(m.bounces(1)) ==> KeepsSaved(old(disk), old(freeMap.Bits()), disk, freeMap.Bits())
    {
      InodeRemove(t, held);
      InodeClose(t, m.bounces(0), m.bounces(1), held);
    }

    /** dir_remove once entry k is found: opens the file's inode and removes the file. */
    method RemoveEntry(i: nat, k: nat, e: Entry, m: Memory, ghost held: multiset<nat>) returns (ok: bool)
      requires Inv(held) && IsRoot(i) && k < 16 && e == Root(disk)[k] && e.inUse && WellFormed(e)
      modifies this`disk, this`inodes, this`openInodes, this`next, this`owner, freeMap.bits
      ensures Inv(held) && OnlyData(old(disk), disk, owner, {0, 1})
      ensures m.target && m.write ==> ok
      ensures !ok ==> Root(disk) == old(Root(disk)) && inodes == old(inodes) && owner == old(owner) && freeMap.Bits() == old(freeMap.Bits())
      ensures ok ==> Root(disk) == Cleared(old(Root(disk)), k) && e.sector < |old(disk)|
                     && RemovedFile(old(inodes), inodes, e.sector, Header(old(disk)[e.sector]),
                                    old(freeMap.Bits()), freeMap.Bits(), old(owner), owner)
      ensures CanSaveMap(m.bounces(1)) ==> KeepsSaved(old(disk), old(freeMap.Bits()), disk, freeMap.Bits())
    {
      EntryLive(disk, freeMap.Bits(), owner, inodes, k);
      ghost var d := Header(disk[e.sector]);
      var t := InodeOpen(e.sector, m.target, held, freeMap.Bits());
      if t.None? {
        return false;
      }
      ghost var withTarget := inodes;
      ok := Unlink(i, k, e, t.value, m, held + multiset{t.value});
      assert held + multiset{t.value} - multiset{t.value} == held;
      if ok {
        if t.value in old(inodes) { assert InodeOk(old(disk), old(owner), old(inodes)[t.value]); }
        RemoveOutcome(old(inodes), withTarget, inodes, handles, held, t.value, e.sector, d,
          old(freeMap.Bits()), freeMap.Bits(), old(owner), owner);
      } else {
        OpenClose(old(inodes), withTarget, inodes, handles, held, e.sector, d, t.value);
      }
    }

    /** dir_remove: on success one binding is gone, and the file goes with its last user. */
    method DirRemove(i: nat, name: Name, m: Memory, ghost held: multiset<nat>) returns (ok: bool, ghost k: nat)
      requires Inv(held) && IsRoot(i) && IsCString(name)
      modifies this`disk, this`inodes, this`openInodes, this`next, this`owner, freeMap.bits
      ensures Inv(held) && OnlyData(old(disk), disk, owner, {0, 1})
      ensures !ok ==> Root(disk) == old(Root(disk)) && inodes == old(inodes) && owner == old(owner) && freeMap.Bits() == old(freeMap.Bits())
      ensures ok ==> Found(old(Root(disk)), name, m.lookup, Some(k)) && Root(disk) == Cleared(old(Root(disk)), k)
                     && old(Root(disk))[k].sector < |old(disk)|
                     && RemovedFile(old(inodes), inodes, old(Root(disk))[k].sector, Header(old(disk)[old(Root(disk))[k].sector]),
                                    old(freeMap.Bits()), freeMap.Bits(), old(owner), owner)
      ensures Found(old(Root(disk)), name, m.lookup, None) ==> !ok
      ensures !Found(old(Root(disk)), name, m.lookup, None) && m.target && m.write ==> ok
      ensures CanSaveMap(m.bounces(1)) ==> KeepsSaved(old(disk), old(freeMap.Bits()), disk, freeMap.Bits())
    {
      k := 0;
      var r, e := Lookup(i, name, m.lookup, held);
      if r.None? {
        return false, k;
      }
      k := r.value;
      FoundOnce(Root(disk), name, m.lookup, r);
      ok := RemoveEntry(i, r.value, e, m, held);
    }

    /** dir_open_root */
    method DirOpenRoot(m: Memory) returns (r: Option<nat>)
      requires Valid()
      modifies this`inodes, this`openInodes, this`next, this`handles, this`disk, this`owner, freeMap.bits
      ensures Valid() && disk == old(disk) && owner == old(owner) && freeMap.Bits() == old(freeMap.Bits())
      ensures r.Some? <==> (m.inode || !NotOpen(old(inodes), 1)) && m.dir
      ensures forall size: nat, ok: bool :: CanSave(freeMapFile, inodes, handles, size, ok) == CanSave(freeMapFile, old(inodes), old(handles), size, ok)
      ensures r.None? ==> handles == old(handles) && inodes == old(inodes)
      ensures r.Some? ==> r.value !in old(handles) && r.value in handles && IsRoot(handles[r.value].inode)
                          && handles == old(handles)[r.value := Dir(handles[r.value].inode, 0)]
                          && Opened(old(inodes), inodes, 1, Header(disk[1]), handles[r.value].inode)
    {
      ghost var none: multiset<nat> := multiset{};
      var i := InodeOpen(1, m.inode, none, freeMap.Bits());
      if i.None? {
        return None;
      }
      ghost var held := none + multiset{i.value};
      assert held - multiset{i.value} == none;
      if m.dir {
        var h := NewHandle(Dir(i.value, 0), held, freeMap.Bits());
        return Some(h);
      }
      ghost var withRoot := inodes;
      assert RemovedOk(Root(disk), inodes[i.value]);
      InodeClose(i.value, false, false, held);
      OpenClose(old(inodes), withRoot, inodes, handles, none, 1, Header(disk[1]), i.value);
      return None;
    }

    /** Gives up a handle's reference. */
    method CloseHandle(h: nat, m: Memory, ghost held: multiset<nat>)
      requires Inv(held) && h in handles && freeMapFile != Some(h) && (handles[h].File? ==> !handles[h].denyWrite)
      modifies this`inodes, this`openInodes, this`handles, this`disk, this`owner, freeMap.bits
      ensures Inv(held) && handles == old(handles) - {h} && Root(disk) == old(Root(disk)) && OnlyData(old(disk), disk, owner, {0})
      ensures Closed(old(inodes), inodes, old(handles)[h].inode)
      ensures Released(old(inodes)[old(handles)[h].inode], old(freeMap.Bits()), freeMap.Bits(), old(owner), owner)
      ensures !old(inodes)[old(handles)[h].inode].removed ==> disk == old(disk)
      ensures CanSaveMap(m.bounces(1)) ==> KeepsSaved(old(disk), old(freeMap.Bits()), disk, freeMap.Bits())
    {
      var i := FreeHandle(h, held);
      InodeClose(i, m.bounces(0), m.bounces(1), held + multiset{i});
      assert held + multiset{i} - multiset{i} == held;
    }

    /** dir_close, of the root directory, which is never removed. */
    method DirClose(h: nat, m: Memory, ghost held: multiset<nat>)
      requires Inv(held) && h in handles && handles[h].Dir?
      modifies this`inodes, this`openInodes, this`handles, this`disk, this`owner, freeMap.bits
      ensures Inv(held) && handles == old(handles) - {h} && disk == old(disk)
      ensures Closed(old(inodes), inodes, old(handles)[h].inode)
      ensures owner == old(owner) && freeMap.Bits() == old(freeMap.Bits())
      ensures forall size: nat, ok: bool :: CanSave(freeMapFile, inodes, handles, size, ok) ==> CanSave(freeMapFile, old(inodes), old(handles), size, ok)
    {
      assert HandleOk(inodes, handles[h]);
      assert RemovedOk(Root(disk), inodes[handles[h].inode]);
      CloseHandle(h, m, held);
    }

    // ----- named files

    /** Takes a new file that was not linked off the books again. */
    ghost method Abandon(h: nat, d: InodeDisk, before: Owner)
      requires Valid() && owner == Adopted(before, h, d) && Head(owner, h) && h < |disk| && Header(disk[h]) == d
      requires Unlinked(Root(disk), h) && NotOpen(inodes, h) && h >= 2
      requires h !in before && forall s :: s in before ==> before[s] != h && !InRun(d, s)
      modifies this`owner
      ensures Valid() && owner == before
    {
      RootDisown(disk, owner, inodes, h);
      AdoptDisown(before, h, d);
      Disown(h);
    }

    /** filesys_create once the inode sector is allocated: links the file, or frees the sector. */
    method CreateAt(i: nat, sector: uint32, name: Name, size: nat, stack: Entry, m: Memory) returns (ok: bool, ghost slot: nat, ghost e: Entry)
      requires Valid() && IsRoot(i) && IsCString(name) && WellFormed(stack) && size + 511 < 0x8000_0000
      requires sector < |disk| && freeMap.Bits()[sector] && sector !in owner
      modifies this`disk, this`owner, freeMap.bits
      ensures Valid() && OnlyData(old(disk), disk, old(owner), {0, 1})
      ensures ok ==> FileCreated(disk, old(Root(disk)), Root(disk), old(owner), owner, name, size, m, slot, e)
      ensures ok <==> m.header && HasFit(old(freeMap.Bits()), Sectors(size)) && CanSaveMap(m.bounces(1))
                      && Addable(old(Root(disk)), name, m)
      ensures !ok ==> Root(disk) == old(Root(disk)) && owner == old(owner)
      ensures CanSaveAll(freeMapFile, inodes, handles, 4 * freeMap.bits.Length, m) ==> KeepsSaved(old(disk), old(freeMap.Bits()), disk, freeMap.Bits())
      ensures ok ==> e.sector == sector && FitTaken(old(freeMap.Bits()), freeMap.Bits(), Sectors(size), Header(disk[sector]).start)
      ensures !ok ==> GivenBack(old(freeMap.Bits()), freeMap.Bits(), Sectors(size), sector,
                                m.header && HasFit(old(freeMap.Bits()), Sectors(size)) && CanSaveMap(m.bounces(1)))
    {
      ghost var made;
      ok, made, slot, e := CreateLinked(i, sector, name, size, stack, m);
      if !ok {
        ghost var linked := disk;
        GiveBack(sector, m.bounces(2));
        assert OnlyData(old(disk), disk, owner, {0, 1}) by {
          OnlyDataTwice(old(disk), linked, disk, owner, {0, 1}, {0});
          assert {0, 1} + {0} == {0, 1};
        }
      }
    }

    /** free_map_release of an inode sector that no file came to use. */
    method GiveBack(sector: nat, bounceOk: bool)
      requires Valid() && sector < |disk| && freeMap.Bits()[sector] && sector !in owner
      modifies this`disk, freeMap.bits
      ensures Valid() && OnlyData(old(disk), disk, owner, {0}) && Root(disk) == old(Root(disk))
      ensures freeMap.Bits() == Filled(old(freeMap.Bits()), sector, 1, false)
      ensures CanSaveMap(bounceOk) ==> MapSaved(disk, freeMap.Bits())
    {
      FreeMapRelease(sector, 1, bounceOk);
      RootFrame(old(disk), disk, old(freeMap.Bits()), owner, inodes, {0});
    }

    /** inode_create and dir_add in turn; made says whether the first succeeded. */
    method CreateLinked(i: nat, sector: uint32, name: Name, size: nat, stack: Entry, m: Memory)
      returns (ok: bool, ghost made: bool, ghost slot: nat, ghost e: Entry)
      requires Valid() && IsRoot(i) && IsCString(name) && WellFormed(stack) && size + 511 < 0x8000_0000
      requires sector < |disk| && freeMap.Bits()[sector] && sector !in owner
      modifies this`disk, this`owner, freeMap.bits
      ensures Valid() && OnlyData(old(disk), disk, old(owner), {0, 1})
      ensures made <==> m.header && HasFit(old(freeMap.Bits()), Sectors(size)) && CanSaveMap(m.bounces(1))
      ensures ok <==> made && Addable(old(Root(disk)), name, m)
      ensures ok ==> FileCreated(disk, old(Root(disk)), Root(disk), old(owner), owner, name, size, m, slot, e) && e.sector == sector
      ensures !ok ==> Root(disk) == old(Root(disk)) && owner == old(owner) && freeMap.Bits()[sector]
      ensures CanSaveMap(m.bounces(1)) ==> KeepsSaved(old(disk), old(freeMap.Bits()), disk, freeMap.Bits())
      ensures made ==> FitTaken(old(freeMap.Bits()), freeMap.Bits(), Sectors(size), Header(disk[sector]).start)
      ensures !made ==> freeMap.Bits() == old(freeMap.Bits())
    {
      slot, e := 0, stack;
      ok := CreateInode(sector, size, m);
      made := ok;
      if ok {
        ghost var between := disk;
        ok, slot, e := LinkOrAbandon(i, sector, name, size, stack, m, old(owner));
        assert OnlyData(old(disk), disk, old(owner), {0, 1}) by {
          OnlyDataTwice(old(disk), between, disk, old(owner), {0}, {1});
          assert {0} + {1} == {0, 1};
        }
      }
    }

    /** dir_add for a file just made, which nobody has open. */
    method LinkOrAbandon(i: nat, sector: uint32, name: Name, size: nat, stack: Entry, m: Memory, ghost before: Owner) returns (ok: bool, ghost slot: nat, ghost e: Entry)
      requires Valid() && IsRoot(i) && IsCString(name) && WellFormed(stack)
      requires Head(owner, sector) && 2 <= sector < |disk| && Unlinked(Root(disk), sector) && NotOpen(inodes, sector)
      requires Header(disk[sector]).length == size && ZeroRun(disk, Header(disk[sector]))
      requires owner == Adopted(before, sector, Header(disk[sector])) && sector !in before
      requires forall s :: s in before ==> !InRun(Header(disk[sector]), s) && before[s] != sector
      modifies this`disk, this`owner
      ensures Valid() && OnlyData(old(disk), disk, before, {1})
      ensures ok <==> Addable(old(Root(disk)), name, m)
      ensures ok ==> FileCreated(disk, old(Root(disk)), Root(disk), before, owner, name, size, m, slot, e)
      ensures !ok ==> Root(disk) == old(Root(disk)) && owner == before
      ensures KeepsSaved(old(disk), old(freeMap.Bits()), disk, freeMap.Bits())
      ensures disk[sector] == old(disk)[sector] && (ok ==> e.sector == sector)
    {
      ok, slot, e := DirAdd(i, name, sector, stack, m, multiset{});
      ZeroKept(old(disk), disk, freeMap.Bits(), owner, {1}, sector);
      OnlyDataLess(old(disk), disk, before, owner, {1});
      if !ok {
        Abandon(sector, Header(disk[sector]), before);
      }
    }

    /** inode_create, which leaves the root directory alone. */
    method CreateInode(sector: nat, size: nat, m: Memory) returns (ok: bool)
      requires Valid() && size + 511 < 0x8000_0000
      requires sector < |disk| && freeMap.Bits()[sector] && sector !in owner
      modifies this`disk, this`owner, freeMap.bits
      ensures Valid() && OnlyData(old(disk), disk, old(owner), {0}) && Root(disk) == old(Root(disk))
      ensures freeMap.Bits()[sector]
      ensures ok <==> m.header && HasFit(old(freeMap.Bits()), Sectors(size)) && CanSaveMap(m.bounces(1))
      ensures !ok ==> owner == old(owner)
      ensures ok ==> Head(owner, sector) && Header(disk[sector]).length == size && ZeroRun(disk, Header(disk[sector]))
                     && owner == Adopted(old(owner), sector, Header(disk[sector]))
                     && forall s :: s in old(owner) ==> !InRun(Header(disk[sector]), s) && old(owner)[s] != sector
      ensures CanSaveMap(m.bounces(1)) ==> KeepsSaved(old(disk), old(freeMap.Bits()), disk, freeMap.Bits())
      ensures !ok ==> freeMap.Bits() == old(freeMap.Bits())
      ensures ok ==> FitTaken(old(freeMap.Bits()), freeMap.Bits(), Sectors(size), Header(disk[sector]).start)
      ensures sector >= 2 && Unlinked(Root(disk), sector) && NotOpen(inodes, sector)
    {
      FreshUnlinked(disk, owner, inodes, sector);
      ok := InodeCreate(sector, size, m.header, m.bounces(1));
      RootFrame(old(disk), disk, old(freeMap.Bits()), old(owner), inodes, {0});
      if ok {
        NewApart(old(disk), old(freeMap.Bits()), old(owner), sector, Header(disk[sector]));
        RootHeads(disk, old(owner), owner, inodes);
      }
    }

    /** free_map_allocate (1, ...), which leaves the root directory alone. */
    method AllocateSector(m: Memory) returns (r: Option<uint32>)
      requires Valid()
      modifies this`disk, freeMap.bits
      ensures Valid() && OnlyData(old(disk), disk, owner, {0}) && Root(disk) == old(Root(disk))
      ensures r.Some? <==> HasFit(old(freeMap.Bits()), 1) && CanSaveMap(m.bounces(0))
      ensures r.Some? ==> FirstFit(old(freeMap.Bits()), 0, 1, false, r.value) && freeMap.Bits() == Filled(old(freeMap.Bits()), r.value, 1, true)
      ensures r.Some? ==> r.value < |disk| && r.value !in owner && freeMap.Bits()[r.value]
      ensures r.None? ==> freeMap.Bits() == old(freeMap.Bits())
      ensures CanSaveMap(m.bounces(0)) ==> KeepsSaved(old(disk), old(freeMap.Bits()), disk, freeMap.Bits())
    {
      var s := FreeMapAllocate(1, m.bounces(0));
      RootFrame(old(disk), disk, old(freeMap.Bits()), owner, inodes, {0});
      if s.None? {
        return None;
      }
      FreeUnowned(old(disk), old(freeMap.Bits()), owner, s.value);
      return Some(s.value);
    }

    /** filesys_create: on success the directory has one entry more, for a new file of zeros; no
        other file, inode or handle changes either way. */
    method Create(name: Name, size: nat, stack: Entry, m: Memory) returns (ok: bool, ghost slot: nat, ghost e: Entry)
      requires Valid() && IsCString(name) && WellFormed(stack) && size + 511 < 0x8000_0000
      modifies this`inodes, this`openInodes, this`next, this`handles, this`disk, this`owner, freeMap.bits
      ensures Valid() && handles == old(handles) && inodes == old(inodes)
      ensures OnlyData(old(disk), disk, old(owner), {0, 1})
      ensures ok ==> FileCreated(disk, old(Root(disk)), Root(disk), old(owner), owner, name, size, m, slot, e)
      ensures ok <==> (m.inode || !NotOpen(old(inodes), 1)) && m.dir && CanCreate(old(freeMap.Bits()), old(Root(disk)), name, size, m)
                      && CanSaveTwice(freeMapFile, old(inodes), old(handles), 4 * freeMap.bits.Length, m)
      ensures !ok ==> Root(disk) == old(Root(disk)) && owner == old(owner)
      ensures CanSaveAll(freeMapFile, inodes, handles, 4 * freeMap.bits.Length, m) ==> KeepsSaved(old(disk), old(freeMap.Bits()), disk, freeMap.Bits())
      ensures ok ==> SectorsTaken(old(freeMap.Bits()), freeMap.Bits(), Sectors(size), e.sector, Header(disk[e.sector]).start, true)
      ensures !ok ==> NotCreated(old(freeMap.Bits()), freeMap.Bits(), Sectors(size), (m.inode || !NotOpen(old(inodes), 1)) && m.dir && m.header
                        && HasRoom(old(freeMap.Bits()), Sectors(size)) && CanSaveTwice(freeMapFile, inodes, handles, 4 * freeMap.bits.Length, m))
    {
      ok, slot, e := false, 0, stack;
      var dir := DirOpenRoot(m);
      if dir.None? {
        return;
      }
      ghost var withRoot, i := inodes, handles[dir.value].inode;
      HandleCameAndWent(old(handles), dir.value, handles[dir.value]);
      ok, slot, e := CreateIn(handles[dir.value].inode, name, size, stack, m);
      DirClose(dir.value, m, multiset{});
      OpenClose(old(inodes), withRoot, inodes, old(handles), multiset{}, 1, Header(old(disk)[1]), i);
    }

    method CreateIn(i: nat, name: Name, size: nat, stack: Entry, m: Memory) returns (ok: bool, ghost slot: nat, ghost e: Entry)
      requires Valid() && IsRoot(i) && IsCString(name) && WellFormed(stack) && size + 511 < 0x8000_0000
      modifies this`disk, this`owner, freeMap.bits
      ensures Valid() && OnlyData(old(disk), disk, old(owner), {0, 1})
      ensures ok ==> FileCreated(disk, old(Root(disk)), Root(disk), old(owner), owner, name, size, m, slot, e)
      ensures ok <==> CanCreate(old(freeMap.Bits()), old(Root(disk)), name, size, m) && CanSaveTwice(freeMapFile, inodes, handles, 4 * freeMap.bits.Length, m)
      ensures !ok ==> Root(disk) == old(Root(disk)) && owner == old(owner)
      ensures CanSaveAll(freeMapFile, inodes, handles, 4 * freeMap.bits.Length, m) ==> KeepsSaved(old(disk), old(freeMap.Bits()), disk, freeMap.Bits())
      ensures ok ==> SectorsTaken(old(freeMap.Bits()), freeMap.Bits(), Sectors(size), e.sector, Header(disk[e.sector]).start, true)
      ensures !ok ==> NotCreated(old(freeMap.Bits()), freeMap.Bits(), Sectors(size), m.header && HasRoom(old(freeMap.Bits()), Sectors(size))
                        && CanSaveTwice(freeMapFile, inodes, handles, 4 * freeMap.bits.Length, m))
    {
      ok, slot, e := false, 0, stack;
      var sector := AllocateSector(m);
      if sector.None? {
        NoRoom(freeMap.Bits(), Sectors(size));
        return;
      }
      ghost var before := disk;
      RoomAfter(old(freeMap.Bits()), Sectors(size), sector.value);
      ghost var made := m.header && HasFit(freeMap.Bits(), Sectors(size)) && CanSaveMap(m.bounces(1));
      ok, slot, e := CreateAt(i, sector.value, name, size, stack, m);
      assert OnlyData(old(disk), disk, old(owner), {0, 1}) by {
        OnlyDataTwice(old(disk), before, disk, old(owner), {0}, {0, 1});
        assert {0} + {0, 1} == {0, 1};
      }
      if !ok { AllGivenBack(old(freeMap.Bits()), freeMap.Bits(), Sectors(size), sector.value, made); }
    }

    /** filesys_open: a new handle at the start of the file that the name is bound to. */
    method Open(name: Name, m: Memory) returns (r: Option<nat>, ghost k: Option<nat>)
      requires Valid() && IsCString(name)
      modifies this`inodes, this`openInodes, this`next, this`handles, this`disk, this`owner, freeMap.bits
      ensures Valid() && disk == old(disk) && owner == old(owner) && freeMap.Bits() == old(freeMap.Bits())
      ensures r.None? ==> handles == old(handles) && inodes == old(inodes)
      ensures r.None? && Ample(m) ==> Found(Root(disk), name, m.lookup, None)
      ensures r.Some? ==> Found(Root(disk), name, m.lookup, k) && k.Some? && r.value in handles && r.value !in old(handles)
      ensures r.Some? ==> handles == old(handles)[r.value := File(handles[r.value].inode, 0, false)]
                          && handles[r.value].inode in inodes && inodes[handles[r.value].inode].sector == Root(disk)[k.value].sector
      ensures r.Some? ==> Opened(old(inodes), inodes, Root(disk)[k.value].sector, inodes[handles[r.value].inode].data, handles[r.value].inode)
    {
      var t;
      t, k := LookupRoot(name, m);
      r := None;
      if t.Some? {
        ghost var withTarget, x := inodes, inodes[t.value];
        r := FileOpen(t.value, m, multiset{t.value});
        assert multiset{t.value} - multiset{t.value} == multiset{};
        if r.None? { OpenClose(old(inodes), withTarget, inodes, handles, multiset{}, x.sector, x.data, t.value); }
      }
    }

    /** The first half of filesys_open: finds the name in the root directory and opens its inode. */
    method LookupRoot(name: Name, m: Memory) returns (t: Option<nat>, ghost k: Option<nat>)
      requires Valid() && IsCString(name)
      modifies this`inodes, this`openInodes, this`next, this`handles, this`disk, this`owner, freeMap.bits
      ensures disk == old(disk) && owner == old(owner) && freeMap.Valid() && freeMap.Bits() == old(freeMap.Bits()) && handles == old(handles)
      ensures t.None? ==> Valid() && inodes == old(inodes)
      ensures t.None? && Ample(m) ==> Found(Root(disk), name, m.lookup, None)
      ensures t.Some? ==> Inv(multiset{t.value}) && Found(Root(disk), name, m.lookup, k) && k.Some?
                          && t.value in inodes && !inodes[t.value].removed && inodes[t.value].sector == Root(disk)[k.value].sector >= 2
                          && Opened(old(inodes), inodes, inodes[t.value].sector, inodes[t.value].data, t.value)
    {
      t, k := None, None;
      var dir := DirOpenRoot(m);
      if dir.None? {
        return;
      }
      HandleCameAndWent(old(handles), dir.value, handles[dir.value]);
      ghost var withRoot, i := inodes, handles[dir.value].inode;
      t, k := DirLookup(handles[dir.value].inode, name, m);
      if t.None? {
        DirClose(dir.value, m, multiset{});
        OpenClose(old(inodes), withRoot, inodes, old(handles), multiset{}, 1, Header(disk[1]), i);
        return;
      }
      ghost var withBoth := inodes;
      DirClose(dir.value, m, multiset{t.value});
      OpenedAround(old(inodes), withRoot, withBoth, inodes, old(handles), i, Header(disk[1]), t.value, withBoth[t.value].sector, withBoth[t.value].data);
    }

    /** dir_lookup */
    method DirLookup(i: nat, name: Name, m: Memory) returns (t: Option<nat>, ghost k: Option<nat>)
      requires Valid() && IsRoot(i) && IsCString(name)
      modifies this`inodes, this`openInodes, this`next
      ensures Found(Root(disk), name, m.lookup, k)
      ensures m.target && k.Some? ==> t.Some?
      ensures t.None? ==> Valid() && inodes == old(inodes)
      ensures t.Some? ==> Inv(multiset{t.value}) && k.Some? && t.value in inodes && !inodes[t.value].removed
                          && inodes[t.value].sector == Root(disk)[k.value].sector >= 2
      ensures t.Some? ==> Opened(old(inodes), inodes, inodes[t.value].sector, inodes[t.value].data, t.value)
    {
      var r, e := Lookup(i, name, m.lookup, multiset{});
      t, k := None, r;
      if r.Some? {
        EntryLive(disk, freeMap.Bits(), owner, inodes, r.value);
        t := InodeOpen(e.sector, m.target, multiset{}, freeMap.Bits());
        if t.Some? { assert multiset{} + multiset{t.value} == multiset{t.value}; }
      }
    }

    /** filesys_remove: on success one entry is cleared, and the file lives on only while it is
        open. */
    method Remove(name: Name, m: Memory) returns (ok: bool, ghost k: nat)
      requires Valid() && IsCString(name)
      modifies this`inodes, this`openInodes, this`next, this`handles, this`disk, this`owner, freeMap.bits
      ensures Valid() && handles == old(handles) && OnlyData(old(disk), disk, owner, {0, 1})
      ensures !ok ==> Root(disk) == old(Root(disk)) && inodes == old(inodes) && owner == old(owner) && freeMap.Bits() == old(freeMap.Bits())
      ensures !ok && Ample(m) ==> Found(old(Root(disk)), name, m.lookup, None)
      ensures ok ==> Found(old(Root(disk)), name, m.lookup, Some(k)) && Root(disk) == Cleared(old(Root(disk)), k)
      ensures ok ==> old(Root(disk))[k].sector < |old(disk)|
                     && RemovedFile(old(inodes), inodes, old(Root(disk))[k].sector, Header(old(disk)[old(Root(disk))[k].sector]),
                                    old(freeMap.Bits()), freeMap.Bits(), old(owner), owner)
      ensures CanSaveMap(m.bounces(1)) ==> KeepsSaved(old(disk), old(freeMap.Bits()), disk, freeMap.Bits())
    {
      ok, k := false, 0;
      var dir := DirOpenRoot(m);
      if dir.None? {
        return;
      }
      ghost var withRoot, i, removed := inodes, handles[dir.value].inode, inodes;
      HandleCameAndWent(old(handles), dir.value, handles[dir.value]);
      ok, k, removed := RemoveFrom(dir.value, name, m);
      if ok {
        ghost var h := old(Root(disk))[k].sector;
        EntryLive(old(disk), old(freeMap.Bits()), old(owner), old(inodes), k);
        RemovedAround(old(inodes), withRoot, removed, inodes, old(handles), i, h, Header(old(disk)[1]), Header(old(disk)[h]),
          old(freeMap.Bits()), freeMap.Bits(), old(owner), owner);
      } else {
        OpenClose(old(inodes), withRoot, inodes, old(handles), multiset{}, 1, Header(old(disk)[1]), i);
      }
    }

    /** dir_remove and then dir_close. */
    method RemoveFrom(dir: nat, name: Name, m: Memory) returns (ok: bool, ghost k: nat, ghost removed: map<nat, Inode>)
      requires Valid() && IsCString(name) && dir in handles && handles[dir].Dir?
      modifies this`inodes, this`openInodes, this`next, this`handles, this`disk, this`owner, freeMap.bits
      ensures Valid() && handles == old(handles) - {dir} && OnlyData(old(disk), disk, owner, {0, 1})
      ensures Closed(removed, inodes, old(handles)[dir].inode)
      ensures !ok ==> Root(disk) == old(Root(disk)) && removed == old(inodes) && owner == old(owner) && freeMap.Bits() == old(freeMap.Bits())
      ensures !ok && Ample(m) ==> Found(old(Root(disk)), name, m.lookup, None)
      ensures ok ==> Found(old(Root(disk)), name, m.lookup, Some(k)) && Root(disk) == Cleared(old(Root(disk)), k)
                     && old(Root(disk))[k].sector < |old(disk)|
                     && RemovedFile(old(inodes), removed, old(Root(disk))[k].sector, Header(old(disk)[old(Root(disk))[k].sector]),
                                    old(freeMap.Bits()), freeMap.Bits(), old(owner), owner)
      ensures CanSaveMap(m.bounces(1)) ==> KeepsSaved(old(disk), old(freeMap.Bits()), disk, freeMap.Bits())
    {
      assert HandleOk(inodes, handles[dir]);
      ok, k := DirRemove(handles[dir].inode, name, m, multiset{});
      removed := inodes;
      DirClose(dir, m, multiset{});
    }

    // ----- formatting

    /** Before formatting: nothing is open and nothing owned. */
    ghost predicate Blank()
      reads this, freeMap, freeMap.bits
    {
      && freeMap.Valid() && freeMap.bitCnt == |disk| && 2 <= |disk| < 0x1_0000_0000
      && (forall s :: 0 <= s < |disk| ==> freeMap.Bits()[s] == (s < 2))
      && owner == map[] && inodes == map[] && handles == map[] && openInodes == [] && freeMapFile == None
    }

    /** The free map file exists and is the only thing open. */
    ghost predicate HasFreeMap()
      reads this, freeMap, freeMap.bits
    {
      && Base() && Tables(multiset{}) && |disk| >= 2 && Head(owner, 0) && Header(disk[0]).length == 4 * freeMap.bits.Length
      && OnlyFreeMapOpen()
    }

    ghost predicate OnlyFreeMapOpen()
      reads this
    {
      && freeMapFile.Some? && handles.Keys == {freeMapFile.value}
      && handles[freeMapFile.value].File? && !handles[freeMapFile.value].denyWrite
      && forall i :: i in inodes ==> !inodes[i].removed
    }

    /** file_open (inode_open (FREE_MAP_SECTOR)) */
    method OpenFreeMapFile(m: Memory, ghost marked: seq<bool>) returns (ok: bool)
      requires BaseOn(marked) && Tables(multiset{}) && Head(owner, 0) && 0 < |disk| && handles == map[]
      requires forall i :: i in inodes ==> !inodes[i].removed
      modifies this`inodes, this`openInodes, this`next, this`handles, this`freeMapFile
      ensures m.inode && m.file ==> ok
      ensures ok ==> BaseOn(marked) && Tables(multiset{}) && OnlyFreeMapOpen()
      ensures RootKept(disk, owner, old(inodes), disk, owner, inodes)
    {
      ghost var none: multiset<nat> := multiset{};
      var i := InodeOpen(0, m.inode, none, marked);
      if i.None? || !m.file {
        return false;
      }
      assert none + multiset{i.value} - multiset{i.value} == none;
      var h := NewHandle(File(i.value, 0, false), none + multiset{i.value}, marked);
      freeMapFile := Some(h);
      return true;
    }

    /** inode_create (FREE_MAP_SECTOR, ...) */
    method MakeFreeMapFile(m: Memory) returns (ok: bool)
      requires Blank()
      modifies this`disk, this`owner, freeMap.bits
      ensures ok ==> Base() && |disk| >= 2 && Head(owner, 0) && 1 !in owner && freeMap.Bits()[1]
                     && Header(disk[0]).length == 4 * freeMap.bits.Length
      ensures Generous(m) && freeMap.bitCnt >= 3 + Sectors(4 * freeMap.bits.Length) ==> ok && HasFit(freeMap.Bits(), 1)
      ensures ok ==> Created(old(freeMap.Bits()), freeMap.Bits(), map[], owner, disk, 0, 4 * freeMap.bits.Length)
    {
      ghost var n := Sectors(4 * freeMap.bits.Length);
      ghost var bits := freeMap.Bits();
      assert bits[0] && bits[1];
      if |bits| >= 3 + n { BlankFits(bits, n); }
      ok := InodeCreate(0, 4 * freeMap.bits.Length, m.header, m.bounces(0));
    }

    /** free_map_create; a false result stands for a panic. */
    method FreeMapCreate(m: Memory) returns (ok: bool)
      requires Blank()
      modifies this, freeMap.bits
      ensures ok ==> HasFreeMap() && 1 !in owner && freeMap.Bits()[1]
      ensures Generous(m) && freeMap.bitCnt >= 3 + Sectors(4 * freeMap.bits.Length) ==> ok && HasFit(freeMap.Bits(), 1)
      ensures ok ==> OnlyFixed(freeMap.Bits(), owner, {1})
    {
      ok := MakeFreeMapFile(m);
      if ok {
        FirstMade(disk, old(freeMap.Bits()), freeMap.Bits(), owner, 4 * freeMap.bits.Length);
        ok := SaveNewMap(m);
      }
    }

    /** Opens the new free map file and writes the map to it. */
    method SaveNewMap(m: Memory) returns (ok: bool)
      requires Base() && Tables(multiset{}) && |disk| >= 2 && Head(owner, 0) && handles == map[] && inodes == map[]
      requires Header(disk[0]).length == 4 * freeMap.bits.Length
      modifies this`inodes, this`openInodes, this`next, this`handles, this`freeMapFile, this`disk
      ensures ok ==> HasFreeMap()
      ensures Generous(m) ==> ok
    {
      ok := OpenFreeMapFile(m, freeMap.Bits());
      if ok {
        FreeMapSaveable(disk, owner, inodes, handles, freeMapFile, 4 * freeMap.bits.Length);
        ok := BitmapWrite(m.bounces(1));
      }
    }

    /** dir_create (ROOT_DIR_SECTOR, 16) */
    method DirCreateRoot(m: Memory) returns (ok: bool)
      requires HasFreeMap() && 1 !in owner && freeMap.Bits()[1] && OnlyFixed(freeMap.Bits(), owner, {1})
      modifies this`disk, this`owner, freeMap.bits
      ensures ok ==> HasFreeMap() && MapSaved(disk, freeMap.Bits()) && RootOk(disk, owner, inodes)
                     && forall k :: 0 <= k < 16 ==> !Root(disk)[k].inUse
      ensures Generous(m) && HasFit(old(freeMap.Bits()), 1) ==> ok
      ensures ok ==> OnlyFixed(freeMap.Bits(), owner, {})
    {
      FreeMapSaveable(disk, owner, inodes, handles, freeMapFile, 4 * freeMap.bits.Length);
      ok := InodeCreate(1, 320, m.header, m.bounces(2));
      if ok {
        FixedMade(disk, old(freeMap.Bits()), freeMap.Bits(), old(owner), owner, 1, 320, {1});
        EmptyRoot(disk, owner, inodes);
      }
    }

    /** free_map_close; the C code leaves a dangling pointer, which nothing uses. */
    method FreeMapClose()
      requires HasFreeMap()
      modifies this`inodes, this`openInodes, this`handles, this`freeMapFile, this`disk, this`owner, freeMap.bits
      ensures Base() && Tables(multiset{}) && handles == map[] && disk == old(disk) && owner == old(owner) && freeMap.Bits() == old(freeMap.Bits())
      ensures RootKept(old(disk), owner, old(inodes), disk, owner, inodes)
      ensures forall i :: i in inodes ==> !inodes[i].removed
    {
      ghost var none: multiset<nat> := multiset{};
      var h := freeMapFile.value;
      freeMapFile := None;
      assert HandleOk(inodes, handles[h]);
      var i := FreeHandle(h, none);
      assert none + multiset{i} - multiset{i} == none;
      InodeClose(i, false, false, none + multiset{i});
    }

    /** free_map_open: opens the free map file and reads the map back from it. The map that was
        saved in the file is the one in force from then on, whatever was in memory. */
    method FreeMapOpen(m: Memory, ghost words: seq<Word>) returns (ok: bool)
      requires freeMap.Valid() && |words| == freeMap.bits.Length && BaseOn(BitsOf(words, freeMap.bitCnt))
      requires Tables(multiset{}) && Head(owner, 0) && 0 < |disk| && handles == map[]
      requires Header(disk[0]).length == 4 * freeMap.bits.Length && FreeMapSaved(disk, words)
      requires forall i :: i in inodes ==> !inodes[i].removed
      modifies this`inodes, this`openInodes, this`next, this`handles, this`freeMapFile, freeMap.bits
      ensures ok ==> Base() && Tables(multiset{}) && OnlyFreeMapOpen() && freeMap.Bits() == BitsOf(words, freeMap.bitCnt)
      ensures ok ==> RootKept(disk, owner, old(inodes), disk, owner, inodes)
      ensures Generous(m) ==> ok
    {
      ghost var marked := BitsOf(words, freeMap.bitCnt);
      ok := OpenFreeMapFile(m, marked);
      if !ok {
        return;
      }
      var i, size := handles[freeMapFile.value].inode, 4 * freeMap.bits.Length;
      InodeOnDisk(disk, marked, owner, inodes, i);
      var got := InodeReadAt(i, size, 0, m.bounces(3));
      if |got| == size {
        assert got == FileBytes(words) by { assert got == Contents(disk, inodes[i].data)[0..size]; }
        assert got + FileBytes(freeMap.bits[..])[size..] == got;
        WordsRoundTrip(words);
      }
      ok := freeMap.ReadBytes(got);
    }

    /** filesys_init without formatting, on a disk that an earlier run has left with its free map
        saved: the files of that run that have names are there again, and the sectors of all others are
        lost. */
    method Mount(m: Memory, ghost files: Owner, ghost words: seq<Word>) returns (ok: bool)
      requires Blank() && Mountable(disk, files, words)
      modifies this, freeMap.bits
      ensures disk == old(disk)
      ensures ok ==> Valid() && OnlyFreeMapOpen() && MapReady(View()) && MapSaved(disk, freeMap.Bits()) && owner == files && freeMap.Bits() == BitsOf(words, freeMap.bitCnt)
      ensures ok ==> LostIn(View()) == Lost(freeMap.Bits(), files, Root(disk), map[]) && AllNamed(View())
      ensures Generous(m) ==> ok
    {
      owner := files;
      ok := FreeMapOpen(m, words);
      if ok {
        assert SavedAs(disk, freeMap.Bits(), words);
        OnlyMapOpen(inodes, handles, freeMapFile);
        OnlyNamesLive(View());
      }
    }

    /** filesys_init with formatting; a false result stands for a panic. The new file system is
        empty. */
    method Format(m: Memory) returns (ok: bool)
      requires Blank()
      modifies this, freeMap.bits
      ensures ok ==> Valid() && OnlyFreeMapOpen() && MapReady(View()) && MapSaved(disk, freeMap.Bits())
      ensures ok ==> Unique(Root(disk)) && Bindings(Root(disk)) == map[]
      ensures Generous(m) && freeMap.bitCnt >= 3 + Sectors(4 * freeMap.bits.Length) ==> ok
      ensures ok ==> LostIn(View()) == {} && AllNamed(View())
    {
      ok := FreeMapCreate(m);
      if ok {
        ok := DirCreateRoot(m);
      }
      if ok {
        ok := Reload(m);
        if ok {
          OnlyMapOpen(inodes, handles, freeMapFile);
          NothingLost(View());
        }
      }
    }

    /** free_map_close and then free_map_open. */
    method Reload(m: Memory) returns (ok: bool)
      requires HasFreeMap() && MapSaved(disk, freeMap.Bits()) && RootOk(disk, owner, inodes)
      modifies this, freeMap.bits
      ensures disk == old(disk)
      ensures ok ==> Valid() && OnlyFreeMapOpen() && MapReady(View()) && MapSaved(disk, freeMap.Bits())
      ensures Generous(m) ==> ok
      ensures ok ==> owner == old(owner) && freeMap.Bits() == old(freeMap.Bits())
    {
      ghost var words :| SavedAs(disk, freeMap.Bits(), words);
      FreeMapClose();
      ok := FreeMapOpen(m, words);
      if ok { assert SavedAs(disk, freeMap.Bits(), words); }
    }

    // ----- whole runs

    ghost function View(): Snap
      requires freeMap.Valid()
      reads this, freeMap, freeMap.bits
    {
      Snap(disk, freeMap.Bits(), owner, inodes, handles, freeMapFile)
    }

    method StepCreate(name: Name, size: nat, stack: Entry, m: Memory) returns (r: Reply)
      requires Valid() && CanCall(Call.Create(name, size, stack), handles, freeMapFile)
      modifies this`inodes, this`openInodes, this`next, this`handles, this`disk, this`owner, freeMap.bits
      ensures Valid() && Creates(name, size, m, old(View()), View()) && SavesMap(m, old(View()), View())
      ensures r == Success(MakesFile(size, m, old(View())) && Addable(old(Root(disk)), name, m))
    {
      var ok, slot, e := Create(name, size, stack, m);
      assert ok ==> CreatesEntry(name, size, m, old(View()), View(), slot, e);
      r := Success(ok);
    }

    method StepRemove(name: Name, m: Memory) returns (r: Reply)
      requires Valid() && IsCString(name)
      modifies this`inodes, this`openInodes, this`next, this`handles, this`disk, this`owner, freeMap.bits
      ensures Valid() && Removes(name, m, old(View()), View()) && SavesMap(m, old(View()), View())
      ensures r == Success(Root(disk) != old(Root(disk)))
    {
      var ok, k := Remove(name, m);
      assert ok ==> RemovesEntry(name, m, old(View()), View(), k) && Root(disk)[k] != old(Root(disk))[k];
      r := Success(ok);
    }

    method StepClose(h: nat, m: Memory)
      requires Valid() && CanCall(Call.Close(h), handles, freeMapFile)
      modifies this`inodes, this`openInodes, this`next, this`handles, this`disk, this`owner, freeMap.bits
      ensures Valid() && Closes(h, old(View()), View()) && SavesMap(m, old(View()), View())
    {
      FileClose(Some(h), m);
    }

    method StepWrite(h: nat, buffer: seq<byte>, m: Memory) returns (r: Reply)
      requires Valid() && CanCall(Call.Write(h, buffer), handles, freeMapFile)
      modifies this`disk, this`handles
      ensures Valid() && WritesFile(h, buffer, m, old(View()), View()) && r == Count(WriteCount(old(View()), h, buffer, m))
    {
      var n := FileWrite(h, buffer, m.write);
      r := Count(n);
    }

    method StepOpen(name: Name, m: Memory) returns (r: Reply)
      requires Valid() && IsCString(name)
      modifies this`inodes, this`openInodes, this`next, this`handles, this`disk, this`owner, freeMap.bits
      ensures Valid() && Quiet(old(View()), View()) && Opens(name, m, old(View()), View())
      ensures Answers(Call.Open(name), m, old(View()), View(), r)
    {
      var h, k := Open(name, m);
      assert h.Some? ==> OpensAs(name, m, old(View()), View(), h.value, k.value);
      r := HandleIs(h);
    }

    method StepReopen(h: nat, m: Memory) returns (r: Reply)
      requires Valid() && CanCall(Call.Reopen(h), handles, freeMapFile)
      modifies this`inodes, this`openInodes, this`next, this`handles, this`disk, this`owner, freeMap.bits
      ensures Valid() && Quiet(old(View()), View()) && Reopens(h, m, old(View()), View())
      ensures Answers(Call.Reopen(h), m, old(View()), View(), r)
    {
      var g := FileReopen(h, m);
      assert g.Some? ==> g.value !in old(handles) && handles == old(handles)[g.value := File(old(handles)[h].inode, 0, false)];
      r := HandleIs(g);
    }

    method StepRead(h: nat, count: int, m: Memory) returns (r: Reply)
      requires Valid() && CanCall(Call.Read(h, count), handles, freeMapFile)
      modifies this`handles
      ensures Valid() && Quiet(old(View()), View()) && ReadsFile(h, count, m, old(View()), View())
      ensures r.Bytes? && ReadAnswer(old(View()), h, count, m, r.data)
    {
      var data := FileRead(h, count, m.write);
      r := Bytes(data);
    }

    method StepDeny(h: nat, deny: bool)
      requires Valid() && CanCall(Call.Deny(h), handles, freeMapFile)
      modifies this`inodes, this`handles
      ensures Valid() && Quiet(old(View()), View()) && SetsDeny(h, deny, old(View()), View())
    {
      if deny {
        FileDenyWrite(h);
      } else {
        FileAllowWrite(h);
      }
    }

    method StepOpenRoot(m: Memory) returns (r: Reply)
      requires Valid()
      modifies this`inodes, this`openInodes, this`next, this`handles, this`disk, this`owner, freeMap.bits
      ensures Valid() && Quiet(old(View()), View()) && OpensRoot(m, old(View()), View())
      ensures Answers(Call.OpenRoot, m, old(View()), View(), r)
    {
      var h := DirOpenRoot(m);
      assert h.Some? ==> OpensRootAs(old(View()), View(), h.value);
      r := HandleIs(h);
    }

    method StepReadDir(h: nat, m: Memory) returns (r: Reply)
      requires Valid() && h in handles && handles[h].Dir?
      modifies this`handles
      ensures Valid() && Quiet(old(View()), View()) && ReadsDir(h, m, old(View()), View())
      ensures Answers(Call.ReadDir(h), m, old(View()), View(), r)
    {
      var name := ReadDir(h, m.lookup);
      assert NextListed(Root(disk), old(handles)[h].pos / 20, handles[h].pos / 20, m.lookup, name);
      r := Listed(name);
    }

    /** Calls that only move a handle. */
    method StepMove(c: Call, m: Memory) returns (r: Reply)
      requires Valid() && CanCall(c, handles, freeMapFile) && (c.Read? || c.Seek?)
      modifies this`handles
      ensures Valid() && Effect(c, m, old(View()), View()) && Answers(c, m, old(View()), View(), r)
    {
      r := Done;
      match c
      case Read(h, count) => r := StepRead(h, count, m);
      case Seek(h, pos) => FileSeek(h, pos);
    }

    /** One call keeps the invariant, has its effect and returns what it should. */
    method Step(c: Call, m: Memory) returns (r: Reply)
      requires Valid() && CanCall(c, handles, freeMapFile)
      modifies this`inodes, this`openInodes, this`next, this`handles, this`disk, this`owner, freeMap.bits
      ensures Valid() && Effect(c, m, old(View()), View()) && Answers(c, m, old(View()), View(), r)
    {
      r := Done;
      match c
      case Create(name, size, stack) => r := StepCreate(name, size, stack, m);
      case Remove(name) => r := StepRemove(name, m);
      case Open(name) => r := StepOpen(name, m);
      case Close(h) => StepClose(h, m);
      case Reopen(h) => r := StepReopen(h, m);
      case Write(h, buffer) => r := StepWrite(h, buffer, m);
      case OpenRoot => r := StepOpenRoot(m);
      case ReadDir(h) => r := StepReadDir(h, m);
      case CloseDir(h) => DirClose(h, m, multiset{});
      case Deny(h) => StepDeny(h, true);
      case Allow(h) => StepDeny(h, false);
      case _ => r := StepMove(c, m);
    }

    /** Any run of calls; calls that cannot be made are skipped. The states in between are a trace of
        the calls' effects, the replies follow from it, the invariant holds in all states, and a file that is live at the start
        and that no call writes or frees is the same at the end. */
    method Run(calls: seq<(Call, Memory)>) returns (replies: seq<Reply>, ghost trace: seq<Snap>)
      requires Valid()
      modifies this`inodes, this`openInodes, this`next, this`handles, this`disk, this`owner, freeMap.bits
      ensures Valid() && Traced(calls, trace) && trace[0] == old(View()) && trace[|calls|] == View() && AllReplied(calls, trace, replies)
      ensures forall f: nat :: Untouched(calls, trace, f) ==> Head(owner, f) && SameFile(old(disk), disk, f)
      ensures MapReady(trace[0]) && MapSaved(old(disk), old(freeMap.Bits())) && (forall j :: 0 <= j < |calls| ==> WritesMap(calls[j].1)) ==>
                exists words :: Mountable(disk, owner, words) && BitsOf(words, |disk|) == freeMap.Bits()
    {
      replies, trace := [], [View()];
      for n := 0 to |calls|
        invariant Valid() && |trace| == n + 1 && trace[0] == old(View()) && trace[n] == View()
        invariant forall j {:trigger Linked(calls, trace, j)} :: 0 <= j < n ==> Linked(calls, trace, j)
        invariant |replies| == n && forall j {:trigger Replied(calls, trace, replies, j)} :: 0 <= j < n ==> Replied(calls, trace, replies, j)
      {
        ghost var before, answered := trace, replies;
        var r := Done;
        if CanCall(calls[n].0, handles, freeMapFile) {
          r := Step(calls[n].0, calls[n].1);
        }
        replies, trace := replies + [r], trace + [View()];
        TraceGrows(calls, before, trace, n);
        RepliesGrow(calls, before, trace, answered, replies, n);
      }
      forall f: nat | Untouched(calls, trace, f)
        ensures Head(owner, f) && SameFile(old(disk), disk, f)
      {
        TraceKeepsFile(calls, trace, f, |calls|);
      }
      if MapReady(trace[0]) && MapSaved(old(disk), old(freeMap.Bits())) && (forall j :: 0 <= j < |calls| ==> WritesMap(calls[j].1)) {
        TraceSavesMap(calls, trace, |calls|);
        var _ := Remountable(View());
      }
    }
  }
}
