/** The disk layout of filesys/inode.c: a file is an inode sector naming a run of consecutive data
    sectors, and reads and writes of it go sector by sector. */
module InodeData {
  import opened Bytes

  type Sector = s: seq<byte> | |s| == 512 witness seq(512, _ => 0)

  // ----- on-disk inodes

  /** struct inode_disk. */
  datatype InodeDisk = InodeDisk(start: uint32, length: uint32, magic: uint32)

  function Header(s: Sector): InodeDisk
  {
    InodeDisk(U32(s, 0), U32(s, 4), U32(s, 8))
  }

  function HeaderSector(d: InodeDisk): Sector
  {
    Bytes32(d.start) + Bytes32(d.length) + Bytes32(d.magic) + seq(500, _ => 0)
  }

  /** The fields survive the sector, each in its place: start, length and magic, one after another. */
  lemma HeaderRoundTrip(d: InodeDisk)
    ensures Header(HeaderSector(d)) == d
    ensures HeaderSector(d)[..12] == Bytes32(d.start) + Bytes32(d.length) + Bytes32(d.magic)
  {
    var s := HeaderSector(d);
    assert s[0..4] == Bytes32(d.start);
    Bytes32RoundTrip(s, 0, d.start);
    assert s[4..8] == Bytes32(d.length);
    Bytes32RoundTrip(s, 4, d.length);
    assert s[8..12] == Bytes32(d.magic);
    Bytes32RoundTrip(s, 8, d.magic);
  }

  /** bytes_to_sectors: as few as hold the bytes. */
  function Sectors(length: nat): (n: nat)
    ensures length <= 512 * n < length + 512
  {
    (length + 511) / 512
  }

  /** Sector s belongs to d's data run. */
  predicate InRun(d: InodeDisk, s: int) { d.start <= s < d.start + Sectors(d.length) }

  /** The run lies on the disk. */
  predicate OnDisk(n: nat, d: InodeDisk) { d.start + Sectors(d.length) <= n }

  // ----- file contents

  /** The sectors in a row. */
  ghost function Joined(sectors: seq<Sector>): (c: seq<byte>)
    ensures |c| == 512 * |sectors|
  {
    if sectors == [] then [] else sectors[0] + Joined(sectors[1..])
  }

  lemma {:induction false} JoinedAt(sectors: seq<Sector>, p: nat)
    requires p < 512 * |sectors|
    ensures Joined(sectors)[p] == sectors[p / 512][p % 512]
    decreases |sectors|
  {
    if p >= 512 {
      JoinedAt(sectors[1..], p - 512);
      assert (p - 512) / 512 == p / 512 - 1;
    }
  }

  /** A file is the sectors of its run in a row, as far as its length goes. */
  lemma ContentsJoined(disk: seq<Sector>, d: InodeDisk)
    requires OnDisk(|disk|, d)
    ensures Contents(disk, d) == Joined(disk[d.start..d.start + Sectors(d.length)])[..d.length]
  {
    forall p | 0 <= p < d.length
      ensures Contents(disk, d)[p] == Joined(disk[d.start..d.start + Sectors(d.length)])[p]
    {
      JoinedAt(disk[d.start..d.start + Sectors(d.length)], p);
    }
  }

  /** The flat byte array that a file is. */
  ghost function Contents(disk: seq<Sector>, d: InodeDisk): (c: seq<byte>)
    requires OnDisk(|disk|, d)
    ensures |c| == d.length
  {
    seq(d.length, p requires 0 <= p < d.length => disk[d.start + p / 512][p % 512])
  }

  /** c with data put at off. */
  ghost function Spliced(c: seq<byte>, off: nat, data: seq<byte>): (r: seq<byte>)
    requires off + |data| <= |c|
    ensures |r| == |c| && r[off..off + |data|] == data
    ensures forall i :: 0 <= i < |c| && !(off <= i < off + |data|) ==> r[i] == c[i]
  {
    c[..off] + data + c[off + |data|..]
  }

  /** How many of size bytes at offset a read or write transfers: all that lie before end of
      file, or, when no bounce buffer can be had, whole sectors from a sector boundary. */
  function Transfer(size: int, offset: nat, length: nat, bounceOk: bool): (n: nat)
    ensures n > 0 ==> n <= size && offset + n <= length
  {
    var left := if offset < length then length - offset else 0;
    var want := if size <= 0 then 0 else if size < left then size else left;
    if bounceOk then want else if offset % 512 != 0 then 0 else want / 512 * 512
  }

  /** n of size bytes at offset can be transferred: they are asked for and lie within the file, and
      without a bounce buffer they are whole sectors. */
  predicate Transferable(size: int, offset: nat, length: nat, bounceOk: bool, n: nat)
  {
    n == 0 || (n <= size && offset + n <= length && (bounceOk || (offset % 512 == 0 && n % 512 == 0)))
  }

  /** n bytes can be transferred, and no more. */
  ghost predicate Greatest(size: int, offset: nat, length: nat, bounceOk: bool, n: nat)
  {
    && Transferable(size, offset, length, bounceOk, n)
    && forall k: nat :: Transferable(size, offset, length, bounceOk, k) ==> k <= n
  }

  /** So a request that reaches past end of file is clipped there. */
  lemma TransferGreatest(size: int, offset: nat, length: nat, bounceOk: bool)
    ensures Greatest(size, offset, length, bounceOk, Transfer(size, offset, length, bounceOk))
  {
    forall k: nat | Transferable(size, offset, length, bounceOk, k)
      ensures k <= Transfer(size, offset, length, bounceOk)
    {
      if k > 0 && !bounceOk { assert k / 512 * 512 == k; }
    }
  }

  /** What is left to transfer after one chunk; no chunk means nothing more to transfer. */
  lemma TransferStep(size: nat, offset: nat, length: nat, bounceOk: bool, chunk: int)
    requires chunk == Chunk(size, offset, length)
    ensures 0 < chunk && (bounceOk || (offset % 512 == 0 && chunk == 512)) ==>
              Transfer(size, offset, length, bounceOk) == chunk + Transfer(size - chunk, offset + chunk, length, bounceOk)
    ensures !(0 < chunk && (bounceOk || (offset % 512 == 0 && chunk == 512))) ==>
              Transfer(size, offset, length, bounceOk) == 0
  {
  }

  /** chunk_size: bounded by the request, the file and the sector. */
  function Chunk(size: int, offset: nat, length: nat): int
  {
    var inodeLeft := length - offset;
    var sectorLeft := 512 - offset % 512;
    var minLeft := if inodeLeft < sectorLeft then inodeLeft else sectorLeft;
    if size < minLeft then size else minLeft
  }

  /** A chunk stays within the request, the file and the sector. */
  lemma ChunkFits(size: int, offset: nat, length: nat)
    requires Chunk(size, offset, length) > 0
    ensures Chunk(size, offset, length) <= size && offset + Chunk(size, offset, length) <= length
    ensures offset % 512 + Chunk(size, offset, length) <= 512
  {
  }

  // ----- reads

  /** got is what c holds at offset. */
  ghost predicate Reads(c: seq<byte>, offset: nat, got: seq<byte>)
  {
    got != [] ==> offset + |got| <= |c| && got == c[offset..offset + |got|]
  }

  /** What reading n bytes at pos gives in a file with these contents: all there are, or, without
      memory for a bounce buffer, the whole sectors among them. */
  ghost predicate Gives(c: seq<byte>, pos: nat, n: int, bounceOk: bool, got: seq<byte>)
  {
    |got| == Transfer(n, pos, |c|, bounceOk) && Reads(c, pos, got)
  }

  /** Reading one chunk within one sector. */
  lemma ChunkRead(disk: seq<Sector>, d: InodeDisk, off: nat, n: nat)
    requires OnDisk(|disk|, d) && off % 512 + n <= 512 && off + n <= d.length && n > 0
    ensures d.start + off / 512 < |disk|
    ensures Contents(disk, d)[off..off + n] == disk[d.start + off / 512][off % 512..off % 512 + n]
  {
    var c, s, o := Contents(disk, d), d.start + off / 512, off % 512;
    forall p | off <= p < off + n
      ensures c[p] == disk[s][o + (p - off)]
    {
      assert p / 512 == off / 512 && p % 512 == o + (p - off);
    }
  }

  lemma ReadsMore(c: seq<byte>, offset: nat, got: seq<byte>, more: seq<byte>)
    requires Reads(c, offset, got) && Reads(c, offset + |got|, more)
    ensures Reads(c, offset, got + more)
  {
  }

  /** Reading back what was just written. */
  lemma ReadAfterWrite(disk: seq<Sector>, disk': seq<Sector>, d: InodeDisk, off: nat, data: seq<byte>, got: seq<byte>)
    requires Written(disk, disk', d.start, off, data) && off + |data| <= d.length && OnDisk(|disk|, d)
    requires Reads(Contents(disk', d), off, got) && |got| == |data|
    ensures got == data
  {
    WrittenContents(disk, disk', d, off, data);
  }

  // ----- writes, to the byte

  /** A sector whose first byte is byte `base` of a file, before and after data is written at off. */
  ghost predicate SectorWritten(a: Sector, b: Sector, base: int, off: nat, data: seq<byte>)
  {
    forall i :: 0 <= i < 512 ==> b[i] == if off <= base + i < off + |data| then data[base + i - off] else a[i]
  }

  /** disk' is disk with data written at off in the file whose run begins at start: every other
      byte of the disk is as before. */
  ghost predicate Written(disk: seq<Sector>, disk': seq<Sector>, start: nat, off: nat, data: seq<byte>)
  {
    |disk'| == |disk| && forall s :: 0 <= s < |disk| ==> SectorWritten(disk[s], disk'[s], 512 * (s - start), off, data)
  }

  lemma WrittenOutside(disk: seq<Sector>, disk': seq<Sector>, d: InodeDisk, off: nat, data: seq<byte>, s: nat)
    requires Written(disk, disk', d.start, off, data) && off + |data| <= d.length && s < |disk| && !InRun(d, s)
    ensures disk'[s] == disk[s]
  {
    assert SectorWritten(disk[s], disk'[s], 512 * (s - d.start), off, data);
  }

  lemma WrittenContents(disk: seq<Sector>, disk': seq<Sector>, d: InodeDisk, off: nat, data: seq<byte>)
    requires Written(disk, disk', d.start, off, data) && off + |data| <= d.length && OnDisk(|disk|, d)
    ensures Contents(disk', d) == Spliced(Contents(disk, d), off, data)
  {
    var c, c' := Contents(disk, d), Contents(disk', d);
    forall p | 0 <= p < d.length
      ensures c'[p] == Spliced(c, off, data)[p]
    {
      var s := d.start + p / 512;
      assert SectorWritten(disk[s], disk'[s], 512 * (s - d.start), off, data);
      assert 512 * (s - d.start) + p % 512 == p;
      assert disk'[s][p % 512] == if off <= p < off + |data| then data[p - off] else disk[s][p % 512];
    }
  }

  /** Writing one chunk within one sector. */
  lemma ChunkWritten(disk: seq<Sector>, start: nat, off: nat, chunk: seq<byte>, sector: Sector)
    requires off % 512 + |chunk| <= 512 && start + off / 512 < |disk|
    requires var old' := disk[start + off / 512]; var o := off % 512;
             sector == old'[..o] + chunk + old'[o + |chunk|..]
    ensures Written(disk, disk[start + off / 512 := sector], start, off, chunk)
  {
    var k := start + off / 512;
    assert 512 * (k - start) + off % 512 == off;
    var disk' := disk[k := sector];
    forall s | 0 <= s < |disk|
      ensures SectorWritten(disk[s], disk'[s], 512 * (s - start), off, chunk)
    {
      if s != k { OtherSector(disk[s], 512 * (s - start), off, chunk, s - start); }
    }
  }

  lemma OtherSector(a: Sector, base: int, off: nat, chunk: seq<byte>, j: int)
    requires base == 512 * j && j != off / 512 && off % 512 + |chunk| <= 512
    ensures SectorWritten(a, a, base, off, chunk)
  {
  }

  lemma WrittenNothing(disk: seq<Sector>, start: nat, off: nat)
    ensures Written(disk, disk, start, off, [])
  {
  }

  /** Consecutive writes add up. */
  lemma WrittenTwice(d0: seq<Sector>, d1: seq<Sector>, d2: seq<Sector>, start: nat, off: nat, x: seq<byte>, y: seq<byte>)
    requires Written(d0, d1, start, off, x) && Written(d1, d2, start, off + |x|, y)
    ensures Written(d0, d2, start, off, x + y)
  {
    forall s | 0 <= s < |d0|
      ensures SectorWritten(d0[s], d2[s], 512 * (s - start), off, x + y)
    {
      SectorTwice(d0[s], d1[s], d2[s], 512 * (s - start), off, x, y);
    }
  }

  lemma SectorTwice(a: Sector, b: Sector, c: Sector, base: int, off: nat, x: seq<byte>, y: seq<byte>)
    requires SectorWritten(a, b, base, off, x) && SectorWritten(b, c, base, off + |x|, y)
    ensures SectorWritten(a, c, base, off, x + y)
  {
  }
}
