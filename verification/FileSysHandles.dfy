/** Positions of handles and denial of writing, over whole runs. */
module FileSysHandles {
  import opened Wrappers
  import opened Bytes
  import opened InodeData
  import opened Directory
  import opened FileSysState
  import opened FileSysCalls

  // ----- positions

  /** The call is made through handle h. */
  predicate Through(c: Call, h: nat)
  {
    match c
    case Create(_, _, _) => false
    case Open(_) => false
    case Remove(_) => false
    case OpenRoot => false
    case _ => c.h == h
  }

  /** A call leaves the handles alone that it is not made through. */
  lemma HandleUntouched(c: Call, m: Memory, a: Snap, b: Snap, h: nat)
    requires Follows(c, m, a, b) && h in a.handles && !Through(c, h)
    ensures h in b.handles && b.handles[h] == a.handles[h]
  {
    if CanCall(c, a.handles, a.file) {
      match c
      case Open(name) =>
        if g: nat, k: nat :| OpensAs(name, m, a, b, g, k) { assert g != h; }
      case OpenRoot =>
        if g: nat :| OpensRootAs(a, b, g) { assert g != h; }
      case _ =>
    }
  }

  lemma {:induction false} HandleStays(calls: seq<(Call, Memory)>, trace: seq<Snap>, n: nat, k: nat, h: nat)
    requires Traced(calls, trace) && n <= k <= |calls| && h in trace[n].handles && forall j :: n <= j < k ==> !Through(calls[j].0, h)
    ensures h in trace[k].handles && trace[k].handles[h] == trace[n].handles[h]
    decreases k
  {
    if n < k {
      HandleStays(calls, trace, n, k - 1, h);
      assert Linked(calls, trace, k - 1);
      HandleUntouched(calls[k - 1].0, calls[k - 1].1, trace[k - 1], trace[k], h);
    }
  }

  /** How far a call made through a handle moves it, by what it returned; a seek moves it to a place. */
  function MovedBy(c: Call, pos: nat, r: Reply): nat
  {
    match c
    case Seek(_, p) => p
    case Read(_, _) => if r.Bytes? then pos + |r.data| else pos
    case Write(_, _) => if r.Count? then pos + r.n else pos
    case _ => pos
  }

  lemma CallMoves(c: Call, m: Memory, a: Snap, b: Snap, r: Reply)
    requires Follows(c, m, a, b) && CanCall(c, a.handles, a.file) && Answers(c, m, a, b, r)
    requires c.Seek? || c.Read? || c.Write? || c.Deny? || c.Allow? || c.Reopen?
    ensures c.h in b.handles && b.handles[c.h].pos == MovedBy(c, a.handles[c.h].pos, r)
  {
  }

  lemma LinkMoves(calls: seq<(Call, Memory)>, trace: seq<Snap>, replies: seq<Reply>, n: nat)
    requires Traced(calls, trace) && AllReplied(calls, trace, replies) && n < |calls| && CanCall(calls[n].0, trace[n].handles, trace[n].file)
    requires calls[n].0.Seek? || calls[n].0.Read? || calls[n].0.Write? || calls[n].0.Deny? || calls[n].0.Allow? || calls[n].0.Reopen?
    ensures calls[n].0.h in trace[n + 1].handles
    ensures trace[n + 1].handles[calls[n].0.h].pos == MovedBy(calls[n].0, trace[n].handles[calls[n].0.h].pos, replies[n])
  {
    assert Linked(calls, trace, n) && Replied(calls, trace, replies, n);
    CallMoves(calls[n].0, calls[n].1, trace[n], trace[n + 1], replies[n]);
  }

  /** A handle stands where the last call made through it has left it: where it sought to, or as many
      bytes further on as the read or write reported, whatever else happens in between. */
  lemma PositionFollows(calls: seq<(Call, Memory)>, trace: seq<Snap>, replies: seq<Reply>, n: nat, k: nat)
    requires Traced(calls, trace) && AllReplied(calls, trace, replies) && n < k <= |calls|
    requires CanCall(calls[n].0, trace[n].handles, trace[n].file)
    requires calls[n].0.Seek? || calls[n].0.Read? || calls[n].0.Write? || calls[n].0.Deny? || calls[n].0.Allow? || calls[n].0.Reopen?
    requires forall j :: n < j < k ==> !Through(calls[j].0, calls[n].0.h)
    ensures calls[n].0.h in trace[k].handles
    ensures trace[k].handles[calls[n].0.h].pos == MovedBy(calls[n].0, trace[n].handles[calls[n].0.h].pos, replies[n])
  {
    LinkMoves(calls, trace, replies, n);
    HandleStays(calls, trace, n + 1, k, calls[n].0.h);
  }

  /** A new handle stands at the start of its file, and denies nothing. */
  lemma OpensAtStart(c: Call, m: Memory, a: Snap, b: Snap, r: Reply)
    requires Follows(c, m, a, b) && CanCall(c, a.handles, a.file) && Answers(c, m, a, b, r) && (c.Open? || c.Reopen? || c.OpenRoot?) && r.h.Some?
    ensures r.h.value !in a.handles && r.h.value in b.handles
    ensures b.handles[r.h.value].pos == 0 && (b.handles[r.h.value].Dir? <==> c.OpenRoot?) && !DeniesFile(b, r.h.value)
  {
  }

  // ----- denying writes

  /** Handle g denies writing to its file. */
  ghost predicate DeniesFile(a: Snap, g: nat)
  {
    g in a.handles && a.handles[g].File? && a.handles[g].denyWrite
  }

  /** The call ends the denial by g. */
  predicate EndsDenial(c: Call, g: nat) { Ends(c, g) || c == Call.Allow(g) }

  /** file_deny_write starts the denial, and file_allow_write ends it. */
  lemma DenialStarts(c: Call, m: Memory, a: Snap, b: Snap)
    requires Follows(c, m, a, b) && CanCall(c, a.handles, a.file)
    ensures c.Deny? ==> DeniesFile(b, c.h)
    ensures c.Allow? ==> !DeniesFile(b, c.h)
  {
  }

  lemma DenialStays(c: Call, m: Memory, a: Snap, b: Snap, g: nat)
    requires Follows(c, m, a, b) && DeniesFile(a, g) && !EndsDenial(c, g)
    ensures DeniesFile(b, g)
  {
    if !Through(c, g) { HandleUntouched(c, m, a, b, g); }
  }

  lemma DeniedCount(a: Snap, g: nat)
    requires StateOk(a) && DeniesFile(a, g)
    ensures a.handles[g].inode in a.inodes && a.inodes[a.handles[g].inode].denyWriteCnt > 0
  {
    var i := a.handles[g].inode;
    assert HandleOk(a.inodes, a.handles[g]) && CountOk(a.inodes[i], a.handles, multiset{}, i);
    assert g in Denying(a.handles, i);
  }

  /** While a handle denies writing, a write to the file through any handle writes nothing. */
  lemma WriteDenied(c: Call, m: Memory, a: Snap, b: Snap, r: Reply, g: nat)
    requires Follows(c, m, a, b) && c.Write? && CanCall(c, a.handles, a.file) && Answers(c, m, a, b, r)
    requires DeniesFile(a, g) && a.handles[g].inode == a.handles[c.h].inode
    ensures b.disk == a.disk && r == Count(0)
  {
    DeniedCount(a, g);
    var x := a.inodes[a.handles[c.h].inode];
    NothingWritten(a.disk, b.disk, x.data.start, a.handles[c.h].pos, c.buffer[..0]);
  }

  /** A file that a handle is open on does not go while the handle stays open. */
  lemma OpenNotGone(c: Call, m: Memory, a: Snap, b: Snap, g: nat)
    requires Follows(c, m, a, b) && g in a.handles && a.handles[g].inode in a.inodes && !Ends(c, g)
    ensures !Gone(a, b, SectorOf(a, g))
  {
    var i := a.handles[g].inode;
    if CanCall(c, a.handles, a.file) && Head(a.owner, SectorOf(a, g)) {
      GoneExactlyBy(c, m, a, b, SectorOf(a, g));
      assert !NotOpen(a.inodes, SectorOf(a, g));
      if c.Close? && a.handles[c.h].inode in a.inodes { LastOnly(a, c.h, g); }
    }
  }

  /** Two handles on one file count twice. */
  lemma LastOnly(a: Snap, h: nat, g: nat)
    requires StateOk(a) && h in a.handles && g in a.handles && h != g
    requires a.handles[h].inode in a.inodes && a.handles[g].inode in a.inodes
    ensures SectorOf(a, h) == SectorOf(a, g) ==> a.inodes[a.handles[h].inode].openCnt > 1
  {
    var i, j := a.handles[h].inode, a.handles[g].inode;
    if i != j {
      assert Apart(a.inodes, i, j);
    } else {
      assert CountOk(a.inodes[i], a.handles, multiset{}, i);
      var s := Holding(a.handles, i);
      assert {h, g} <= s;
      assert |s| >= |{h, g}| by { assert s == {h, g} + (s - {h, g}); }
    }
  }

  lemma DeniedStep(c: Call, m: Memory, a: Snap, b: Snap, g: nat)
    requires Follows(c, m, a, b) && DeniesFile(a, g) && !EndsDenial(c, g)
    requires a.handles[g].inode in a.inodes && SectorOf(a, g) >= 2
    ensures Head(a.owner, SectorOf(a, g)) && SameFile(a.disk, b.disk, SectorOf(a, g))
  {
    var f := SectorOf(a, g);
    assert InodeOk(a.disk, a.owner, a.inodes[a.handles[g].inode]);
    OpenNotGone(c, m, a, b, g);
    if !CanCall(c, a.handles, a.file) {
      LiveFile(a.disk, a.marked, a.owner, f);
    } else if WritesTo(c, a, f) {
      SameInodeWrite(c, m, a, b, g);
      LiveFile(a.disk, a.marked, a.owner, f);
    } else {
      FollowsKeepsFile(c, m, a, b, f);
    }
  }

  lemma SameInodeWrite(c: Call, m: Memory, a: Snap, b: Snap, g: nat)
    requires Follows(c, m, a, b) && CanCall(c, a.handles, a.file) && DeniesFile(a, g) && a.handles[g].inode in a.inodes
    requires WritesTo(c, a, SectorOf(a, g))
    ensures b.disk == a.disk
  {
    var i, j := a.handles[c.h].inode, a.handles[g].inode;
    assert i != j ==> Apart(a.inodes, i, j);
    WriteDenied(c, m, a, b, Count(WriteCount(a, c.h, c.buffer, m)), g);
  }

  /** Over every run, a file that a handle denies writing to is the same, whatever calls try to write to
      it, until the handle allows writing again or is closed. */
  lemma {:induction false} DeniedFileKept(calls: seq<(Call, Memory)>, trace: seq<Snap>, n: nat, k: nat, g: nat)
    requires Traced(calls, trace) && n <= k <= |calls| && StateOk(trace[n]) && DeniesFile(trace[n], g)
    requires trace[n].handles[g].inode in trace[n].inodes && SectorOf(trace[n], g) >= 2
    requires forall j :: n <= j < k ==> !EndsDenial(calls[j].0, g)
    ensures DeniesFile(trace[k], g) && trace[k].handles[g].inode in trace[k].inodes && SectorOf(trace[k], g) == SectorOf(trace[n], g)
    ensures SameFile(trace[n].disk, trace[k].disk, SectorOf(trace[n], g))
    decreases k
  {
    if k == n {
      assert InodeOk(trace[n].disk, trace[n].owner, trace[n].inodes[trace[n].handles[g].inode]);
      LiveFile(trace[n].disk, trace[n].marked, trace[n].owner, SectorOf(trace[n], g));
    } else {
      DeniedFileKept(calls, trace, n, k - 1, g);
      LinkDenied(calls, trace, k - 1, g);
    }
  }

  lemma LinkDenied(calls: seq<(Call, Memory)>, trace: seq<Snap>, n: nat, g: nat)
    requires Traced(calls, trace) && n < |calls| && DeniesFile(trace[n], g) && !EndsDenial(calls[n].0, g)
    requires trace[n].handles[g].inode in trace[n].inodes && SectorOf(trace[n], g) >= 2
    ensures DeniesFile(trace[n + 1], g) && trace[n + 1].handles[g].inode in trace[n + 1].inodes
    ensures SectorOf(trace[n + 1], g) == SectorOf(trace[n], g) && SameFile(trace[n].disk, trace[n + 1].disk, SectorOf(trace[n], g))
  {
    assert Linked(calls, trace, n);
    DenialStays(calls[n].0, calls[n].1, trace[n], trace[n + 1], g);
    FollowsKeepsHandle(calls[n].0, calls[n].1, trace[n], trace[n + 1], g);
    DeniedStep(calls[n].0, calls[n].1, trace[n], trace[n + 1], g);
  }
}
