/** Directories (filesys/directory.c): a file made of 20-byte entries that stands for a finite map
    from names to inode sectors. */
module Directory {
  import opened Wrappers
  import opened Bytes
  import opened InodeData
  import opened Slices

  /** The characters of a C string, without its terminator. */
  type Name = seq<byte>

  /** struct dir_entry, with the name field as it lies in memory. */
  datatype Entry = Entry(sector: uint32, name: seq<byte>, inUse: bool)

  predicate WellFormed(e: Entry) { |e.name| == 15 }

  function EntryOf(b: seq<byte>): Entry
    requires |b| == 20
  {
    Entry(U32(b, 0), b[4..19], b[19] != 0)
  }

  function EntryBytes(e: Entry): (b: seq<byte>)
    requires WellFormed(e)
    ensures |b| == 20
  {
    Bytes32(e.sector) + e.name + [if e.inUse then 1 else 0]
  }

  lemma EntryRoundTrip(e: Entry)
    requires WellFormed(e)
    ensures EntryOf(EntryBytes(e)) == e
    ensures EntryBytes(e)[..4] == Bytes32(e.sector) && EntryBytes(e)[4..19] == e.name && EntryBytes(e)[19] == if e.inUse then 1 else 0
  {
    var b := EntryBytes(e);
    assert b[0..4] == Bytes32(e.sector);
    Bytes32RoundTrip(b, 0, e.sector);
    assert b[4..19] == e.name;
  }

  // ----- C strings in name fields

  predicate Terminated(f: seq<byte>) { 0 in f }

  /** strcmp (name, f) == 0. */
  predicate StrEq(name: Name, f: seq<byte>)
  {
    |name| < |f| && f[..|name|] == name && f[|name|] == 0
  }

  lemma {:induction false} StrEqIsCString(name: Name, f: seq<byte>)
    requires IsCString(name) && Terminated(f)
    ensures StrEq(name, f) <==> CString(f) == name
    decreases |f|
  {
    if f[0] == 0 {
    } else if name == [] {
    } else {
      assert f == [f[0]] + f[1..];
      assert name == [name[0]] + name[1..];
      StrEqIsCString(name[1..], f[1..]);
      if StrEq(name, f) {
        assert f[0] == f[..|name|][0] == name[0];
        SliceOfSlice(f, 0, |name|, 1, |name|);
        SliceOfSlice(f, 1, |f|, 0, |name| - 1);
        assert f[1..][..|name| - 1] == name[1..];
      }
      if CString(f) == name {
        assert CString(f)[0] == f[0] && CString(f)[1..] == CString(f[1..]);
        assert f[1..][..|name| - 1] == name[1..];
        assert f[..|name|] == name;
      }
    }
  }

  /** strlcpy into a name field that held `field`. */
  function PutName(field: seq<byte>, name: Name): (r: seq<byte>)
    requires |name| < |field|
    ensures |r| == |field| && StrEq(name, r)
  {
    name + [0] + field[|name| + 1..]
  }

  // ----- entries and the map they stand for

  ghost function Entries(c: seq<byte>): (es: seq<Entry>)
    ensures |es| == |c| / 20
    decreases |c|
  {
    if |c| < 20 then [] else [EntryOf(c[..20])] + Entries(c[20..])
  }

  lemma {:induction false} EntryAt(c: seq<byte>, k: nat)
    requires k < |c| / 20
    ensures Entries(c)[k] == EntryOf(c[20 * k..20 * k + 20])
    decreases k
  {
    if k > 0 {
      EntryAt(c[20..], k - 1);
      SliceOfSlice(c, 20, |c|, 20 * (k - 1), 20 * k);
      assert Entries(c)[k] == Entries(c[20..])[k - 1];
      assert c[20..][20 * (k - 1)..20 * k] == c[20 * k..20 * k + 20];
    } else {
      assert c[..20] == c[0..20];
    }
  }

  /** Entries are read and written whole, whatever sectors they straddle. */
  lemma {:induction false} EntriesSpliced(c: seq<byte>, k: nat, e: Entry)
    requires WellFormed(e) && 20 * k + 20 <= |c|
    ensures Entries(Spliced(c, 20 * k, EntryBytes(e))) == Entries(c)[k := e]
  {
    var c' := Spliced(c, 20 * k, EntryBytes(e));
    var es, es' := Entries(c)[k := e], Entries(c');
    forall j | 0 <= j < |es|
      ensures es'[j] == es[j]
    {
      EntryAt(c', j);
      EntryAt(c, j);
      if j == k {
        EntryRoundTrip(e);
        assert c'[20 * k..20 * k + 20] == EntryBytes(e);
      } else {
        SameSlice(c, c', k, j);
      }
    }
  }

  lemma SameSlice(c: seq<byte>, c': seq<byte>, k: nat, j: nat)
    requires |c'| == |c| && j != k && 20 * j + 20 <= |c|
    requires forall i :: 0 <= i < |c| && !(20 * k <= i < 20 * k + 20) ==> c'[i] == c[i]
    ensures c'[20 * j..20 * j + 20] == c[20 * j..20 * j + 20]
  {
  }

  function NameOf(e: Entry): Name { CString(e.name) }

  /** Entries in use have terminated names. */
  ghost predicate NamesOk(es: seq<Entry>)
  {
    forall k :: 0 <= k < |es| ==> WellFormed(es[k]) && (es[k].inUse ==> Terminated(es[k].name))
  }

  ghost predicate Unique(es: seq<Entry>)
  {
    forall j, k :: 0 <= j < k < |es| && es[j].inUse && es[k].inUse ==> NameOf(es[j]) != NameOf(es[k])
  }

  /** The map a directory stands for. */
  ghost function Bindings(es: seq<Entry>): map<Name, uint32>
    requires Unique(es)
  {
    map k | 0 <= k < |es| && es[k].inUse :: NameOf(es[k]) := es[k].sector
  }

  predicate Matches(e: Entry, name: Name) { e.inUse && StrEq(name, e.name) }

  /** lookup when memory lasts for n entry reads: the first matching entry among those read. */
  ghost predicate Found(es: seq<Entry>, name: Name, n: nat, r: Option<nat>)
  {
    match r
    case Some(k) => k < n && k < |es| && Matches(es[k], name) && forall j :: 0 <= j < k ==> !Matches(es[j], name)
    case None => forall j :: 0 <= j < |es| && j < n ==> !Matches(es[j], name)
  }

  /** With memory for every entry, lookup finds exactly the bound names. */
  lemma LookupIsBinding(es: seq<Entry>, name: Name, n: nat, r: Option<nat>)
    requires NamesOk(es) && Unique(es) && IsCString(name) && |es| <= n && Found(es, name, n, r)
    ensures r.Some? <==> name in Bindings(es)
    ensures r.Some? ==> Bindings(es)[name] == es[r.value].sector
  {
    forall k | 0 <= k < |es| && es[k].inUse
      ensures Matches(es[k], name) <==> NameOf(es[k]) == name
    {
      StrEqIsCString(name, es[k].name);
    }
    if r.Some? {
      assert NameOf(es[r.value]) in Bindings(es);
    }
  }

  /** m is the map that es stands for, entry by entry. */
  ghost predicate Stands(es: seq<Entry>, m: map<Name, uint32>)
  {
    && (forall k :: 0 <= k < |es| && es[k].inUse ==> NameOf(es[k]) in m && m[NameOf(es[k])] == es[k].sector)
    && (forall n :: n in m ==> exists k :: 0 <= k < |es| && es[k].inUse && NameOf(es[k]) == n)
  }

  lemma StandsIsBindings(es: seq<Entry>, m: map<Name, uint32>)
    requires Unique(es)
    ensures Stands(es, m) <==> m == Bindings(es)
  {
  }

  lemma AddStands(es: seq<Entry>, m: map<Name, uint32>, k: nat, e: Entry)
    requires Stands(es, m) && k < |es| && !es[k].inUse && e.inUse && NameOf(e) !in m
    ensures Stands(es[k := e], m[NameOf(e) := e.sector])
  {
    var es', m' := es[k := e], m[NameOf(e) := e.sector];
    assert es'[k] == e;
    forall n | n in m'
      ensures exists j :: 0 <= j < |es'| && es'[j].inUse && NameOf(es'[j]) == n
    {
      if n != NameOf(e) {
        var j :| 0 <= j < |es| && es[j].inUse && NameOf(es[j]) == n;
        assert es'[j] == es[j];
      }
    }
  }

  lemma RemoveStands(es: seq<Entry>, m: map<Name, uint32>, k: nat)
    requires Stands(es, m) && Unique(es) && k < |es| && es[k].inUse
    ensures Stands(es[k := es[k].(inUse := false)], m - {NameOf(es[k])})
  {
    var es' := es[k := es[k].(inUse := false)];
    var m' := m - {NameOf(es[k])};
    forall n | n in m'
      ensures exists j :: 0 <= j < |es'| && es'[j].inUse && NameOf(es'[j]) == n
    {
      var j :| 0 <= j < |es| && es[j].inUse && NameOf(es[j]) == n;
      assert es'[j] == es[j];
    }
  }

  /** Filling a free entry with an unbound name adds one binding. */
  lemma AddBinding(es: seq<Entry>, k: nat, e: Entry)
    requires Unique(es) && k < |es| && !es[k].inUse && e.inUse && NameOf(e) !in Bindings(es)
    ensures Unique(es[k := e]) && Bindings(es[k := e]) == Bindings(es)[NameOf(e) := e.sector]
  {
    var m := Bindings(es);
    assert Stands(es, m);
    AddStands(es, m, k, e);
    StandsIsBindings(es[k := e], m[NameOf(e) := e.sector]);
  }

  /** Clearing in_use removes one binding. */
  lemma RemoveBinding(es: seq<Entry>, k: nat)
    requires Unique(es) && k < |es| && es[k].inUse
    ensures Unique(es[k := es[k].(inUse := false)])
    ensures Bindings(es[k := es[k].(inUse := false)]) == Bindings(es) - {NameOf(es[k])}
  {
    var m := Bindings(es);
    assert Stands(es, m);
    RemoveStands(es, m, k);
    StandsIsBindings(es[k := es[k].(inUse := false)], m - {NameOf(es[k])});
  }

  // ----- dir_add when memory may run out

  /** The slot dir_add writes when memory lasts for n entry reads: the first free one, or else
      wherever reading stopped. */
  ghost predicate IsSlot(es: seq<Entry>, n: nat, k: nat)
  {
    && k <= |es| && k <= n
    && (forall j :: 0 <= j < k ==> es[j].inUse)
    && (k < |es| && k < n ==> !es[k].inUse)
  }

  /** With memory for every entry, dir_add finds the name unbound and a slot exactly when the name
      is unbound and some entry is free. */
  lemma AddSucceedsIff(es: seq<Entry>, name: Name, n: nat, r: Option<nat>, k: nat)
    requires NamesOk(es) && Unique(es) && IsCString(name) && |es| <= n && Found(es, name, n, r) && IsSlot(es, n, k)
    ensures r.None? && k < |es| <==> name !in Bindings(es) && exists j :: 0 <= j < |es| && !es[j].inUse
  {
    LookupIsBinding(es, name, n, r);
  }

  /** What a successful dir_add has done, when memory lasted for `lookup` and then `search` entry
      reads. */
  ghost predicate Added(es: seq<Entry>, es': seq<Entry>, name: Name, sector: uint32, lookup: nat, search: nat, slot: nat, e: Entry)
  {
    && 1 <= |name| <= 14 && Found(es, name, lookup, None) && IsSlot(es, search, slot) && slot < |es|
    && es' == es[slot := e] && e.inUse && e.sector == sector && NameOf(e) == name
  }

  /** The change a caller wants: one binding more. */
  ghost predicate OneMore(es: seq<Entry>, es': seq<Entry>, name: Name, sector: uint32)
    requires Unique(es)
  {
    name !in Bindings(es) && Unique(es') && Bindings(es') == Bindings(es)[name := sector]
  }

  lemma RightIffFree(es: seq<Entry>, k: nat, e: Entry)
    requires Unique(es) && k < |es| && e.inUse && NameOf(e) !in Bindings(es)
    ensures OneMore(es, es[k := e], NameOf(e), e.sector) <==> !es[k].inUse
  {
    var es' := es[k := e];
    if !es[k].inUse {
      AddBinding(es, k, e);
    } else if Unique(es') {
      var lost := NameOf(es[k]);
      assert lost in Bindings(es);
      forall j | 0 <= j < |es'| && es'[j].inUse
        ensures NameOf(es'[j]) != lost
      {
        assert j != k ==> es'[j] == es[j];
      }
      assert lost !in Bindings(es');
    }
  }

  lemma UnboundIff(es: seq<Entry>, name: Name, lookup: nat)
    requires NamesOk(es) && Unique(es) && IsCString(name) && Found(es, name, lookup, None)
    ensures name !in Bindings(es) <==> forall j :: lookup <= j < |es| ==> !Matches(es[j], name)
  {
    if forall j :: lookup <= j < |es| ==> !Matches(es[j], name) {
      LookupIsBinding(es, name, |es|, None);
    } else {
      var j :| lookup <= j < |es| && Matches(es[j], name);
      StrEqIsCString(name, es[j].name);
      assert NameOf(es[j]) in Bindings(es);
    }
  }

  /** A successful dir_add is right exactly when no entry beyond the memory for lookup has the name
      and there is a free entry within, or just at, the reach of the memory for the search. */
  lemma AddCorrectIff(es: seq<Entry>, es': seq<Entry>, name: Name, sector: uint32, lookup: nat, search: nat, slot: nat, e: Entry)
    requires NamesOk(es) && Unique(es) && IsCString(name) && Added(es, es', name, sector, lookup, search, slot, e)
    ensures OneMore(es, es', name, sector) <==>
              && (forall j :: lookup <= j < |es| ==> !Matches(es[j], name))
              && (exists j :: 0 <= j < |es| && j <= search && !es[j].inUse)
  {
    UnboundIff(es, name, lookup);
    assert !es[slot].inUse <==> exists j :: 0 <= j < |es| && j <= search && !es[j].inUse;
    if name !in Bindings(es) { RightIffFree(es, slot, e); }
  }

  // ----- dir_readdir

  /** The names a reader at entry k has still to see. */
  ghost function Listing(es: seq<Entry>, k: nat): seq<Name>
    requires k <= |es|
    decreases |es| - k
  {
    if k == |es| then [] else (if es[k].inUse then [NameOf(es[k])] else []) + Listing(es, k + 1)
  }

  lemma ListingSkip(es: seq<Entry>, k: nat)
    requires k < |es| && !es[k].inUse
    ensures Listing(es, k) == Listing(es, k + 1)
  {
  }

  lemma ListingGrows(es: seq<Entry>, names: seq<Name>, k: nat, k': nat, name: Name)
    requires k <= |es| && k' <= |es| && Listing(es, 0) == names + Listing(es, k) && Listing(es, k) == [name] + Listing(es, k')
    ensures Listing(es, 0) == names + [name] + Listing(es, k') && |Listing(es, k')| < |Listing(es, k)|
  {
    CatAssoc(names, [name], Listing(es, k'));
  }

  lemma {:induction false} ListingMembers(es: seq<Entry>, k: nat, n: Name)
    requires k <= |es|
    ensures n in Listing(es, k) <==> exists j :: k <= j < |es| && es[j].inUse && NameOf(es[j]) == n
    decreases |es| - k
  {
    if k < |es| { ListingMembers(es, k + 1, n); }
  }

  lemma {:induction false} ListingNoDup(es: seq<Entry>, k: nat)
    requires k <= |es| && Unique(es)
    ensures NoDup(Listing(es, k))
    decreases |es| - k
  {
    if k < |es| {
      ListingNoDup(es, k + 1);
      ListingMembers(es, k + 1, NameOf(es[k]));
    }
  }

  /** A full listing names each binding once. */
  lemma ListingIsBindings(es: seq<Entry>)
    requires Unique(es)
    ensures NoDup(Listing(es, 0))
    ensures forall n :: n in Listing(es, 0) <==> n in Bindings(es)
  {
    ListingNoDup(es, 0);
    forall n
      ensures n in Listing(es, 0) <==> n in Bindings(es)
    {
      ListingMembers(es, 0, n);
    }
  }
}
