/** Sorted tables and levels of tx_lsm_tree.rs and sstable.rs, with each table taken as the list of
    its records: key ranges, scans that promote, and the per-level maps ordered by table ID. */
module Levels {
  import opened Common
  import opened Records

  datatype Sst = Sst(id: int, syncId: int, records: seq<Record>)

  ghost predicate WellFormed(s: Sst) {
    s.records != [] && Sorted(s.records)
  }

  function First(s: Sst): Key
    requires s.records != []
  {
    s.records[0].key
  }

  function Last(s: Sst): Key
    requires s.records != []
  {
    s.records[|s.records| - 1].key
  }

  /** `overlap_with` on inclusive key ranges. */
  predicate OverlapsRange(s: Sst, lo: Key, hi: Key)
    requires s.records != []
  {
    !(Last(s) < lo || First(s) > hi)
  }

  predicate Overlaps(a: Sst, b: Sst)
    requires a.records != [] && b.records != []
  {
    OverlapsRange(a, First(b), Last(b))
  }

  predicate Within(s: Sst, k: Key)
    requires s.records != []
  {
    First(s) <= k <= Last(s)
  }

  lemma FoundWithin(s: Sst, k: Key)
    requires WellFormed(s)
    ensures Lookup(s.records, k).Some? ==> Within(s, k)
  {
    LookupMember(s.records, k);
  }

  // ---- Scans -------------------------------------------------------------------------------

  /** `SstIter` over a whole table: every entry, promoted when all records are known synced. */
  function Scan(rs: seq<Record>, allSynced: bool): (out: seq<Record>)
    ensures |out| == |rs|
  {
    seq(|rs|, i requires 0 <= i < |rs| => Record(rs[i].key, Promote(rs[i].value, allSynced).0))
  }

  /** What the scan of the first `i` records reports as dropped. */
  function ScanDrops(rs: seq<Record>, allSynced: bool, i: int): seq<Drop>
    requires i <= |rs|
  {
    if i <= 0 then []
    else ScanDrops(rs, allSynced, i - 1) + OptionDrop(rs[i - 1].key, Promote(rs[i - 1].value, allSynced).1)
  }

  function PromoteOpt(e: Option<ValueEx>, allSynced: bool): Option<ValueEx> {
    if e.Some? then Some(Promote(e.value, allSynced).0) else None
  }

  lemma {:induction false} ScanLookupFrom(rs: seq<Record>, allSynced: bool, i: nat, k: Key)
    ensures LookupFrom(Scan(rs, allSynced), i, k) == PromoteOpt(LookupFrom(rs, i, k), allSynced)
    decreases |rs| - i
  {
    if i < |rs| { ScanLookupFrom(rs, allSynced, i + 1, k); }
  }

  lemma ScanLookup(rs: seq<Record>, allSynced: bool, k: Key)
    ensures Lookup(Scan(rs, allSynced), k) == PromoteOpt(Lookup(rs, k), allSynced)
  {
    ScanLookupFrom(rs, allSynced, 0, k);
  }

  function PromotionDrop(e: Option<ValueEx>, allSynced: bool): Option<Value> {
    if e.Some? then Promote(e.value, allSynced).1 else None
  }

  lemma {:induction false} ScanDropsUpTo(rs: seq<Record>, allSynced: bool, i: nat, k: Key, v: Value)
    requires Sorted(rs) && i <= |rs|
    ensures (forall n :: 0 <= n < i ==> rs[n].key != k) ==> Drops(ScanDrops(rs, allSynced, i), k, v) == 0
    ensures forall n :: 0 <= n < i && rs[n].key == k ==>
              Drops(ScanDrops(rs, allSynced, i), k, v) == OptionUses(Promote(rs[n].value, allSynced).1, v)
  {
    if i > 0 {
      ScanDropsUpTo(rs, allSynced, i - 1, k, v);
      var d := Promote(rs[i - 1].value, allSynced).1;
      DropsConcat(ScanDrops(rs, allSynced, i - 1), OptionDrop(rs[i - 1].key, d), k, v);
      OptionDrops(rs[i - 1].key, d, k, v);
    }
  }

  lemma ScanDropsCount(rs: seq<Record>, allSynced: bool, k: Key, v: Value)
    requires Sorted(rs)
    ensures Drops(ScanDrops(rs, allSynced, |rs|), k, v) == OptionUses(PromotionDrop(Lookup(rs, k), allSynced), v)
  {
    ScanDropsUpTo(rs, allSynced, |rs|, k, v);
    LookupMember(rs, k);
  }

  lemma ScanSorted(rs: seq<Record>, allSynced: bool)
    requires Sorted(rs)
    ensures Sorted(Scan(rs, allSynced))
  {
  }

  /** The scan loop. */
  method ScanTable(s: Sst, master: int) returns (out: seq<Record>, drops: seq<Drop>)
    ensures out == Scan(s.records, master > s.syncId)
    ensures drops == ScanDrops(s.records, master > s.syncId, |s.records|)
  {
    out, drops := [], [];
    var allSynced := master > s.syncId;
    var i := 0;
    while i < |s.records|
      invariant i <= |s.records| && |out| == i
      invariant forall n :: 0 <= n < i ==> out[n] == Scan(s.records, allSynced)[n]
      invariant drops == ScanDrops(s.records, allSynced, i)
    {
      var (e, d) := Promote(s.records[i].value, allSynced);
      out := out + [Record(s.records[i].key, e)];
      drops := drops + OptionDrop(s.records[i].key, d);
      i := i + 1;
    }
  }

  // ---- One key's entries, newest first -------------------------------------------------------

  /** An entry together with the sync ID of the component that stores it. */
  datatype Entry = Entry(v: ValueEx, syncId: int)

  function One(s: Sst, k: Key): seq<Entry> {
    var e := Lookup(s.records, k);
    if e.Some? then [Entry(e.value, s.syncId)] else []
  }

  /** The entries of `k` in a level, larger table IDs first. */
  function Part(level: seq<Sst>, k: Key): seq<Entry> {
    if level == [] then [] else Part(level[1..], k) + One(level[0], k)
  }

  lemma {:induction false} PartConcat(a: seq<Sst>, b: seq<Sst>, k: Key)
    ensures Part(a + b, k) == Part(b, k) + Part(a, k)
  {
    if a == [] {
      assert a + b == b;
    } else {
      assert (a + b)[1..] == a[1..] + b;
      PartConcat(a[1..], b, k);
    }
  }

  lemma {:induction false} PartNone(level: seq<Sst>, k: Key)
    requires forall i :: 0 <= i < |level| ==> Lookup(level[i].records, k).None?
    ensures Part(level, k) == []
  {
    if level != [] { PartNone(level[1..], k); }
  }

  lemma {:induction false} PartUnique(level: seq<Sst>, n: nat, k: Key)
    requires n < |level|
    requires forall i :: 0 <= i < |level| && i != n ==> Lookup(level[i].records, k).None?
    ensures Part(level, k) == One(level[n], k)
  {
    if n == 0 {
      PartNone(level[1..], k);
    } else {
      assert level[1..][n - 1] == level[n];
      PartUnique(level[1..], n - 1, k);
    }
  }

  // ---- Levels as maps ordered by ID ----------------------------------------------------------

  ghost predicate IdSorted(level: seq<Sst>) {
    forall i, j :: 0 <= i < j < |level| ==> level[i].id < level[j].id
  }

  ghost predicate AllWellFormed(level: seq<Sst>) {
    forall i :: 0 <= i < |level| ==> WellFormed(level[i])
  }

  /** Key ranges of a level are pairwise disjoint. */
  ghost predicate Disjoint(level: seq<Sst>) {
    && AllWellFormed(level)
    && forall i, j :: 0 <= i < |level| && 0 <= j < |level| && i != j ==> !Overlaps(level[i], level[j])
  }

  /** In a level of disjoint tables a key is in at most one table. */
  lemma PartDisjoint(level: seq<Sst>, n: nat, k: Key)
    requires Disjoint(level) && n < |level|
    requires Within(level[n], k)
    ensures Part(level, k) == One(level[n], k)
  {
    forall i | 0 <= i < |level| && i != n ensures Lookup(level[i].records, k).None? {
      FoundWithin(level[i], k);
      assert !Overlaps(level[i], level[n]);
    }
    PartUnique(level, n, k);
  }

  lemma PartOutside(level: seq<Sst>, k: Key)
    requires AllWellFormed(level)
    requires forall i :: 0 <= i < |level| ==> !Within(level[i], k)
    ensures Part(level, k) == []
  {
    forall i | 0 <= i < |level| ensures Lookup(level[i].records, k).None? {
      FoundWithin(level[i], k);
    }
    PartNone(level, k);
  }

  /** `SstManager::insert`: a `BTreeMap` insertion. */
  function InsertSst(level: seq<Sst>, s: Sst): seq<Sst> {
    if level == [] || s.id < level[0].id then [s] + level
    else if s.id == level[0].id then [s] + level[1..]
    else [level[0]] + InsertSst(level[1..], s)
  }

  /** `SstManager::remove`. */
  function RemoveSst(level: seq<Sst>, id: int): seq<Sst> {
    if level == [] then []
    else if level[0].id == id then level[1..]
    else [level[0]] + RemoveSst(level[1..], id)
  }

  /** Where a new ID goes. */
  lemma {:induction false} InsertAt(level: seq<Sst>, s: Sst) returns (p: nat)
    requires IdSorted(level)
    requires forall i :: 0 <= i < |level| ==> level[i].id != s.id
    ensures p <= |level| && InsertSst(level, s) == level[..p] + [s] + level[p..]
    ensures forall i :: 0 <= i < p ==> level[i].id < s.id
    ensures forall i :: p <= i < |level| ==> s.id < level[i].id
  {
    if level == [] || s.id < level[0].id {
      p := 0;
    } else {
      var q := InsertAt(level[1..], s);
      p := q + 1;
      assert level[..p] == [level[0]] + level[1..][..q];
      assert level[p..] == level[1..][q..];
      forall i | 0 <= i < p ensures level[i].id < s.id {
        if i > 0 { assert level[i] == level[1..][i - 1]; }
      }
      forall i | p <= i < |level| ensures s.id < level[i].id {
        assert level[i] == level[1..][i - 1];
      }
    }
  }

  lemma {:induction false} InsertLast(level: seq<Sst>, s: Sst)
    requires forall i :: 0 <= i < |level| ==> level[i].id < s.id
    ensures InsertSst(level, s) == level + [s]
  {
    if level != [] {
      InsertLast(level[1..], s);
      assert [level[0]] + (level[1..] + [s]) == level + [s];
    }
  }
}
