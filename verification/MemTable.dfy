/** The sync-aware memtable of mem_table.rs: first as a value with its operations and invariant,
    then as the object whose fields the operations update. */
module MemTables {
  import opened Common
  import opened Records

  /** A half-open key range, `Range<K>`. */
  datatype KeyRange = KeyRange(lo: Key, hi: Key)

  datatype Mem = Mem(
    table: map<Key, ValueEx>,
    size: nat,
    cap: nat,
    syncId: nat,
    unsynced: Option<KeyRange>)

  function EmptyMem(cap: nat, syncId: nat): Mem {
    Mem(map[], 0, cap, syncId, None)
  }

  function Pairs(table: map<Key, ValueEx>): set<Key> {
    set k | k in table && table[k].SyncedAndUnsynced?
  }

  /** `size` counts values, and a known unsynced range covers every unsynced value. */
  ghost predicate MemInv(m: Mem) {
    && m.size == |m.table| + |Pairs(m.table)|
    && (m.unsynced.Some? ==>
          forall k :: k in m.table && ContainsUnsynced(m.table[k]) ==>
            m.unsynced.value.lo <= k < m.unsynced.value.hi)
  }

  predicate AtCapacity(m: Mem) {
    m.size >= m.cap
  }

  /** `unsynced_range` grows to cover a newly put key, once a first sync has made it known. */
  function WidenRange(r: Option<KeyRange>, k: Key): Option<KeyRange> {
    if r.None? then None
    else if r.value.lo >= r.value.hi then Some(KeyRange(k, k + 1))
    else Some(KeyRange(if k < r.value.lo then k else r.value.lo,
                       if k + 1 > r.value.hi then k + 1 else r.value.hi))
  }

  /** A known range becomes the smallest one that covers the key and what it covered before. */
  lemma WidensLeast(r: KeyRange, k: Key, w: KeyRange)
    ensures var r' := WidenRange(Some(r), k);
            && r'.Some? && r'.value.lo <= k < r'.value.hi
            && (r.lo < r.hi ==> r'.value.lo <= r.lo && r.hi <= r'.value.hi)
            && (w.lo <= k < w.hi && (r.lo < r.hi ==> w.lo <= r.lo && r.hi <= w.hi) ==> w.lo <= r'.value.lo && r'.value.hi <= w.hi)
    ensures WidenRange(None, k) == None
  {
  }

  /** `MemTable::put`: the new table and the dropped value, if any. */
  function MemPut(m: Mem, k: Key, v: Value): (Mem, Option<Value>) {
    var (e, dropped) := if k in m.table then PutValue(m.table[k], v) else (Unsynced(v), None);
    (m.(table := m.table[k := e],
        size := if dropped.Some? then m.size else m.size + 1,
        unsynced := WidenRange(m.unsynced, k)),
     dropped)
  }

  function SyncedTable(table: map<Key, ValueEx>): map<Key, ValueEx> {
    map k | k in table :: SyncValue(table[k]).0
  }

  /** Callbacks of a sync over the first `i` keys of `ks`. */
  function SyncDrops(table: map<Key, ValueEx>, ks: seq<Key>, i: int): seq<Drop>
    requires i <= |ks|
  {
    if i <= 0 then [] else SyncDrops(table, ks, i - 1) + SyncDrop(table, ks[i - 1])
  }

  function SyncDrop(table: map<Key, ValueEx>, k: Key): seq<Drop> {
    if k in table then OptionDrop(k, SyncValue(table[k]).1) else []
  }

  function AllSyncDrops(table: map<Key, ValueEx>): seq<Drop> {
    var ks := SortedKeys(table.Keys);
    SyncDrops(table, ks, |ks|)
  }

  /** `MemTable::sync` as it should act: every value becomes synced. `junk` is the uninitialised
      range inserted upon the first sync. */
  function MemSync(m: Mem, syncId: nat, junk: KeyRange): (Mem, seq<Drop>) {
    if m.syncId == syncId then (m, [])
    else (m.(table := SyncedTable(m.table),
             size := |m.table|,
             syncId := syncId,
             unsynced := if m.unsynced.Some? then m.unsynced else Some(junk)),
          AllSyncDrops(m.table))
  }

  /** `range_mut` panics on an inverted range of a table that is not empty. */
  predicate SyncPanics(m: Mem, syncId: nat) {
    m.syncId != syncId && m.table != map[] && m.unsynced.Some? && m.unsynced.value.lo > m.unsynced.value.hi
  }

  /** Two syncs without a put in between panic if and only if the uninitialised range is inverted; any put
      in between prevents it. */
  lemma SecondSync(m: Mem, a: nat, b: nat, junk: KeyRange, k: Key, v: Value)
    requires m.unsynced.None? && m.syncId != a && a != b
    ensures !SyncPanics(m, a)
    ensures SyncPanics(MemSync(m, a, junk).0, b) <==> m.table != map[] && junk.lo > junk.hi
    ensures !SyncPanics(MemPut(MemSync(m, a, junk).0, k, v).0, b)
  {
    var m' := MemSync(m, a, junk).0;
    assert m'.table.Keys == m.table.Keys;
    MapEmptyOrInhabited(m.table);
    MapEmptyOrInhabited(m'.table);
  }

  // ---- Invariant preservation --------------------------------------------------------------

  lemma PutKeepsInv(m: Mem, k: Key, v: Value)
    requires MemInv(m)
    ensures MemInv(MemPut(m, k, v).0)
  {
    var m' := MemPut(m, k, v).0;
    if k in m.table {
      assert m'.table.Keys == m.table.Keys;
      if m.table[k].Synced? {
        assert Pairs(m'.table) == Pairs(m.table) + {k};
      } else {
        assert Pairs(m'.table) == Pairs(m.table);
      }
    } else {
      assert m'.table.Keys == m.table.Keys + {k};
      assert Pairs(m'.table) == Pairs(m.table);
    }
  }

  lemma NoPairsLeft(table: map<Key, ValueEx>)
    ensures Pairs(SyncedTable(table)) == {}
  {
    assert forall k :: k !in Pairs(SyncedTable(table));
  }

  lemma SyncKeepsInv(m: Mem, syncId: nat, junk: KeyRange)
    requires MemInv(m)
    ensures MemInv(MemSync(m, syncId, junk).0)
    ensures MemSync(m, syncId, junk).0.size <= m.size
  {
    var m' := MemSync(m, syncId, junk).0;
    if m.syncId != syncId {
      assert m'.table.Keys == m.table.Keys;
      NoPairsLeft(m.table);
    }
  }

  lemma {:induction false} SyncDropsCount(table: map<Key, ValueEx>, ks: seq<Key>, i: nat, k: Key, v: Value)
    requires i <= |ks|
    requires forall a, b :: 0 <= a < b < |ks| ==> ks[a] < ks[b]
    ensures Drops(SyncDrops(table, ks, i), k, v) ==
            if k in ks[..i] && k in table then OptionUses(SyncValue(table[k]).1, v) else 0
  {
    if i > 0 {
      var j := ks[i - 1];
      SyncDropsCount(table, ks, i - 1, k, v);
      DropsConcat(SyncDrops(table, ks, i - 1), SyncDrop(table, j), k, v);
      if j in table { OptionDrops(j, SyncValue(table[j]).1, k, v); }
      assert ks[..i] == ks[..i - 1] + [j];
      assert j !in ks[..i - 1];
    }
  }

  /** A sync loses no value: what leaves the table is exactly what the callbacks report. */
  lemma SyncConserves(m: Mem, syncId: nat, junk: KeyRange, k: Key, v: Value)
    ensures var (m', drops) := MemSync(m, syncId, junk);
            && (k in m'.table <==> k in m.table)
            && Drops(drops, k, v) == if k in m.table then Uses(m.table[k], v) - Uses(m'.table[k], v) else 0
  {
    if m.syncId != syncId {
      var ks := SortedKeys(m.table.Keys);
      SyncDropsCount(m.table, ks, |ks|, k, v);
      if k in m.table {
        SortedKeysComplete(m.table.Keys, k);
        assert ks[..|ks|] == ks;
        PromoteConserves(m.table[k], true, v);
      }
    }
  }

  // ---- The object --------------------------------------------------------------------------

  /** A table after the first `i` keys of `ks` have been synced. */
  function SyncSome(table: map<Key, ValueEx>, ks: seq<Key>, i: int): (r: map<Key, ValueEx>)
    requires i <= |ks|
    requires forall j :: 0 <= j < |ks| ==> ks[j] in table
    ensures r.Keys == table.Keys
  {
    if i <= 0 then table else
    var r := SyncSome(table, ks, i - 1);
    r[ks[i - 1] := SyncValue(r[ks[i - 1]]).0]
  }

  lemma {:induction false} SyncSomeAt(table: map<Key, ValueEx>, ks: seq<Key>, i: nat, k: Key)
    requires i <= |ks|
    requires forall j :: 0 <= j < |ks| ==> ks[j] in table
    requires forall a, b :: 0 <= a < b < |ks| ==> ks[a] < ks[b]
    requires k in table
    ensures SyncSome(table, ks, i)[k] == if k in ks[..i] then SyncValue(table[k]).0 else table[k]
  {
    if i > 0 {
      SyncSomeAt(table, ks, i - 1, k);
      assert ks[..i] == ks[..i - 1] + [ks[i - 1]];
      assert ks[i - 1] !in ks[..i - 1];
    }
  }

  lemma NextToSync(table: map<Key, ValueEx>, ks: seq<Key>, i: nat)
    requires i < |ks|
    requires forall j :: 0 <= j < |ks| ==> ks[j] in table
    requires forall a, b :: 0 <= a < b < |ks| ==> ks[a] < ks[b]
    ensures SyncSome(table, ks, i)[ks[i]] == table[ks[i]]
  {
    SyncSomeAt(table, ks, i, ks[i]);
    assert ks[i] !in ks[..i];
  }

  lemma SyncSomeAll(table: map<Key, ValueEx>)
    ensures var ks := SortedKeys(table.Keys); SyncSome(table, ks, |ks|) == SyncedTable(table)
  {
    var ks := SortedKeys(table.Keys);
    assert ks[..|ks|] == ks;
    forall k | k in table ensures SyncSome(table, ks, |ks|)[k] == SyncValue(table[k]).0 {
      SortedKeysComplete(table.Keys, k);
      SyncSomeAt(table, ks, |ks|, k);
    }
  }

  lemma PairsUpdate(table: map<Key, ValueEx>, k: Key)
    requires k in table
    ensures var r := SyncValue(table[k]);
            |Pairs(table[k := r.0])| == |Pairs(table)| - (if r.1.Some? then 1 else 0)
  {
    var r := SyncValue(table[k]);
    assert Pairs(table[k := r.0]) == Pairs(table) - {k};
    if r.1.Some? { assert k in Pairs(table); }
  }

  class MemTable {
    var table: map<Key, ValueEx>
    var size: nat
    var cap: nat
    var syncId: nat
    var unsyncedRange: Option<KeyRange>

    /** The contents as a value. */
    function State(): Mem
      reads this
    {
      Mem(table, size, cap, syncId, unsyncedRange)
    }

    constructor (cap: nat, syncId: nat)
      ensures State() == EmptyMem(cap, syncId)
      ensures MemInv(State())
    {
      this.table, this.size, this.cap := map[], 0, cap;
      this.syncId, this.unsyncedRange := syncId, None;
    }

    method Get(k: Key) returns (r: Option<Value>)
      ensures r == if k in table then Some(Newest(table[k])) else None
    {
      if k in table { r := Some(Newest(table[k])); } else { r := None; }
    }

    method Put(k: Key, v: Value) returns (dropped: Option<Value>)
      requires MemInv(State())
      modifies this
      ensures (State(), dropped) == MemPut(old(State()), k, v)
      ensures MemInv(State())
    {
      PutKeepsInv(State(), k, v);
      if k in table {
        var (e, d) := PutValue(table[k], v);
        table := table[k := e];
        dropped := d;
        if d.None? { size := size + 1; }
      } else {
        table := table[k := Unsynced(v)];
        size := size + 1;
        dropped := None;
      }
      if unsyncedRange.Some? {
        var r := unsyncedRange.value;
        if r.lo >= r.hi {
          unsyncedRange := Some(KeyRange(k, k + 1));
        } else {
          var lo := if k < r.lo then k else r.lo;
          var hi := if k + 1 > r.hi then k + 1 else r.hi;
          unsyncedRange := Some(KeyRange(lo, hi));
        }
      }
    }

    /** Syncs the entry of one key, if it has an unsynced value inside the unsynced range. */
    method SyncEntry(k: Key) returns (drops: seq<Drop>)
      requires k in table && size >= |Pairs(table)|
      requires unsyncedRange.Some? && ContainsUnsynced(table[k]) ==>
                 unsyncedRange.value.lo <= k < unsyncedRange.value.hi
      modifies this`table, this`size
      ensures table == old(table)[k := SyncValue(old(table)[k]).0]
      ensures drops == SyncDrop(old(table), k)
      ensures size - |Pairs(table)| == old(size) - |Pairs(old(table))|
    {
      PairsUpdate(table, k);
      drops := [];
      if (unsyncedRange.None? || unsyncedRange.value.lo <= k < unsyncedRange.value.hi)
         && ContainsUnsynced(table[k]) {
        var (e, dropped) := SyncValue(table[k]);
        if dropped.Some? {
          assert k in Pairs(table);
          drops := [Drop(k, dropped.value)];
          size := size - 1;
        }
        table := table[k := e];
      } else {
        assert table == table[k := table[k]];
      }
    }

    /** The loop of a sync: visits only the unsynced range, yet syncs the whole table. */
    method SyncEntries(ks: seq<Key>) returns (drops: seq<Drop>)
      requires MemInv(State())
      requires forall j :: 0 <= j < |ks| ==> ks[j] in table
      requires forall a, b :: 0 <= a < b < |ks| ==> ks[a] < ks[b]
      modifies this`table, this`size
      ensures table == SyncSome(old(table), ks, |ks|)
      ensures size == |old(table)| + |Pairs(table)|
      ensures drops == SyncDrops(old(table), ks, |ks|)
    {
      drops := [];
      ghost var was := table;
      var i := 0;
      while i < |ks|
        invariant i <= |ks|
        invariant table == SyncSome(was, ks, i)
        invariant size == |was| + |Pairs(table)|
        invariant drops == SyncDrops(was, ks, i)
      {
        NextToSync(was, ks, i);
        var d := SyncEntry(ks[i]);
        drops := drops + d;
        i := i + 1;
      }
    }

    /** `sync`; `ok` is false where the source panics. */
    method Sync(newId: nat, junk: KeyRange) returns (ok: bool, drops: seq<Drop>)
      requires MemInv(State())
      requires syncId <= newId
      modifies this
      ensures ok <==> !SyncPanics(old(State()), newId)
      ensures ok ==> (State(), drops) == MemSync(old(State()), newId, junk)
      ensures !ok ==> State() == old(State()) && drops == []
      ensures MemInv(State())
    {
      ghost var was := State();
      SyncKeepsInv(was, newId, junk);
      if syncId == newId { return true, []; }
      if unsyncedRange.Some? && unsyncedRange.value.lo > unsyncedRange.value.hi && table != map[] { return false, []; }
      ok := true;
      var ks := SortedKeys(table.Keys);
      drops := SyncEntries(ks);
      SyncSomeAll(was.table);
      NoPairsLeft(was.table);
      syncId := newId;
      if unsyncedRange.None? { unsyncedRange := Some(junk); }
      assert State() == MemSync(was, newId, junk).0;
    }

    method Clear()
      modifies this
      ensures State() == old(State()).(table := map[], size := 0, unsynced := None)
      ensures MemInv(State())
    {
      table, size, unsyncedRange := map[], 0, None;
    }
  }
}
