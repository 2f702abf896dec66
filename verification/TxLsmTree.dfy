/** The tree as the object of tx_lsm_tree.rs: two memtables, the table levels and the master sync ID,
    updated in place. The compaction thread of the source runs here either when a later put or sync
    waits for it, or earlier through `Compact`. */
module TxLsmTrees {
  import opened Common
  import opened Records
  import opened MemTables
  import opened Compaction
  import opened Levels
  import opened MajorCompaction
  import opened Columns
  import opened LsmTree
  import opened LsmInvariant
  import opened LsmSizes

  lemma SteppingTrans(t0: Tree, t1: Tree, t2: Tree, a: seq<Drop>, b: seq<Drop>, added: set<Drop>)
    requires Stepping(t0, t1, a, added) && Stepping(t1, t2, b, {})
    ensures Stepping(t0, t2, a + b, added)
  {
    forall k, v ensures LiveIn(t2, k, v) + Drops(a + b, k, v) == LiveIn(t0, k, v) + (if Drop(k, v) in added then 1 else 0) {
      DropsConcat(a, b, k, v);
      assert LiveIn(t1, k, v) + Drops(a, k, v) == LiveIn(t0, k, v) + (if Drop(k, v) in added then 1 else 0);
      assert LiveIn(t2, k, v) + Drops(b, k, v) == LiveIn(t1, k, v);
    }
  }

  lemma SteppingNothing(t: Tree)
    ensures Stepping(t, t, [], {})
  {
  }

  /** A step that is neither a put nor a sync changes no view. */
  lemma QuietStep(t: Tree, op: Op)
    requires Inv(t) && !op.Put? && !op.Sync? && Step(t, op).Stepped?
    ensures Inv(Step(t, op).tree)
    ensures SameViews(t, Step(t, op).tree)
    ensures Stepping(t, Step(t, op).tree, Step(t, op).drops, {})
  {
    StepKeeps(t, op);
    var t' := Step(t, op).tree;
    forall k ensures Latest(t', k) == Latest(t, k) && Durable(t', k) == Durable(t, k) { StepViews(t, op, k); }
    forall k, v ensures LiveIn(t', k, v) + Drops(Step(t, op).drops, k, v) == LiveIn(t, k, v) { StepLive(t, op, k, v); }
  }

  // ---- Searching the levels --------------------------------------------------------------------------

  /** `do_read_tx` within one level: tables from the newest to the oldest, skipping those whose range
      does not cover the key. */
  method SearchLevel(level: seq<Sst>, k: Key) returns (r: Option<Value>)
    requires AllWellFormed(level)
    ensures r == LatestOf(Part(level, k))
  {
    var i := |level|;
    assert level[i..] == [];
    while i > 0
      invariant 0 <= i <= |level|
      invariant Part(level[i..], k) == []
    {
      i := i - 1;
      var s := level[i];
      assert level[i..] == [s] + level[i + 1..];
      PartCons(s, level[i + 1..], k);
      assert level == level[..i] + level[i..];
      PartConcat(level[..i], level[i..], k);
      FoundWithin(s, k);
      if Within(s, k) {
        var e := Lookup(s.records, k);
        if e.Some? { return Some(Newest(e.value)); }
      }
    }
    assert level[0..] == level;
    r := None;
  }

  /** The reads of all levels, top to bottom. */
  method SearchLevels(levels: seq<seq<Sst>>, k: Key) returns (r: Option<Value>)
    requires forall l :: 0 <= l < |levels| ==> AllWellFormed(levels[l])
    ensures r == LatestOf(Span(levels, 0, |levels|, k))
  {
    var l := 0;
    while l < |levels|
      invariant 0 <= l <= |levels|
      invariant Span(levels, 0, |levels|, k) == Span(levels, l, |levels|, k)
    {
      r := SearchLevel(levels[l], k);
      if r.Some? { return; }
      l := l + 1;
    }
    r := None;
  }

  // ---- Updating a level ------------------------------------------------------------------------------

  /** The tables whose ID is not in `ids`. */
  function Keep(level: seq<Sst>, ids: set<int>): seq<Sst> {
    if level == [] then []
    else (if level[0].id in ids then [] else [level[0]]) + Keep(level[1..], ids)
  }

  lemma {:induction false} KeepAll(level: seq<Sst>)
    ensures Keep(level, {}) == level
  {
    if level != [] { KeepAll(level[1..]); }
  }

  lemma {:induction false} KeepConcat(a: seq<Sst>, b: seq<Sst>, ids: set<int>)
    ensures Keep(a + b, ids) == Keep(a, ids) + Keep(b, ids)
  {
    if a == [] {
      assert a + b == b;
    } else {
      assert (a + b)[1..] == a[1..] + b;
      KeepConcat(a[1..], b, ids);
    }
  }

  lemma {:induction false} KeepUntouched(level: seq<Sst>, ids: set<int>)
    requires forall i :: 0 <= i < |level| ==> level[i].id !in ids
    ensures Keep(level, ids) == level
  {
    if level != [] { KeepUntouched(level[1..], ids); }
  }

  /** Removing one more ID. */
  lemma {:induction false} KeepRemove(level: seq<Sst>, ids: set<int>, id: int)
    requires IdSorted(level)
    ensures RemoveSst(Keep(level, ids), id) == Keep(level, ids + {id})
  {
    if level != [] {
      KeepRemove(level[1..], ids, id);
      var s := level[0];
      if s.id == id && s.id !in ids {
        assert Keep(level, ids) == [s] + Keep(level[1..], ids);
        assert Keep(level, ids)[1..] == Keep(level[1..], ids);
        KeepOther(level[1..], ids, id);
      } else if s.id !in ids {
        assert Keep(level, ids) == [s] + Keep(level[1..], ids);
        assert Keep(level, ids)[1..] == Keep(level[1..], ids);
      } else {
        assert Keep(level, ids) == Keep(level[1..], ids);
        assert Keep(level, ids + {id}) == Keep(level[1..], ids + {id});
      }
    }
  }

  lemma {:induction false} KeepOther(level: seq<Sst>, ids: set<int>, id: int)
    requires forall i :: 0 <= i < |level| ==> level[i].id != id
    ensures Keep(level, ids + {id}) == Keep(level, ids)
  {
    if level != [] { KeepOther(level[1..], ids, id); }
  }

  ghost function IdsOf(ts: seq<Sst>): set<int> {
    set i | 0 <= i < |ts| :: ts[i].id
  }

  /** Dropping the overlapped tables leaves the others. */
  lemma {:induction false} KeepOthers(level: seq<Sst>, u: Sst, ids: set<int>)
    requires AllWellFormed(level) && u.records != []
    requires forall i :: 0 <= i < |level| ==> (level[i].id in ids <==> Overlaps(level[i], u))
    ensures Keep(level, ids) == Others(level, u)
  {
    if level != [] { KeepOthers(level[1..], u, ids); }
  }

  lemma {:induction false} OverlappedComplete(level: seq<Sst>, u: Sst, i: nat)
    requires AllWellFormed(level) && u.records != [] && i < |level| && Overlaps(level[i], u)
    ensures level[i] in Overlapped(level, u)
  {
    if i > 0 { OverlappedComplete(level[1..], u, i - 1); }
  }

  /** Exactly the overlapped tables have the IDs of the lower tables. */
  lemma LowerIds(level: seq<Sst>, u: Sst, i: nat)
    requires AllWellFormed(level) && IdSorted(level) && u.records != [] && i < |level|
    ensures level[i].id in IdsOf(LowerTables(level, u)) <==> Overlaps(level[i], u)
  {
    var ts := LowerTables(level, u);
    if Overlaps(level[i], u) {
      OverlappedComplete(level, u, i);
      SortByFirstMembers(Overlapped(level, u), level[i]);
      var n :| 0 <= n < |ts| && ts[n] == level[i];
      assert ts[n].id in IdsOf(ts);
    }
    if level[i].id in IdsOf(ts) {
      var n :| 0 <= n < |ts| && ts[n].id == level[i].id;
      SortByFirstMembers(Overlapped(level, u), ts[n]);
      assert ts[n] in ts;
      var os := Overlapped(level, u);
      var m :| 0 <= m < |os| && os[m] == ts[n];
      var j :| 0 <= j < |level| && level[j] == ts[n];
      assert i == j;
    }
  }

  lemma InsertTables(level: seq<Sst>, cs: seq<Sst>, i: nat, nextId: int)
    requires forall n :: 0 <= n < |level| ==> level[n].id < nextId
    requires forall n :: 0 <= n < |cs| ==> cs[n].id == nextId + n
    requires i < |cs|
    ensures InsertSst(level + cs[..i], cs[i]) == level + cs[..i + 1]
  {
    hide *;
    var r := level + cs[..i];
    forall n | 0 <= n < |r| ensures r[n].id < cs[i].id {
      if n >= |level| { assert r[n] == cs[n - |level|]; }
    }
    InsertLast(r, cs[i]);
    assert r + [cs[i]] == level + cs[..i + 1];
  }

  /** `update_sst_manager`: insert the created tables, then remove the deleted ones. */
  method UpdateLevel(level: seq<Sst>, cs: seq<Sst>, ds: seq<Sst>, nextId: int) returns (r: seq<Sst>)
    requires IdSorted(level) && forall n :: 0 <= n < |level| ==> level[n].id < nextId
    requires forall n :: 0 <= n < |cs| ==> cs[n].id == nextId + n
    ensures r == Keep(level + cs, IdsOf(ds))
  {
    r := level;
    var i := 0;
    assert level + cs[..0] == level;
    while i < |cs|
      invariant 0 <= i <= |cs|
      invariant r == level + cs[..i]
    {
      InsertTables(level, cs, i, nextId);
      r := InsertSst(r, cs[i]);
      i := i + 1;
    }
    assert cs[..|cs|] == cs;
    KeepAll(level + cs);
    var j := 0;
    assert IdsOf(ds[..0]) == {};
    while j < |ds|
      invariant 0 <= j <= |ds|
      invariant r == Keep(level + cs, IdsOf(ds[..j]))
    {
      KeepRemove(level + cs, IdsOf(ds[..j]), ds[j].id);
      IdsOfSnoc(ds, j);
      r := RemoveSst(r, ds[j].id);
      j := j + 1;
    }
    assert ds[..|ds|] == ds;
  }

  lemma IdsOfSnoc(ds: seq<Sst>, j: nat)
    requires j < |ds|
    ensures IdsOf(ds[..j + 1]) == IdsOf(ds[..j]) + {ds[j].id}
  {
    forall x ensures x in IdsOf(ds[..j + 1]) <==> x in IdsOf(ds[..j]) + {ds[j].id} {
      if x in IdsOf(ds[..j]) {
        var i :| 0 <= i < j && ds[..j][i].id == x;
        assert ds[..j + 1][i].id == x;
      }
      if x == ds[j].id { assert ds[..j + 1][j].id == x; }
      if x in IdsOf(ds[..j + 1]) {
        var i :| 0 <= i < j + 1 && ds[..j + 1][i].id == x;
        if i < j { assert ds[..j][i].id == x; }
      }
    }
  }

  // ---- One merge of two levels -----------------------------------------------------------------------

  method ScanTables(ts: seq<Sst>, master: int) returns (out: seq<Record>, drops: seq<Drop>)
    ensures out == Stream(ts, master) && drops == StreamDrops(ts, master)
  {
    out, drops := [], [];
    var i := |ts|;
    assert ts[i..] == [];
    while i > 0
      invariant 0 <= i <= |ts|
      invariant out == Stream(ts[i..], master) && drops == StreamDrops(ts[i..], master)
    {
      i := i - 1;
      var o, d := ScanTable(ts[i], master);
      assert ts[i..][0] == ts[i] && ts[i..][1..] == ts[i + 1..];
      out, drops := o + out, d + drops;
    }
    assert ts[0..] == ts;
  }

  method BuildTables(cs: seq<seq<Record>>, syncId: int, nextId: int) returns (ts: seq<Sst>)
    ensures ts == Tables(cs, syncId, nextId)
  {
    ts := [];
    var i := |cs|;
    assert cs[i..] == [];
    while i > 0
      invariant 0 <= i <= |cs|
      invariant ts == Tables(cs[i..], syncId, nextId + i)
    {
      i := i - 1;
      assert cs[i..][0] == cs[i] && cs[i..][1..] == cs[i + 1..];
      ts := [Sst(nextId + i, syncId, cs[i])] + ts;
    }
    assert cs[0..] == cs;
  }

  lemma CreatedIds(rs: seq<Record>, cap: nat, syncId: int, nextId: int)
    requires cap > 0 && Sorted(rs)
    ensures var cs := Created(rs, cap, syncId, nextId);
            forall n :: 0 <= n < |cs| ==> cs[n].id == nextId + n
  {
    var cs := Created(rs, cap, syncId, nextId);
    forall n | 0 <= n < |cs| ensures cs[n].id == nextId + n { CreatedKeys(rs, cap, syncId, nextId, n); }
  }

  lemma CompactedByIds(lower: seq<Sst>, u: Sst, cs: seq<Sst>, master: int, nextId: int)
    requires LevelOk(lower, master, nextId) && u.records != []
    requires forall n :: 0 <= n < |cs| ==> cs[n].id == nextId + n
    ensures Keep(lower + cs, IdsOf(LowerTables(lower, u))) == Others(lower, u) + cs
  {
    var ids := IdsOf(LowerTables(lower, u));
    KeepConcat(lower, cs, ids);
    forall i | 0 <= i < |lower| ensures lower[i].id in ids <==> Overlaps(lower[i], u) { LowerIds(lower, u, i); }
    KeepOthers(lower, u, ids);
    forall i | 0 <= i < |cs| ensures cs[i].id !in ids { FreshId(lower, u, cs[i].id, master, nextId); }
    KeepUntouched(cs, ids);
  }

  lemma FreshId(lower: seq<Sst>, u: Sst, id: int, master: int, nextId: int)
    requires LevelOk(lower, master, nextId) && u.records != [] && id >= nextId
    ensures id !in IdsOf(LowerTables(lower, u))
  {
    var ts := LowerTables(lower, u);
    forall n | 0 <= n < |ts| ensures ts[n].id < nextId {
      SortByFirstMembers(Overlapped(lower, u), ts[n]);
      assert ts[n] in ts;
      var os := Overlapped(lower, u);
      var m :| 0 <= m < |os| && os[m] == ts[n];
      assert os[m] in lower;
    }
  }

  /** The transaction body of a merging major compaction. */
  method MergeLevels(lower: seq<Sst>, u: Sst, master: int, cap: nat, nextId: int)
    returns (lower': seq<Sst>, drops: seq<Drop>, nextId': int)
    requires LevelOk(lower, master, nextId) && Disjoint(lower) && WellFormed(u) && cap > 0
    requires ArmsHandled(lower, u, master)
    ensures lower' == CompactedLevel(lower, u, master, cap, nextId)
    ensures drops == CompactionDrops(lower, u, master)
    ensures nextId' == nextId + |Created(Merged(lower, u, master), cap, master, nextId)|
  {
    var ts := SortByFirst(Overlapped(lower, u));
    var up, d0 := ScanTable(u, master);
    var lo, d1 := ScanTables(ts, master);
    var chunks, d2 := CompactRecords(up, lo, cap);
    var cs := BuildTables(chunks, master, nextId);
    UpperLookup(u, master, 0);
    LowerOrdered(lower, u, master);
    MergePreserves(up, lo, 0);
    CreatedIds(Merged(lower, u, master), cap, master, nextId);
    assert cs == Created(Merged(lower, u, master), cap, master, nextId);
    lower' := UpdateLevel(lower, cs, ts, nextId);
    CompactedByIds(lower, u, cs, master, nextId);
    drops := d0 + d1 + d2;
    nextId' := nextId + |cs|;
  }

  // ---- The object ------------------------------------------------------------------------------------

  class TxLsmTree {
    var mutable: MemTable
    var immutable: MemTable
    var pending: bool
    var levels: seq<seq<Sst>>
    var master: int
    var nextId: int
    const sstCap: nat

    function State(): Tree
      reads this, mutable, immutable
    {
      Tree(mutable.State(), immutable.State(), pending, levels, master, nextId, sstCap)
    }

    ghost predicate Core()
      reads this, mutable, immutable
    {
      mutable != immutable && Inv(State())
    }

    /** Between operations the levels keep their limits too. */
    ghost predicate Valid()
      reads this, mutable, immutable
    {
      Core() && Leveled(State())
    }

    constructor (memCap: nat, sstCap: nat)
      requires memCap > 0 && sstCap > 0
      ensures Valid() && fresh(mutable) && fresh(immutable)
      ensures State() == Format(memCap, sstCap)
    {
      mutable := new MemTable(memCap, 0);
      immutable := new MemTable(memCap, 0);
      pending, levels, master, nextId := false, [[], [], [], [], [], []], 0, 0;
      this.sstCap := sstCap;
      FormatInv(memCap, sstCap);
    }

    /** A reader gets the value the abstract column names: mutable table, immutable table even when it
        has already been compacted, then the levels. */
    method Get(k: Key) returns (r: Option<Value>)
      requires Valid()
      ensures r == Latest(State(), k)
    {
      ghost var t := State();
      ColumnTop(t, k);
      r := mutable.Get(k);
      if r.Some? { return; }
      r := immutable.Get(k);
      if r.Some? {
        if !pending { ShadowRead(t, k); }
        return;
      }
      assert forall l :: 0 <= l < |levels| ==> LevelOk(levels[l], master, nextId);
      r := SearchLevels(levels, k);
    }

    /** `put`, up to the point where the compaction thread is started: when the mutable table fills
        up, wait for the compaction in flight and switch the tables. */
    method Put(k: Key, v: Value, junk: KeyRange) returns (drops: seq<Drop>)
      requires Valid()
      requires !AtCapacity(mutable.State())
      modifies this, mutable, immutable
      ensures Valid() && !AtCapacity(mutable.State())
      ensures {mutable, immutable} == old({mutable, immutable})
      ensures Overwrites(old(State()), State(), k, v)
      ensures Stepping(old(State()), State(), drops, {Drop(k, v)})
      ensures !SyncPanics(State().mut, State().master + 1) && master == old(master)
      ensures var (t, ds) := PutStep(old(State()), k, v);
              if !AtCapacity(t.mut) then State() == t && drops == ds
              else pending && State().imm == t.mut && State().mut.table == map[]
    {
      hide LevelsInv, Shadowed, Column, Latest, Durable, LiveIn, Stepping, Overwrites, SameViews;
      ghost var t := State();
      PutInv(t, k, v);
      PutLeveled(t, k, v);
      PutAfter(t, k, v);
      var d := mutable.Put(k, v);
      drops := OptionDrop(k, d);
      ghost var t1 := State();
      assert (t1, drops) == PutStep(t, k, v);
      if mutable.size >= mutable.cap {
        if pending {
          var ds := Compact();
          SteppingTrans(t, t1, State(), drops, ds, {Drop(k, v)});
          OverwritesThen(t, t1, State(), k, v);
          drops := drops + ds;
        }
        ghost var t2 := State();
        SwitchTables(junk);
        SameColumns(t2, State());
        SteppingTrans(t, t2, State(), drops, [], {Drop(k, v)});
        OverwritesThen(t, t2, State(), k, v);
        assert drops + [] == drops;
      }
    }

    /** `MemTableManager::switch`. */
    method SwitchTables(junk: KeyRange)
      requires Valid() && !pending && AtCapacity(mutable.State()) && mutable.size <= mutable.cap
      modifies this, mutable, immutable
      ensures Valid() && pending && !AtCapacity(mutable.State())
      ensures {mutable, immutable} == old({mutable, immutable})
      ensures State() == SwitchStep(old(State()), junk)
      ensures forall k :: Column(State(), k) == Column(old(State()), k)
    {
      ghost var t := State();
      SwitchInv(t, junk);
      forall k ensures Column(SwitchStep(t, junk), k) == Column(t, k) { SwitchColumn(t, junk, k); }
      var syncId := mutable.syncId;
      immutable.Clear();
      mutable, immutable := immutable, mutable;
      EmptySyncs(mutable.State(), syncId, junk);
      var ok, drops := mutable.Sync(syncId, junk);
      pending := true;
      assert State() == SwitchStep(t, junk);
    }

    /** `sync`: wait for the compaction in flight, then sync the mutable table; `ok` is false where that panics. */
    method SyncAll(junk: KeyRange) returns (ok: bool, drops: seq<Drop>)
      requires Valid() && !AtCapacity(mutable.State())
      modifies this, mutable, immutable
      ensures Valid() && !AtCapacity(mutable.State()) && !pending
      ensures {mutable, immutable} == old({mutable, immutable})
      ensures ok <==> !SyncPanics(old(State()).mut, old(State()).master + 1)
      ensures master == old(master) + (if ok then 1 else 0) && mutable.syncId == master
      ensures if ok then Persists(old(State()), State()) else SameViews(old(State()), State())
      ensures Stepping(old(State()), State(), drops, {})
    {
      ghost var t := State();
      drops := [];
      SteppingNothing(t);
      if pending { drops := Compact(); }
      ghost var t1 := State();
      SyncKeepsInv(mutable.State(), master + 1, junk);
      SyncInv(t1, junk);
      SyncAfter(t1, junk);
      var ds;
      ok, ds := mutable.Sync(master + 1, junk);
      if !ok { return; }
      master := master + 1;
      assert (State(), ds) == SyncStep(t1, junk);
      SteppingTrans(t, t1, State(), drops, ds, {});
      PersistsAfter(t, t1, State());
      drops := drops + ds;
    }

    /** The compaction thread: major compactions while levels are over their limit, then the minor
        compaction of the immutable table. */
    method Compact() returns (drops: seq<Drop>)
      requires Valid() && pending
      modifies this
      ensures Valid() && !pending
      ensures mutable == old(mutable) && immutable == old(immutable)
      ensures State().mut == old(State()).mut && State().imm == old(State()).imm && State().master == old(State()).master
      ensures |levels[0]| == |old(levels[0])| + (if |old(levels[0])| >= LEVEL0_RATIO then 0 else 1)
      ensures |old(levels[0])| < LEVEL0_RATIO ==> drops == [] && levels[1..] == old(levels)[1..]
      ensures SameViews(old(State()), State())
      ensures Stepping(old(State()), State(), drops, {})
    {
      hide Leveled, Stepping, SameViews, Inv, Sized;
      ghost var t := State();
      drops := [];
      SteppingNothing(t);
      SameViewsNothing(t);
      SixLevels(t);
      LeveledSized(t);
      if |levels[0]| >= LEVEL0_RATIO {
        ghost var bottom;
        drops, bottom := MajorInto(1);
        IntoLeveled(t, State(), bottom);
      }
      ghost var t1 := State();
      MinorCompaction();
      QuietStep(t1, Minor);
      MinorLeveled(t1);
      SteppingTrans(t, t1, State(), drops, [], {});
      SameViewsTrans(t, t1, State());
      assert drops + [] == drops;
    }

    method MinorCompaction()
      requires Core() && pending
      modifies this
      ensures mutable == old(mutable) && immutable == old(immutable)
      ensures Step(old(State()), Minor) == Stepped(State(), [])
      ensures Core() && !pending
    {
      PendingNonempty(State());
      MinorInv(State());
      var s := Sst(nextId, immutable.syncId, Cook(immutable.table));
      levels := levels[0 := InsertSst(levels[0], s)];
      nextId, pending := nextId + 1, false;
    }

    /** `do_major_compaction` into level `to`, continued downwards while the level reached is over its limit.
        The check that follows a compaction into the last level is not modelled. */
    method MajorInto(to: nat) returns (drops: seq<Drop>, ghost bottom: nat)
      requires Core() && pending
      requires 1 <= to < NUM_LEVELS && |levels[to - 1]| > 0
      modifies this
      ensures Core() && pending
      ensures mutable == old(mutable) && immutable == old(immutable)
      ensures State().mut == old(State()).mut && State().imm == old(State()).imm && State().master == old(State()).master
      ensures Cascaded(old(levels), levels, to, bottom)
      ensures Sized(old(State()), sstCap) ==> Sized(State(), sstCap) && Grown(old(levels), levels, to, bottom)
      ensures SameViews(old(State()), State())
      ensures Stepping(old(State()), State(), drops, {})
      decreases NUM_LEVELS - to
    {
      hide Stepping, SameViews, Inv, Sized, Cascaded, Grown, Pushed, Stays, Meets, LevelLimit, Step;
      ghost var t := State();
      SixLevels(t);
      drops := MajorOnce(to - 1);
      QuietStep(t, Major(to - 1));
      ghost var t1 := State();
      SixLevels(t1);
      bottom := to;
      if to < NUM_LEVELS - 1 && |levels[to]| >= LevelLimit(to) {
        var ds;
        LimitPositive(levels[to], to);
        ds, bottom := MajorInto(to + 1);
        CascadeOn(t.levels, t1.levels, levels, to, bottom);
        SteppingTrans(t, t1, State(), drops, ds, {});
        SameViewsTrans(t, t1, State());
        drops := drops + ds;
      } else {
        CascadeEnds(t.levels, t1.levels, to);
      }
    }

    /** One major compaction from level `from`: the oldest table leaves, by move when nothing overlaps, by merge
        otherwise. */
    method MajorOnce(from: nat) returns (drops: seq<Drop>)
      requires Core() && pending
      requires from < NUM_LEVELS - 1 && |levels[from]| > 0
      modifies this
      ensures mutable == old(mutable) && immutable == old(immutable)
      ensures Step(old(State()), Major(from)) == Stepped(State(), drops)
      ensures Core() && pending
      ensures State().mut == old(State()).mut && State().imm == old(State()).imm && master == old(master)
      ensures Pushed(old(levels), levels, from) && Stays(old(levels), levels, from)
      ensures (forall s :: s in old(levels[from + 1]) ==> !Meets(s, old(levels[from][0]))) ==>
                drops == [] && old(levels[from][0]) in levels[from + 1]
      ensures Sized(old(State()), sstCap) ==> Sized(State(), sstCap) && |levels[from + 1]| <= |old(levels[from + 1])| + 1
    {
      hide Inv, Sized, Pushed, Stays, Meets, Step;
      ghost var t := State();
      SixLevels(t);
      drops := PushDown(from);
      MajorEffects(t, from, State(), drops);
    }

    method PushDown(from: nat) returns (drops: seq<Drop>)
      requires Core() && pending
      requires from < NUM_LEVELS - 1 && |levels[from]| > 0
      modifies this
      ensures mutable == old(mutable) && immutable == old(immutable)
      ensures Step(old(State()), Major(from)) == Stepped(State(), drops)
      ensures Core() && pending
    {
      ghost var t := State();
      MajorEnabled(t, from);
      MajorInv(t, from);
      var u, lower := levels[from][0], levels[from + 1];
      assert LevelOk(levels[from], master, nextId) && LevelOk(lower, master, nextId);
      if Overlapped(lower, u) == [] {
        levels := levels[from := levels[from][1..]][from + 1 := InsertSst(lower, u)];
        drops := [];
      } else {
        var lower', ds, id := MergeLevels(lower, u, master, sstCap, nextId);
        levels := levels[from := levels[from][1..]][from + 1 := lower'];
        drops, nextId := ds, id;
      }
      assert State() == MajorStep(t, from).0;
    }
  }

  lemma MajorEffects(t: Tree, from: nat, t': Tree, drops: seq<Drop>)
    requires Inv(t) && t.pending && from < NUM_LEVELS - 1 && t.levels[from] != []
    requires Step(t, Major(from)) == Stepped(t', drops)
    ensures t'.mut == t.mut && t'.imm == t.imm && t'.master == t.master && t'.sstCap == t.sstCap
    ensures Pushed(t.levels, t'.levels, from) && Stays(t.levels, t'.levels, from)
    ensures (forall s :: s in t.levels[from + 1] ==> !Meets(s, t.levels[from][0])) ==> drops == [] && t.levels[from][0] in t'.levels[from + 1]
    ensures Sized(t, t.sstCap) ==> Sized(t', t.sstCap) && |t'.levels[from + 1]| <= |t.levels[from + 1]| + 1
  {
    hide Sized, Pushed, Stays;
    MajorEnabled(t, from);
    MajorInv(t, from);
    MajorCounts(t, from);
    if Sized(t, t.sstCap) { MajorSized(t, from, t.sstCap); }
    var ov := Overlapped(t.levels[from + 1], t.levels[from][0]);
    assert ov != [] ==> ov[0] in t.levels[from + 1] && Meets(ov[0], t.levels[from][0]);
  }

  lemma LimitPositive(level: seq<Sst>, l: nat)
    requires |level| >= LevelLimit(l)
    ensures level != []
  {
  }

  lemma CascadeEnds(before: seq<seq<Sst>>, after: seq<seq<Sst>>, to: nat)
    requires 1 <= to < NUM_LEVELS && Pushed(before, after, to - 1)
    requires to == NUM_LEVELS - 1 || |after[to]| < LevelLimit(to)
    ensures Cascaded(before, after, to, to)
    ensures |after[to]| <= |before[to]| + 1 ==> Grown(before, after, to, to)
  {
    hide LevelLimit;
  }

  lemma CascadeOn(before: seq<seq<Sst>>, mid: seq<seq<Sst>>, after: seq<seq<Sst>>, to: nat, bottom: nat)
    requires 1 <= to < NUM_LEVELS - 1 && Pushed(before, mid, to - 1) && Cascaded(mid, after, to + 1, bottom)
    requires |mid[to]| >= LevelLimit(to)
    ensures Cascaded(before, after, to, bottom)
    ensures |mid[to]| <= |before[to]| + 1 && Grown(mid, after, to + 1, bottom) ==> Grown(before, after, to, bottom)
  {
    hide LevelLimit;
  }

  /** The levels after a compaction into level `to` that went on as far as `bottom`: each level on the way had
      reached its limit, and `bottom` is below its limit or the last level. */
  ghost predicate Cascaded(before: seq<seq<Sst>>, after: seq<seq<Sst>>, to: nat, bottom: nat) {
    && |before| == |after| == NUM_LEVELS && 1 <= to <= bottom < NUM_LEVELS && before[to - 1] != []
    && after[to - 1] == before[to - 1][1..]
    && (forall l :: 0 <= l < NUM_LEVELS && (l < to - 1 || l > bottom) ==> after[l] == before[l])
    && (forall l :: to <= l < bottom ==> |after[l]| + 1 >= LevelLimit(l))
    && (bottom < NUM_LEVELS - 1 ==> |after[bottom]| < LevelLimit(bottom))
  }

  /** Only the last level reached can have grown, and by one table. */
  ghost predicate Grown(before: seq<seq<Sst>>, after: seq<seq<Sst>>, to: nat, bottom: nat) {
    && |before| == |after| == NUM_LEVELS && to <= bottom < NUM_LEVELS
    && (forall l :: to <= l < bottom ==> |after[l]| <= |before[l]|)
    && |after[bottom]| <= |before[bottom]| + 1
  }

  lemma SixLevels(t: Tree)
    requires Inv(t)
    ensures |t.levels| == NUM_LEVELS
  {
  }

  lemma LeveledSized(t: Tree)
    requires |t.levels| == NUM_LEVELS && Leveled(t)
    ensures |t.levels[0]| <= 4 && (t.mut.cap <= t.sstCap ==> Sized(t, t.sstCap))
  {
  }

  lemma IntoLeveled(t: Tree, t': Tree, bottom: nat)
    requires |t.levels| == NUM_LEVELS && Leveled(t) && Cascaded(t.levels, t'.levels, 1, bottom)
    requires t'.mut == t.mut && t'.sstCap == t.sstCap
    requires Sized(t, t.sstCap) ==> Sized(t', t.sstCap) && Grown(t.levels, t'.levels, 1, bottom)
    ensures Leveled(t')
  {
    hide Sized;
    LevelLimits();
  }

  lemma MinorLeveled(t: Tree)
    requires Inv(t) && t.pending && Leveled(t) && |t.levels[0]| < 4 && Step(t, Minor).Stepped?
    ensures Leveled(Step(t, Minor).tree) && |Step(t, Minor).tree.levels[0]| == |t.levels[0]| + 1
    ensures Step(t, Minor).tree.levels[1..] == t.levels[1..]
  {
    if Sized(t, t.sstCap) { StepSized(t, Minor, t.sstCap); }
    MinorLevel(t);
  }

  lemma PutLeveled(t: Tree, k: Key, v: Value)
    requires Inv(t) && Leveled(t) && !AtCapacity(t.mut)
    ensures Leveled(PutStep(t, k, v).0) && PutStep(t, k, v).0.mut.size <= t.mut.cap
  {
  }

  lemma SameViewsNothing(t: Tree)
    ensures SameViews(t, t)
  {
  }

  lemma SameViewsTrans(t0: Tree, t1: Tree, t2: Tree)
    requires SameViews(t0, t1) && SameViews(t1, t2)
    ensures SameViews(t0, t2)
  {
    forall k ensures Latest(t2, k) == Latest(t0, k) && Durable(t2, k) == Durable(t0, k) {
      assert Latest(t1, k) == Latest(t0, k) && Durable(t1, k) == Durable(t0, k);
    }
  }

  lemma MajorEnabled(t: Tree, from: nat)
    requires Inv(t) && from < NUM_LEVELS - 1 && t.levels[from] != []
    ensures MajorReady(t, from)
  {
    forall l, i | 0 <= l < |t.levels| && 0 <= i < |t.levels[l]| ensures t.levels[l][i].records != [] {
      assert LevelOk(t.levels[l], t.master, t.nextId);
    }
  }

  /** A compacted immutable table answers like the top level does. */
  lemma ShadowRead(t: Tree, k: Key)
    requires Inv(t) && !t.pending && k !in t.mut.table && k in t.imm.table
    ensures Latest(t, k) == Some(Newest(t.imm.table[k]))
  {
    var top := t.levels[0];
    var s := top[|top| - 1];
    assert top == top[..|top| - 1] + [s];
    PartConcat(top[..|top| - 1], [s], k);
    PartCons(s, [], k);
    assert [s] + [] == [s];
    assert Part(top, k)[0] == One(s, k)[0];
    assert Column(t, k) == Part(top, k) + Span(t.levels, 1, |t.levels|, k);
  }

  lemma EmptySyncs(m: Mem, syncId: nat, junk: KeyRange)
    requires m.table == map[] && m.size == 0
    ensures MemInv(m)
    ensures MemSync(m, syncId, junk).0.size == 0
  {
    EmptyHasNoPairs();
  }

  lemma SameColumns(t: Tree, t': Tree)
    requires forall k :: Column(t', k) == Column(t, k)
    requires t'.master == t.master
    ensures SameViews(t, t') && Stepping(t, t', [], {})
  {
  }

  lemma PutAfter(t: Tree, k: Key, v: Value)
    requires Inv(t)
    ensures var (t', ds) := PutStep(t, k, v);
            Overwrites(t, t', k, v) && Stepping(t, t', ds, {Drop(k, v)})
  {
    var (t', ds) := PutStep(t, k, v);
    PutColumn(t, k, v);
    forall j | j != k ensures Latest(t', j) == Latest(t, j) && Durable(t', j) == Durable(t, j) {
      PutElsewhere(t, k, v, j);
    }
    forall j, w ensures LiveIn(t', j, w) + Drops(ds, j, w) == LiveIn(t, j, w) + (if Drop(j, w) in {Drop(k, v)} then 1 else 0) {
      PutLive(t, k, v, j, w);
    }
  }

  lemma OverwritesThen(t0: Tree, t1: Tree, t2: Tree, k: Key, v: Value)
    requires Overwrites(t0, t1, k, v) && SameViews(t1, t2)
    ensures Overwrites(t0, t2, k, v)
  {
    assert Latest(t2, k) == Latest(t1, k);
    forall j | j != k ensures Latest(t2, j) == Latest(t0, j) { assert Latest(t2, j) == Latest(t1, j); }
    forall j ensures Durable(t2, j) == Durable(t0, j) { assert Durable(t2, j) == Durable(t1, j); }
  }

  lemma SyncAfter(t: Tree, junk: KeyRange)
    requires Inv(t) && !t.pending
    ensures var (t', ds) := SyncStep(t, junk);
            Persists(t, t') && Stepping(t, t', ds, {})
  {
    var (t', ds) := SyncStep(t, junk);
    forall k ensures Latest(t', k) == Latest(t, k) && Durable(t', k) == Latest(t, k) { SyncColumns(t, junk, k); }
    forall k, v ensures LiveIn(t', k, v) + Drops(ds, k, v) == LiveIn(t, k, v) { SyncLive(t, junk, k, v); }
  }

  lemma PersistsAfter(t0: Tree, t1: Tree, t2: Tree)
    requires SameViews(t0, t1) && Persists(t1, t2)
    ensures Persists(t0, t2)
  {
    forall k ensures Latest(t2, k) == Latest(t0, k) && Durable(t2, k) == Latest(t0, k) {
      assert Latest(t1, k) == Latest(t0, k);
    }
  }
}
