/** Runs of the tree and the bytes of its tables: which of them can be opened again and which the builder can
    write. */
module LsmBytes {
  import opened Common
  import opened Records
  import opened MemTables
  import opened Compaction
  import opened Levels
  import opened MajorCompaction
  import opened Columns
  import opened LsmTree
  import opened LsmInvariant
  import opened LsmSizes
  import opened SsTables
  import opened SstFooters

  // ---- Opening tables again ---------------------------------------------------------------------------

  ghost predicate InTree(t: Tree, s: Sst) {
    exists l :: 0 <= l < |t.levels| && s in t.levels[l]
  }

  /** With the disk's capacities and value size, every table of every run can be opened again. */
  lemma RunCountsFit(c: Codec, memCap: nat, sstCap: nat, ops: seq<Op>, s: Sst)
    requires c.kSize == 8 && c.vSize == 40
    requires 0 < memCap <= SSTABLE_CAPACITY && 0 < sstCap <= SSTABLE_CAPACITY && Run(Format(memCap, sstCap), ops).Stepped?
    requires InTree(Run(Format(memCap, sstCap), ops).tree, s)
    ensures s.records != [] && Sorted(s.records) && CountsFit(c, s.records)
  {
    hide CountsFit;
    var t := Run(Format(memCap, sstCap), ops).tree;
    RunSized(memCap, sstCap, ops, SSTABLE_CAPACITY);
    RunKeeps(memCap, sstCap, ops);
    var l :| 0 <= l < |t.levels| && s in t.levels[l];
    assert LevelSized(t.levels[l], SSTABLE_CAPACITY) && LevelOk(t.levels[l], t.master, t.nextId);
    DiskCountsFit(c, s.records);
  }

  // ---- Tables the builder can write ------------------------------------------------------------------

  /** The builder's count overruns no block of any table. */
  ghost predicate Buildable(c: Codec, t: Tree) {
    forall s :: InTree(t, s) ==> NoOverrun(c, s.records, 0, 0)
  }

  lemma {:induction false} InPart(level: seq<Sst>, s: Sst, k: Key)
    requires s in level && Lookup(s.records, k).Some?
    ensures Entry(Lookup(s.records, k).value, s.syncId) in Part(level, k)
  {
    if level[0] == s {
      assert One(s, k)[0] in One(s, k);
    } else {
      InPart(level[1..], s, k);
    }
  }

  lemma {:induction false} InSpan(levels: seq<seq<Sst>>, i: nat, l: nat, e: Entry, k: Key)
    requires i <= l < |levels| && e in Part(levels[l], k)
    ensures e in Span(levels, i, |levels|, k)
    decreases l - i
  {
    if i < l { InSpan(levels, i + 1, l, e, k); }
  }

  lemma {:induction false} SyncedWithin(col: seq<Entry>, e: Entry, master: int)
    requires e in col && e.v.SyncedAndUnsynced?
    ensures SyncedOf(col, master).Some?
  {
    if col[0] != e { SyncedWithin(col[1..], e, master); }
  }

  /** In every run a record with two values has a key that was put before a sync. */
  lemma TwoValuesSynced(memCap: nat, sstCap: nat, ops: seq<Op>, s: Sst, i: nat)
    requires memCap > 0 && sstCap > 0 && Run(Format(memCap, sstCap), ops).Stepped?
    requires InTree(Run(Format(memCap, sstCap), ops).tree, s) && i < |s.records| && s.records[i].value.SyncedAndUnsynced?
    ensures LastSynced(ops, s.records[i].key).Some?
  {
    var t, k := Run(Format(memCap, sstCap), ops).tree, s.records[i].key;
    RunKeeps(memCap, sstCap, ops);
    RunViews(memCap, sstCap, ops, k);
    var l :| 0 <= l < |t.levels| && s in t.levels[l];
    assert LevelOk(t.levels[l], t.master, t.nextId);
    LookupAt(s.records, i);
    var e := Entry(s.records[i].value, s.syncId);
    InPart(t.levels[l], s, k);
    InSpan(t.levels, 0, l, e, k);
    assert e in Column(t, k);
    SyncedWithin(Column(t, k), e, t.master);
  }

  /** Without a sync, every table of a run can be built. */
  lemma NoSyncBuilds(c: Codec, memCap: nat, sstCap: nat, ops: seq<Op>)
    requires Lossless(c) && memCap > 0 && sstCap > 0 && Run(Format(memCap, sstCap), ops).Stepped?
    requires forall i :: 0 <= i < |ops| ==> !ops[i].Sync?
    ensures Buildable(c, Run(Format(memCap, sstCap), ops).tree)
  {
    hide Run, NoOverrun, InTree, Lossless;
    forall s | InTree(Run(Format(memCap, sstCap), ops).tree, s) ensures NoOverrun(c, s.records, 0, 0) {
      forall i | 0 <= i < |s.records| ensures !s.records[i].value.SyncedAndUnsynced? {
        if s.records[i].value.SyncedAndUnsynced? {
          TwoValuesSynced(memCap, sstCap, ops, s, i);
          NeverSynced(ops, s.records[i].key);
        }
      }
      SinglesFit(c, s.records);
    }
  }

  lemma {:induction false} NeverSynced(ops: seq<Op>, k: Key)
    requires forall i :: 0 <= i < |ops| ==> !ops[i].Sync?
    ensures LastSynced(ops, k) == None
  {
    if ops != [] { NeverSynced(ops[..|ops| - 1], k); }
  }

  // ---- A run whose table the builder cannot write ----------------------------------------------------

  /** Puts the keys 0 to 2673, syncs, puts key 2673 again and goes on with new keys up to `n`. */
  function Puts(n: nat, v: Value, junk: KeyRange): seq<Op> {
    if n == 0 then []
    else if n == 2674 then Puts(n - 1, v, junk) + [Put(n - 1, v)] + [Sync(junk)] + [Put(n - 1, v)]
    else Puts(n - 1, v, junk) + [Put(n - 1, v)]
  }

  /** The tree after `Puts`. */
  ghost predicate Filled(t: Tree, n: nat, memCap: nat) {
    && (forall k :: k in t.mut.table <==> 0 <= k < n)
    && (forall k :: 0 <= k < n ==> (t.mut.table[k].SyncedAndUnsynced? <==> k == 2673))
    && t.mut.size == (if n < 2674 then n else n + 1) && t.mut.cap == memCap
    && (n < 2674 ==> t.mut.unsynced.None?)
    && !t.pending && t.master >= 0 && t.mut.syncId == t.master && t.levels == [[], [], [], [], [], []]
  }

  lemma RunNext(t: Tree, ops: seq<Op>, op: Op)
    requires Run(t, ops).Stepped?
    ensures var r := Step(Run(t, ops).tree, op);
            if r.Stepped? then Run(t, ops + [op]).Stepped? && Run(t, ops + [op]).tree == r.tree
            else Run(t, ops + [op]) == r
  {
    assert (ops + [op])[..|ops|] == ops;
  }

  lemma FilledNext(t: Tree, n: nat, memCap: nat, v: Value)
    requires Filled(t, n, memCap) && n != 2673 && t.mut.size < memCap
    ensures Step(t, Put(n, v)).Stepped? && Filled(Step(t, Put(n, v)).tree, n + 1, memCap)
  {
  }

  /** Key 2673 gets two values. */
  lemma FilledPair(t: Tree, memCap: nat, v: Value, junk: KeyRange)
    requires Filled(t, 2673, memCap) && memCap > 2674 && MemInv(t.mut)
    ensures var t1 := PutStep(t, 2673, v).0;
            var t2 := SyncStep(t1, junk).0;
            && Step(t, Put(2673, v)) == Stepped(t1, []) && Step(t1, Sync(junk)).Stepped? && Step(t1, Sync(junk)).tree == t2
            && Step(t2, Put(2673, v)).Stepped? && Filled(Step(t2, Put(2673, v)).tree, 2674, memCap)
  {
    var t1 := PutStep(t, 2673, v).0;
    PutKeepsInv(t.mut, 2673, v);
    assert forall k :: k in t1.mut.table ==> k == 2673 || t1.mut.table[k] == t.mut.table[k];
    assert forall k :: k in t1.mut.table ==> !t1.mut.table[k].SyncedAndUnsynced?;
    assert Pairs(t1.mut.table) == {};
  }

  lemma {:induction false} RunFilled(memCap: nat, sstCap: nat, n: nat, v: Value, junk: KeyRange)
    requires sstCap > 0 && 2674 < memCap && n < memCap
    ensures Run(Format(memCap, sstCap), Puts(n, v, junk)).Stepped?
    ensures Filled(Run(Format(memCap, sstCap), Puts(n, v, junk)).tree, n, memCap)
  {
    hide Filled, Step;
    if n == 0 {
      FilledNone(memCap, sstCap);
    } else {
      var f, ops := Format(memCap, sstCap), Puts(n - 1, v, junk);
      RunFilled(memCap, sstCap, n - 1, v, junk);
      RunNext(f, ops, Put(n - 1, v));
      var t := Run(f, ops).tree;
      if n == 2674 {
        RunKeeps(memCap, sstCap, ops);
        FilledPair(t, memCap, v, junk);
        RunNext(f, ops + [Put(n - 1, v)], Sync(junk));
        RunNext(f, ops + [Put(n - 1, v)] + [Sync(junk)], Put(n - 1, v));
      } else {
        FilledSize(t, n - 1, memCap);
        FilledNext(t, n - 1, memCap, v);
      }
    }
  }

  lemma FilledNone(memCap: nat, sstCap: nat)
    ensures Filled(Format(memCap, sstCap), 0, memCap)
  {
  }

  lemma FilledSize(t: Tree, n: nat, memCap: nat)
    requires Filled(t, n, memCap) && n < memCap - 1
    ensures t.mut.size < memCap
  {
  }

  /** The sorted keys 0 to `m` - 1. */
  lemma {:induction false} KeysUpTo(keys: set<Key>, m: nat, i: nat)
    requires (forall k :: k in keys <==> 0 <= k < m) && i <= m
    ensures |SortedKeys(keys)| >= i && forall j :: 0 <= j < i ==> SortedKeys(keys)[j] == j
  {
    if i > 0 {
      KeysUpTo(keys, m, i - 1);
      SortedKeysComplete(keys, i - 1);
      var ks := SortedKeys(keys);
      var j :| 0 <= j < |ks| && ks[j] == i - 1;
      assert j >= i - 1 && ks[i - 1] <= ks[j] && ks[i - 1] >= 0;
      assert i > 1 ==> ks[i - 2] == i - 2 && ks[i - 2] < ks[i - 1];
    }
  }

  /** A minor compaction of such a memtable overruns a block. */
  lemma FilledOverruns(c: Codec, t: Tree, memCap: nat, junk: KeyRange)
    requires c.kSize == 8 && c.vSize == 40 && memCap > 2674 && Filled(t, memCap - 1, memCap)
    ensures var t1 := SwitchStep(t, junk);
            && Step(t, Switch(junk)) == Stepped(t1, []) && Step(t1, Minor) == Stepped(MinorStep(t1), [])
            && !Buildable(c, MinorStep(t1))
  {
    hide NoOverrun, Cook;
    var t1 := SwitchStep(t, junk);
    var s := Sst(t1.nextId, t1.imm.syncId, Cook(t1.imm.table));
    var t2 := MinorStep(t1);
    assert 0 in t.mut.table;
    assert t2.levels[0] == [s] && s in t2.levels[0];
    assert InTree(t2, s);
    CookedKeys(t.mut.table, memCap - 1);
    OverrunReachable(c, s.records);
  }

  lemma CookedKeys(table: map<Key, ValueEx>, m: nat)
    requires forall k :: k in table <==> 0 <= k < m
    ensures |Cook(table)| >= m && forall j :: 0 <= j < m ==> Cook(table)[j] == Record(j, table[j])
  {
    KeysUpTo(table.Keys, m, m);
  }

  /** With the disk's value size and any memtable of at least 2675 values, there is a run whose minor
      compaction asks the builder for a table it cannot write. */
  lemma OverrunRun(c: Codec, memCap: nat, sstCap: nat, v: Value, junk: KeyRange)
    requires c.kSize == 8 && c.vSize == 40 && memCap > 2674 && sstCap > 0
    ensures var r := Run(Format(memCap, sstCap), Puts(memCap - 1, v, junk) + [Switch(junk)] + [Minor]);
            r.Stepped? && !Buildable(c, r.tree)
  {
    hide Filled, Step, Buildable, MinorStep, SwitchStep;
    var f, ops := Format(memCap, sstCap), Puts(memCap - 1, v, junk);
    RunFilled(memCap, sstCap, memCap - 1, v, junk);
    FilledOverruns(c, Run(f, ops).tree, memCap, junk);
    RunNext(f, ops, Switch(junk));
    RunNext(f, ops + [Switch(junk)], Minor);
  }
}
