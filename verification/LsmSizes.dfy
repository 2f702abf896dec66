/** How large tables get and how many a level holds. */
module LsmSizes {
  import opened Common
  import opened Arithmetic
  import opened Records
  import opened MemTables
  import opened Compaction
  import opened Levels
  import opened MajorCompaction
  import opened LsmTree
  import opened LsmInvariant

  // ---- The size of tables --------------------------------------------------------------------------

  ghost predicate LevelSized(level: seq<Sst>, n: nat) {
    forall s :: s in level ==> |s.records| <= n
  }

  ghost predicate Sized(t: Tree, n: nat) {
    && t.mut.size <= t.mut.cap <= n && t.imm.size <= t.imm.cap <= n && t.sstCap <= n
    && forall l :: 0 <= l < |t.levels| ==> LevelSized(t.levels[l], n)
  }

  lemma {:induction false} InsertSized(level: seq<Sst>, s: Sst, n: nat)
    requires LevelSized(level, n) && |s.records| <= n
    ensures LevelSized(InsertSst(level, s), n)
  {
    if level != [] && s.id > level[0].id {
      assert forall x :: x in level[1..] ==> x in level;
      InsertSized(level[1..], s, n);
    } else if level != [] {
      assert forall x :: x in level[1..] ==> x in level;
    }
  }

  lemma {:induction false} CreatedSized(rs: seq<Record>, cap: nat, syncId: int, nextId: int)
    requires cap > 0
    ensures LevelSized(Created(rs, cap, syncId, nextId), cap)
    decreases |rs|
  {
    if rs != [] {
      if |rs| <= cap {
        CreatedOne(rs, cap, syncId, nextId);
      } else {
        CreatedSplit(rs, cap, syncId, nextId);
        CreatedSized(rs[cap..], cap, syncId, nextId + 1);
      }
    }
  }

  lemma CompactedSized(lower: seq<Sst>, u: Sst, master: int, cap: nat, nextId: int, n: nat)
    requires u.records != [] && 0 < cap <= n && LevelSized(lower, n)
    requires forall i :: 0 <= i < |lower| ==> lower[i].records != []
    requires ArmsHandled(lower, u, master)
    ensures LevelSized(CompactedLevel(lower, u, master, cap, nextId), n)
  {
    hide Created, Merged, ArmsHandled;
    CreatedSized(Merged(lower, u, master), cap, master, nextId);
    assert forall x :: x in Others(lower, u) ==> x in lower;
  }

  lemma CookSize(table: map<Key, ValueEx>)
    ensures |Cook(table)| == |table|
  {
    SortedKeysLength(table.Keys);
  }

  lemma StepSized(t: Tree, op: Op, n: nat)
    requires Inv(t) && Sized(t, n) && Step(t, op).Stepped?
    ensures Sized(Step(t, op).tree, n)
  {
    match op
    case Put(k, v) =>
    case Sync(junk) => SyncKeepsInv(t.mut, t.master + 1, junk);
    case Switch(junk) =>
    case Minor =>
      CookSize(t.imm.table);
      InsertSized(t.levels[0], Sst(t.nextId, t.imm.syncId, Cook(t.imm.table)), n);
    case Major(from) => MajorSized(t, from, n);
  }

  lemma MajorSized(t: Tree, from: int, n: nat)
    requires Sized(t, n) && MajorReady(t, from) && !MajorPanics(t, from)
    ensures Sized(MajorStep(t, from).0, n)
  {
    var u, lower := t.levels[from][0], t.levels[from + 1];
    assert u in t.levels[from] && LevelSized(t.levels[from], n) && LevelSized(lower, n);
    assert forall x :: x in t.levels[from][1..] ==> x in t.levels[from];
    if Overlapped(lower, u) == [] {
      InsertSized(lower, u, n);
    } else {
      CompactedSized(lower, u, t.master, t.sstCap, t.nextId, n);
    }
  }

  /** In every run no table holds more records than a memtable or a compacted table may. */
  lemma {:induction false} RunSized(memCap: nat, sstCap: nat, ops: seq<Op>, n: nat)
    requires 0 < memCap <= n && 0 < sstCap <= n && Run(Format(memCap, sstCap), ops).Stepped?
    ensures Sized(Run(Format(memCap, sstCap), ops).tree, n)
  {
    if ops != [] {
      var init := ops[..|ops| - 1];
      RunSized(memCap, sstCap, init, n);
      RunKeeps(memCap, sstCap, init);
      StepSized(Run(Format(memCap, sstCap), init).tree, ops[|ops| - 1], n);
    }
  }

  // ---- The number of tables ----------------------------------------------------------------------------

  const LEVEL0_RATIO := 4
  const LEVELI_RATIO := 10

  /** How many tables make a level overfull. */
  function LevelLimit(l: nat): (r: nat)
    ensures r > 0
  {
    if l == 0 then 1 else LEVELI_RATIO * LevelLimit(l - 1)
  }

  lemma LevelLimits()
    ensures LevelLimit(1) == 10 && LevelLimit(2) == 100 && LevelLimit(3) == 1000 && LevelLimit(4) == 10000
  {
    assert LevelLimit(2) == 10 * LevelLimit(1) && LevelLimit(4) == 10 * LevelLimit(3);
  }

  /** Between operations level 0 holds at most four tables, and when the tables of a memtable are no larger than
      compacted ones, as in the source, each lower level but the last less than ten times the one above. */
  ghost predicate Leveled(t: Tree)
    requires |t.levels| == NUM_LEVELS
  {
    && |t.levels[0]| <= 4
    && (t.mut.cap <= t.sstCap ==>
          && Sized(t, t.sstCap)
          && |t.levels[1]| < 10 && |t.levels[2]| < 100 && |t.levels[3]| < 1000 && |t.levels[4]| < 10000)
  }

  lemma {:induction false} MergeLength(upper: seq<Record>, lower: seq<Record>, i: nat, j: nat)
    requires i <= |upper| && j <= |lower| && Mergeable(upper, lower)
    ensures |MergeFrom(upper, lower, i, j)| <= |upper| - i + |lower| - j
    decreases |upper| - i + |lower| - j
  {
    if !Done(upper, lower, i, j) {
      if TakeUpper(upper, lower, i, j) {
        MergeLength(upper, lower, i + 1, j);
      } else if TakeLower(upper, lower, i, j) {
        MergeLength(upper, lower, i, j + 1);
      } else {
        MergeLength(upper, lower, i + 1, j + 1);
      }
    }
  }

  lemma {:induction false} StreamLength(ts: seq<Sst>, master: int, n: nat)
    requires LevelSized(ts, n)
    ensures |Stream(ts, master)| <= |ts| * n
  {
    if ts != [] {
      assert ts[0] in ts && forall x :: x in ts[1..] ==> x in ts;
      StreamLength(ts[1..], master, n);
      assert |ts| * n == (|ts| - 1) * n + n;
    }
  }

  lemma {:induction false} ChunksLength(rs: seq<Record>, cap: nat, n: nat)
    requires cap > 0 && |rs| <= n * cap
    ensures |Chunks(rs, cap)| <= n
    decreases |rs|
  {
    if |rs| > cap && n > 0 {
      assert n * cap == (n - 1) * cap + cap;
      ChunksLength(rs[cap..], cap, n - 1);
    }
  }

  lemma {:induction false} TablesLength(cs: seq<seq<Record>>, syncId: int, nextId: int)
    ensures |Tables(cs, syncId, nextId)| == |cs|
  {
    if cs != [] { TablesLength(cs[1..], syncId, nextId + 1); }
  }

  lemma {:induction false} SplitLength(level: seq<Sst>, u: Sst)
    requires u.records != [] && forall i :: 0 <= i < |level| ==> level[i].records != []
    ensures |Others(level, u)| + |Overlapped(level, u)| == |level|
  {
    if level != [] { SplitLength(level[1..], u); }
  }

  lemma {:induction false} InsertedLength(ts: seq<Sst>, s: Sst)
    requires s.records != [] && forall i :: 0 <= i < |ts| ==> ts[i].records != []
    ensures |InsertByFirst(ts, s)| == |ts| + 1
  {
    if ts != [] && First(s) > First(ts[0]) { InsertedLength(ts[1..], s); }
  }

  lemma {:induction false} SortedLength(ts: seq<Sst>)
    requires forall i :: 0 <= i < |ts| ==> ts[i].records != []
    ensures |SortByFirst(ts)| == |ts|
  {
    if ts != [] {
      SortedLength(ts[1..]);
      InsertedLength(SortByFirst(ts[1..]), ts[0]);
    }
  }

  /** A merging compaction adds at most one table to the lower level. */
  lemma CompactedLength(lower: seq<Sst>, u: Sst, master: int, cap: nat, nextId: int)
    requires u.records != [] && 0 < cap && |u.records| <= cap && LevelSized(lower, cap)
    requires forall i :: 0 <= i < |lower| ==> lower[i].records != []
    requires ArmsHandled(lower, u, master)
    ensures |CompactedLevel(lower, u, master, cap, nextId)| <= |lower| + 1
  {
    hide Chunks, MergeFrom, Tables, Stream, Others, Overlapped, SortByFirst, Scan;
    var ov, ts := Overlapped(lower, u), LowerTables(lower, u);
    SplitLength(lower, u);
    SortedLength(ov);
    forall x | x in ts ensures |x.records| <= cap { SortByFirstMembers(ov, x); }
    StreamLength(ts, master, cap);
    MergeLength(UpperStream(u, master), Stream(ts, master), 0, 0);
    assert (|ov| + 1) * cap == |ov| * cap + cap;
    var rs := Merged(lower, u, master);
    ChunksLength(rs, cap, |ov| + 1);
    TablesLength(Chunks(rs, cap), master, nextId);
  }

  lemma {:induction false} InsertLength(level: seq<Sst>, s: Sst)
    requires forall i :: 0 <= i < |level| ==> level[i].id != s.id
    ensures |InsertSst(level, s)| == |level| + 1 && s in InsertSst(level, s)
    ensures forall x :: x in level ==> x in InsertSst(level, s)
  {
    if level != [] && s.id > level[0].id { InsertLength(level[1..], s); }
  }

  lemma {:induction false} OthersStay(level: seq<Sst>, u: Sst, s: Sst)
    requires u.records != [] && (forall i :: 0 <= i < |level| ==> level[i].records != [])
    requires s in level && s.records != [] && !Overlaps(s, u)
    ensures s in Others(level, u)
  {
    if level[0] != s { OthersStay(level[1..], u, s); }
  }

  /** What a major compaction does to the levels. */
  ghost predicate Pushed(before: seq<seq<Sst>>, after: seq<seq<Sst>>, from: nat) {
    && |before| == |after| == NUM_LEVELS && from < NUM_LEVELS - 1 && before[from] != []
    && after[from] == before[from][1..]
    && (forall l :: 0 <= l < NUM_LEVELS && l != from && l != from + 1 ==> after[l] == before[l])
  }

  predicate Meets(s: Sst, u: Sst) {
    s.records != [] && u.records != [] && Overlaps(s, u)
  }

  /** Tables of the lower level that the table pushed down does not meet stay. */
  ghost predicate Stays(before: seq<seq<Sst>>, after: seq<seq<Sst>>, from: nat)
    requires |before| == |after| == NUM_LEVELS && from < NUM_LEVELS - 1 && before[from] != []
  {
    forall s :: s in before[from + 1] && !Meets(s, before[from][0]) ==> s in after[from + 1]
  }

  lemma MajorCounts(t: Tree, from: nat)
    requires Inv(t) && MajorReady(t, from) && !MajorPanics(t, from)
    ensures var t' := MajorStep(t, from).0;
            && Pushed(t.levels, t'.levels, from)
            && Stays(t.levels, t'.levels, from)
            && (Overlapped(t.levels[from + 1], t.levels[from][0]) == [] ==> t.levels[from][0] in t'.levels[from + 1])
            && (Sized(t, t.sstCap) ==> |t'.levels[from + 1]| <= |t.levels[from + 1]| + 1)
  {
    var u, lower := t.levels[from][0], t.levels[from + 1];
    if Overlapped(lower, u) == [] {
      assert IdsApart(t.levels[from], lower);
      InsertLength(lower, u);
    } else {
      forall s | s in lower && !Meets(s, u) ensures s in Others(lower, u) { OthersStay(lower, u, s); }
      if Sized(t, t.sstCap) {
        assert u in t.levels[from] && LevelSized(t.levels[from], t.sstCap) && LevelSized(lower, t.sstCap);
        CompactedLength(lower, u, t.master, t.sstCap, t.nextId);
      }
    }
  }
}
