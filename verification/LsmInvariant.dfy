/** Every step of the tree keeps its invariant, acts on the latest and synced views of each key as
    it should, and accounts for every value. */
module LsmInvariant {
  import opened Common
  import opened Records
  import opened MemTables
  import opened Compaction
  import opened Levels
  import opened MajorCompaction
  import opened Columns
  import opened LsmTree

  ghost function Latest(t: Tree, k: Key): Option<Value> {
    LatestOf(Column(t, k))
  }

  ghost function Durable(t: Tree, k: Key): Option<Value> {
    SyncedOf(Column(t, k), t.master)
  }

  ghost function LiveIn(t: Tree, k: Key, v: Value): nat {
    Live(Column(t, k), v)
  }

  // ---- What an operation may do --------------------------------------------------------------------

  /** Every value held before is held or dropped afterwards, and the new value comes on top. */
  ghost predicate Stepping(t: Tree, t': Tree, ds: seq<Drop>, added: set<Drop>) {
    forall k, v :: LiveIn(t', k, v) + Drops(ds, k, v) == LiveIn(t, k, v) + (if Drop(k, v) in added then 1 else 0)
  }

  /** Both views of every key are as before. */
  ghost predicate SameViews(t: Tree, t': Tree) {
    forall k :: Latest(t', k) == Latest(t, k) && Durable(t', k) == Durable(t, k)
  }

  /** A put changes the latest view of its key only. */
  ghost predicate Overwrites(t: Tree, t': Tree, k: Key, v: Value) {
    && Latest(t', k) == Some(v)
    && (forall j :: j != k ==> Latest(t', j) == Latest(t, j))
    && (forall j :: Durable(t', j) == Durable(t, j))
  }

  /** A sync makes the latest view durable. */
  ghost predicate Persists(t: Tree, t': Tree) {
    forall k :: Latest(t', k) == Latest(t, k) && Durable(t', k) == Latest(t, k)
  }

  // ---- Put -----------------------------------------------------------------------------------------

  /** The column of a key without its mutable entry. */
  ghost function Under(t: Tree, k: Key): seq<Entry> {
    (if t.pending then MemPart(t.imm, k) else []) + Span(t.levels, 0, |t.levels|, k)
  }

  lemma ColumnTop(t: Tree, k: Key)
    ensures Column(t, k) == MemPart(t.mut, k) + Under(t, k)
  {
  }

  lemma PutColumn(t: Tree, k: Key, v: Value)
    requires t.mut.syncId == t.master && SyncOrdered(Column(t, k), t.master)
    ensures var t' := PutStep(t, k, v).0;
            && SyncOrdered(Column(t', k), t.master)
            && Latest(t', k) == Some(v)
            && Durable(t', k) == Durable(t, k)
  {
    var t' := PutStep(t, k, v).0;
    ColumnTop(t, k);
    ColumnTop(t', k);
    var rest := Under(t, k);
    if k in t.mut.table {
      PutOld(t.mut.table[k], rest, v, t.master);
    } else {
      assert [] + rest == rest;
      PutNew(rest, v, t.master);
    }
  }

  lemma PutElsewhere(t: Tree, k: Key, v: Value, j: Key)
    requires j != k
    ensures Column(PutStep(t, k, v).0, j) == Column(t, j)
  {
  }

  lemma PutInv(t: Tree, k: Key, v: Value)
    requires Inv(t)
    ensures Inv(PutStep(t, k, v).0)
  {
    var t' := PutStep(t, k, v).0;
    PutKeepsInv(t.mut, k, v);
    forall j ensures SyncOrdered(Column(t', j), t'.master) {
      if j == k { PutColumn(t, k, v); } else { PutElsewhere(t, k, v, j); }
    }
  }

  lemma PutLive(t: Tree, k: Key, w: Value, j: Key, v: Value)
    ensures var (t', ds) := PutStep(t, k, w);
            LiveIn(t', j, v) + Drops(ds, j, v) == LiveIn(t, j, v) + (if k == j && w == v then 1 else 0)
  {
    var (t', ds) := PutStep(t, k, w);
    OptionDrops(k, MemPut(t.mut, k, w).1, j, v);
    if j != k {
      PutElsewhere(t, k, w, j);
    } else {
      ColumnTop(t, k);
      ColumnTop(t', k);
      LiveConcat(MemPart(t.mut, k), Under(t, k), v);
      LiveConcat(MemPart(t'.mut, k), Under(t, k), v);
      if k in t.mut.table { PutValueConserves(t.mut.table[k], w, v); }
      LiveMem(t.mut, k, v);
      LiveMem(t'.mut, k, v);
    }
  }

  lemma LiveMem(m: Mem, k: Key, v: Value)
    ensures Live(MemPart(m, k), v) == if k in m.table then Uses(m.table[k], v) else 0
  {
  }

  // ---- Sync ----------------------------------------------------------------------------------------

  lemma {:induction false} PartSyncIds(level: seq<Sst>, master: int, k: Key)
    requires forall i :: 0 <= i < |level| ==> level[i].syncId <= master
    ensures forall i :: 0 <= i < |Part(level, k)| ==> Part(level, k)[i].syncId <= master
  {
    if level != [] { PartSyncIds(level[1..], master, k); }
  }

  lemma {:induction false} SpanSyncIds(levels: seq<seq<Sst>>, i: int, j: int, master: int, k: Key)
    requires 0 <= i <= j <= |levels|
    requires forall l, n :: i <= l < j && 0 <= n < |levels[l]| ==> levels[l][n].syncId <= master
    ensures forall n :: 0 <= n < |Span(levels, i, j, k)| ==> Span(levels, i, j, k)[n].syncId <= master
    decreases j - i
  {
    if i < j {
      PartSyncIds(levels[i], master, k);
      SpanSyncIds(levels, i + 1, j, master, k);
    }
  }

  /** All entries come from components older than `master`. */
  ghost predicate OlderThan(es: seq<Entry>, master: int) {
    forall i :: 0 <= i < |es| ==> es[i].syncId < master
  }

  lemma SyncedTop(top: seq<Entry>, span: seq<Entry>, master: int)
    requires forall i :: 0 <= i < |top| ==> top[i].v.Synced?
    requires OlderThan(span, master)
    ensures SyncOrdered(top + span, master)
    ensures SyncedOf(top + span, master) == LatestOf(top + span)
  {
    SyncColumn(top + span, master);
  }

  lemma LevelSyncIds(t: Tree, k: Key)
    requires LevelsInv(t.levels, t.master, t.nextId)
    ensures OlderThan(Span(t.levels, 0, |t.levels|, k), t.master + 1)
  {
    forall l, n | 0 <= l < |t.levels| && 0 <= n < |t.levels[l]| ensures t.levels[l][n].syncId <= t.master {
      assert LevelOk(t.levels[l], t.master, t.nextId);
    }
    SpanSyncIds(t.levels, 0, |t.levels|, t.master, k);
  }

  lemma SyncedMem(m: Mem, syncId: nat, junk: KeyRange, k: Key)
    requires m.syncId != syncId
    ensures MemPart(MemSync(m, syncId, junk).0, k) ==
            if k in m.table then [Entry(Synced(Newest(m.table[k])), syncId)] else []
  {
  }

  lemma SyncColumns(t: Tree, junk: KeyRange, k: Key)
    requires LevelsInv(t.levels, t.master, t.nextId) && t.mut.syncId == t.master >= 0 && !t.pending
    ensures var t' := SyncStep(t, junk).0;
            && SyncOrdered(Column(t', k), t'.master)
            && Latest(t', k) == Latest(t, k)
            && Durable(t', k) == Latest(t, k)
  {
    hide LevelsInv, SyncOrdered, OlderThan, Span, SyncedOf;
    var t' := SyncStep(t, junk).0;
    LevelSyncIds(t, k);
    SyncedMem(t.mut, t.master + 1, junk, k);
    var span := Span(t.levels, 0, |t.levels|, k);
    assert Column(t, k) == MemPart(t.mut, k) + span;
    assert Column(t', k) == MemPart(t'.mut, k) + span;
    SyncedTop(MemPart(t'.mut, k), span, t'.master);
  }

  lemma SyncInv(t: Tree, junk: KeyRange)
    requires Inv(t) && !t.pending
    ensures Inv(SyncStep(t, junk).0)
  {
    var t' := SyncStep(t, junk).0;
    SyncKeepsInv(t.mut, t.master + 1, junk);
    forall k ensures SyncOrdered(Column(t', k), t'.master) { SyncColumns(t, junk, k); }
    LaterLevels(t.levels, t.master, t.nextId, t.master + 1, t.nextId);
  }

  lemma LaterLevels(levels: seq<seq<Sst>>, master: int, nextId: int, master': int, nextId': int)
    requires LevelsInv(levels, master, nextId) && master <= master' && nextId <= nextId'
    ensures LevelsInv(levels, master', nextId')
  {
    forall l | 0 <= l < |levels| ensures LevelOk(levels[l], master', nextId') {
      assert LevelOk(levels[l], master, nextId);
    }
  }

  lemma SyncLive(t: Tree, junk: KeyRange, k: Key, v: Value)
    requires t.master >= 0
    ensures var (t', ds) := SyncStep(t, junk);
            LiveIn(t', k, v) + Drops(ds, k, v) == LiveIn(t, k, v)
  {
    var (t', ds) := SyncStep(t, junk);
    SyncConserves(t.mut, t.master + 1, junk, k, v);
    ColumnTop(t, k);
    ColumnTop(t', k);
    LiveConcat(MemPart(t.mut, k), Under(t, k), v);
    LiveConcat(MemPart(t'.mut, k), Under(t, k), v);
    LiveMem(t.mut, k, v);
    LiveMem(t'.mut, k, v);
  }

  // ---- Switch --------------------------------------------------------------------------------------

  lemma SwitchColumn(t: Tree, junk: KeyRange, k: Key)
    requires !t.pending
    ensures Column(SwitchStep(t, junk), k) == Column(t, k)
  {
  }

  lemma ClearedInv(m: Mem, syncId: nat, junk: KeyRange)
    ensures MemInv(MemSync(Cleared(m), syncId, junk).0)
    ensures MemSync(Cleared(m), syncId, junk).0.table == map[]
    ensures MemSync(Cleared(m), syncId, junk).0.syncId == syncId
    ensures MemSync(Cleared(m), syncId, junk).0.cap == m.cap
  {
    assert Pairs(map[]) == {};
    assert MemInv(Cleared(m));
    SyncKeepsInv(Cleared(m), syncId, junk);
  }

  lemma SwitchInv(t: Tree, junk: KeyRange)
    requires Inv(t) && !t.pending && AtCapacity(t.mut)
    ensures Inv(SwitchStep(t, junk))
  {
    var t' := SwitchStep(t, junk);
    ClearedInv(t.imm, t.mut.syncId, junk);
    forall k ensures SyncOrdered(Column(t', k), t'.master) { SwitchColumn(t, junk, k); }
  }

  // ---- Minor compaction ----------------------------------------------------------------------------

  lemma CookLookup(table: map<Key, ValueEx>, k: Key)
    ensures Lookup(Cook(table), k) == if k in table then Some(table[k]) else None
  {
    var ks := SortedKeys(table.Keys);
    LookupMember(Cook(table), k);
    if k in table {
      SortedKeysComplete(table.Keys, k);
      var i :| 0 <= i < |ks| && ks[i] == k;
      assert Cook(table)[i].key == k;
    }
  }

  lemma CookNonempty(table: map<Key, ValueEx>)
    requires table != map[]
    ensures Cook(table) != []
  {
    MapEmptyOrInhabited(table);
    var k :| k in table;
    SortedKeysComplete(table.Keys, k);
  }

  lemma EmptyHasNoPairs()
    ensures |Pairs(map[])| == 0
  {
    assert Pairs(map[]) == {};
  }

  /** A pending immutable table is at capacity, so the table it becomes is never empty. */
  lemma PendingNonempty(t: Tree)
    requires MemsInv(t) && t.pending
    ensures t.imm.table != map[]
  {
    EmptyHasNoPairs();
  }

  ghost function NewSst(t: Tree): Sst {
    Sst(t.nextId, t.imm.syncId, Cook(t.imm.table))
  }

  lemma MinorLevel(t: Tree)
    requires LevelsInv(t.levels, t.master, t.nextId)
    ensures MinorStep(t).levels[0] == t.levels[0] + [NewSst(t)]
  {
    assert LevelOk(t.levels[0], t.master, t.nextId);
    InsertLast(t.levels[0], NewSst(t));
  }

  lemma MinorColumn(t: Tree, k: Key)
    requires LevelsInv(t.levels, t.master, t.nextId) && t.pending
    ensures Column(MinorStep(t), k) == Column(t, k)
  {
    var t' := MinorStep(t);
    MinorLevel(t);
    CookLookup(t.imm.table, k);
    PartConcat(t.levels[0], [NewSst(t)], k);
    PartCons(NewSst(t), [], k);
    assert [NewSst(t)] + [] == [NewSst(t)];
    SpanSame(t.levels, t'.levels, 1, |t.levels|, k);
    var rest := Span(t.levels, 1, |t.levels|, k);
    assert Span(t.levels, 0, |t.levels|, k) == Part(t.levels[0], k) + rest;
    assert Span(t'.levels, 0, |t.levels|, k) == (MemPart(t.imm, k) + Part(t.levels[0], k)) + rest;
    RegroupMinor(MemPart(t.mut, k), MemPart(t.imm, k), Part(t.levels[0], k), rest);
  }

  lemma RegroupMinor(a: seq<Entry>, b: seq<Entry>, c: seq<Entry>, d: seq<Entry>)
    ensures (a + b) + (c + d) == (a + []) + ((b + c) + d)
  {
  }

  lemma MinorLevelsInv(t: Tree)
    requires LevelsInv(t.levels, t.master, t.nextId) && t.imm.syncId <= t.master && t.imm.table != map[]
    ensures LevelsInv(MinorStep(t).levels, t.master, t.nextId + 1)
  {
    var t' := MinorStep(t);
    MinorLevel(t);
    CookNonempty(t.imm.table);
    LaterLevels(t.levels, t.master, t.nextId, t.master, t.nextId + 1);
    forall l | 0 <= l < |t.levels| ensures LevelOk(t'.levels[l], t.master, t.nextId + 1) {
      assert LevelOk(t.levels[l], t.master, t.nextId);
    }
    forall m | 0 < m < |t.levels| ensures IdsApart(t'.levels[0], t'.levels[m]) {
      assert IdsApart(t.levels[0], t.levels[m]) && LevelOk(t.levels[m], t.master, t.nextId);
    }
    forall l, m | 0 < l < m < |t.levels| ensures IdsApart(t'.levels[l], t'.levels[m]) {
      assert IdsApart(t.levels[l], t.levels[m]);
    }
  }

  lemma MinorInv(t: Tree)
    requires Inv(t) && t.pending
    ensures Inv(MinorStep(t))
  {
    var t' := MinorStep(t);
    PendingNonempty(t);
    MinorLevelsInv(t);
    MinorLevel(t);
    forall k | k in t'.imm.table
      ensures Lookup(t'.levels[0][|t'.levels[0]| - 1].records, k) == Some(t'.imm.table[k])
    {
      CookLookup(t.imm.table, k);
    }
    forall k ensures SyncOrdered(Column(t', k), t'.master) { MinorColumn(t, k); }
  }

  // ---- Major compaction ----------------------------------------------------------------------------

  /** Everything newer than the upper table. */
  ghost function Newer(t: Tree, from: int, k: Key): seq<Entry>
    requires MajorReady(t, from)
  {
    MemParts(t, k) + Span(t.levels, 0, from, k) + Part(t.levels[from][1..], k)
  }

  ghost function Older(t: Tree, from: int, k: Key): seq<Entry>
    requires MajorReady(t, from)
  {
    Span(t.levels, from + 2, |t.levels|, k)
  }

  lemma ColumnAround(t: Tree, from: int, k: Key)
    requires MajorReady(t, from)
    ensures Column(t, k) ==
            Newer(t, from, k) + One(t.levels[from][0], k) + Part(t.levels[from + 1], k) + Older(t, from, k)
  {
    SpanAround(t.levels, from, k);
    assert Part(t.levels[from], k) == Part(t.levels[from][1..], k) + One(t.levels[from][0], k);
    RegroupAround(MemParts(t, k), Span(t.levels, 0, from, k), Part(t.levels[from][1..], k),
                  One(t.levels[from][0], k), Part(t.levels[from + 1], k), Older(t, from, k));
  }

  lemma RegroupAround(a: seq<Entry>, b: seq<Entry>, c: seq<Entry>, d: seq<Entry>, e: seq<Entry>, f: seq<Entry>)
    ensures a + (b + (c + d) + e + f) == (a + b + c) + d + e + f
  {
  }

  lemma ColumnAfter(t: Tree, from: int, lower: seq<Sst>, nextId: int, k: Key)
    requires MajorReady(t, from)
    ensures var t' := t.(levels := t.levels[from := t.levels[from][1..]][from + 1 := lower], nextId := nextId);
            Column(t', k) == Newer(t, from, k) + Part(lower, k) + Older(t, from, k)
  {
    var t' := t.(levels := t.levels[from := t.levels[from][1..]][from + 1 := lower], nextId := nextId);
    SpanAround(t'.levels, from, k);
    SpanSame(t.levels, t'.levels, 0, from, k);
    SpanSame(t.levels, t'.levels, from + 2, |t.levels|, k);
    RegroupMajor(MemParts(t, k), Span(t.levels, 0, from, k), Part(t.levels[from][1..], k), Part(lower, k), Older(t, from, k));
  }

  lemma RegroupMajor(a: seq<Entry>, b: seq<Entry>, c: seq<Entry>, d: seq<Entry>, e: seq<Entry>)
    ensures a + (b + c + d + e) == (a + b + c) + d + e
  {
  }

  lemma RegroupMove(a: seq<Entry>, b: seq<Entry>, c: seq<Entry>, d: seq<Entry>)
    ensures a + b + c + d == a + (b + c) + d
  {
  }

  /** No reachable compaction meets a pair of values that no arm handles. */
  lemma MajorNeverPanics(t: Tree, from: int)
    requires Inv(t) && MajorReady(t, from)
    ensures !MajorPanics(t, from)
  {
    var u, lower := t.levels[from][0], t.levels[from + 1];
    assert LevelOk(t.levels[from], t.master, t.nextId);
    forall k ensures HandledPair(Head(One(u, k), t.master), Head(Part(lower, k), t.master)) {
      ColumnAround(t, from, k);
      NeighboursHandled(Newer(t, from, k), One(u, k), Part(lower, k), Older(t, from, k), t.master);
    }
    HandledColumns(lower, u, t.master);
  }

  lemma PartAround(a: seq<Sst>, u: Sst, b: seq<Sst>, k: Key)
    ensures Part(a + [u] + b, k) == Part(b, k) + (One(u, k) + Part(a, k))
  {
    PartConcat(a + [u], b, k);
    PartConcat(a, [u], k);
    PartCons(u, [], k);
    assert [u] + [] == [u];
  }

  lemma RegroupMoved(o: seq<Entry>, a: seq<Entry>, b: seq<Entry>)
    requires o == [] || b + a == []
    ensures b + (o + a) == o + (b + a)
  {
    if o != [] { assert |b + a| == 0; }
  }

  lemma MovedPart(lower: seq<Sst>, u: Sst, k: Key)
    requires Disjoint(lower) && IdSorted(lower) && WellFormed(u)
    requires forall i :: 0 <= i < |lower| ==> lower[i].id != u.id
    requires Overlapped(lower, u) == []
    ensures Part(InsertSst(lower, u), k) == One(u, k) + Part(lower, k)
  {
    var p := InsertAt(lower, u);
    if One(u, k) != [] { MovedKey(lower, u, k); }
    MovedAround(lower, u, p, k);
  }

  lemma MovedAround(lower: seq<Sst>, u: Sst, p: nat, k: Key)
    requires p <= |lower| && (One(u, k) == [] || Part(lower, k) == [])
    ensures Part(lower[..p] + [u] + lower[p..], k) == One(u, k) + Part(lower, k)
  {
    hide *;
    var a, b := lower[..p], lower[p..];
    PartAround(a, u, b, k);
    PartConcat(a, b, k);
    assert lower == a + b;
    RegroupMoved(One(u, k), Part(a, k), Part(b, k));
  }

  lemma MovedKey(lower: seq<Sst>, u: Sst, k: Key)
    requires AllWellFormed(lower) && WellFormed(u) && One(u, k) != []
    requires Overlapped(lower, u) == []
    ensures Part(lower, k) == []
  {
    FoundWithin(u, k);
    forall i | 0 <= i < |lower| ensures !Within(lower[i], k) { NotOverlapped(lower, u, i); }
    PartOutside(lower, k);
  }

  lemma {:induction false} NotOverlapped(level: seq<Sst>, u: Sst, i: nat)
    requires AllWellFormed(level) && u.records != [] && i < |level|
    requires Overlapped(level, u) == []
    ensures !Overlaps(level[i], u)
  {
    if i > 0 { NotOverlapped(level[1..], u, i - 1); }
  }

  /** How a major compaction rewrites a column. */
  ghost predicate Rewritten(t: Tree, t': Tree, from: int, k: Key)
    requires MajorReady(t, from) && |t'.levels| == NUM_LEVELS
  {
    var u, ls, ns := One(t.levels[from][0], k), Part(t.levels[from + 1], k), Part(t'.levels[from + 1], k);
    && Column(t, k) == Newer(t, from, k) + u + ls + Older(t, from, k)
    && Column(t', k) == Newer(t, from, k) + ns + Older(t, from, k)
    && (ns == u + ls || Combined(u, ls, ns, t.master))
  }

  lemma MajorShape(t: Tree, from: int)
    requires MajorReady(t, from) && !MajorPanics(t, from)
    ensures var t' := MajorStep(t, from).0;
            t' == t.(levels := t.levels[from := t.levels[from][1..]][from + 1 := t'.levels[from + 1]], nextId := t'.nextId)
  {
  }

  lemma MajorRewrites(t: Tree, from: int, k: Key)
    requires Inv(t) && MajorReady(t, from)
    ensures !MajorPanics(t, from)
    ensures Rewritten(t, MajorStep(t, from).0, from, k)
  {
    MajorNeverPanics(t, from);
    var u, lower := t.levels[from][0], t.levels[from + 1];
    var t' := MajorStep(t, from).0;
    MajorShape(t, from);
    ColumnAround(t, from, k);
    ColumnAfter(t, from, t'.levels[from + 1], t'.nextId, k);
    assert LevelOk(t.levels[from], t.master, t.nextId) && LevelOk(lower, t.master, t.nextId);
    if Overlapped(lower, u) == [] {
      assert IdsApart(t.levels[from], lower);
      MovedPart(lower, u, k);
    } else {
      CompactedPart(lower, u, t.master, t.sstCap, t.nextId, k);
    }
  }

  lemma MajorColumn(t: Tree, from: int, k: Key)
    requires Inv(t) && MajorReady(t, from)
    ensures !MajorPanics(t, from)
    ensures var t' := MajorStep(t, from).0;
            && SyncOrdered(Column(t', k), t'.master)
            && Latest(t', k) == Latest(t, k)
            && Durable(t', k) == Durable(t, k)
  {
    hide LevelsInv, MemsInv, Shadowed, Newer, Older, Span, MajorStep, MajorPanics, SyncOrdered;
    MajorRewrites(t, from, k);
    MajorShape(t, from);
    var t' := MajorStep(t, from).0;
    var n, u, ls, ns, o := Newer(t, from, k), One(t.levels[from][0], k), Part(t.levels[from + 1], k),
                           Part(t'.levels[from + 1], k), Older(t, from, k);
    if ns == u + ls {
      RegroupMove(n, u, ls, o);
    } else {
      CombineColumn(n, u, ls, ns, o, t.master);
    }
  }

  lemma Live4(a: seq<Entry>, b: seq<Entry>, c: seq<Entry>, d: seq<Entry>, v: Value)
    ensures Live(a + b + c + d, v) == Live(a, v) + Live(b, v) + Live(c, v) + Live(d, v)
  {
    LiveConcat(a, b, v);
    LiveConcat(a + b, c, v);
    LiveConcat(a + b + c, d, v);
  }

  lemma MajorLive(t: Tree, from: int, k: Key, v: Value)
    requires Inv(t) && MajorReady(t, from)
    ensures !MajorPanics(t, from)
    ensures var (t', ds) := MajorStep(t, from);
            LiveIn(t', k, v) + Drops(ds, k, v) == LiveIn(t, k, v)
  {
    MajorRewrites(t, from, k);
    MajorPartLive(t, from, k, v);
    var t' := MajorStep(t, from).0;
    var n, o := Newer(t, from, k), Older(t, from, k);
    Live4(n, One(t.levels[from][0], k), Part(t.levels[from + 1], k), o, v);
    LiveConcat(n, Part(t'.levels[from + 1], k), v);
    LiveConcat(n + Part(t'.levels[from + 1], k), o, v);
  }

  lemma MajorPartLive(t: Tree, from: int, k: Key, v: Value)
    requires Inv(t) && MajorReady(t, from) && !MajorPanics(t, from)
    ensures var (t', ds) := MajorStep(t, from);
            Live(Part(t'.levels[from + 1], k), v) + Drops(ds, k, v) ==
            Live(One(t.levels[from][0], k), v) + Live(Part(t.levels[from + 1], k), v)
  {
    var u, lower := t.levels[from][0], t.levels[from + 1];
    assert LevelOk(t.levels[from], t.master, t.nextId) && LevelOk(lower, t.master, t.nextId);
    if Overlapped(lower, u) == [] {
      assert IdsApart(t.levels[from], lower);
      MovedPart(lower, u, k);
      LiveConcat(One(u, k), Part(lower, k), v);
    } else {
      CompactionConserves(lower, u, t.master, t.sstCap, t.nextId, k, v);
    }
  }

  // ---- Level invariants under a major compaction -----------------------------------------------------

  lemma {:induction false} OthersIds(level: seq<Sst>, u: Sst, master: int, nextId: int)
    requires LevelOk(level, master, nextId) && u.records != []
    ensures LevelOk(Others(level, u), master, nextId)
  {
    if level != [] {
      var rest := Others(level[1..], u);
      OthersIds(level[1..], u, master, nextId);
      if !Overlaps(level[0], u) {
        forall i | 0 <= i < |rest| ensures level[0].id < rest[i].id {
          var n :| 0 <= n < |level[1..]| && level[1..][n] == rest[i];
          assert level[n + 1] == rest[i];
        }
      }
    }
  }

  lemma CompactedOk(lower: seq<Sst>, u: Sst, master: int, cap: nat, nextId: int)
    requires LevelOk(lower, master, nextId) && Disjoint(lower) && WellFormed(u) && cap > 0
    requires ArmsHandled(lower, u, master)
    ensures var cs := Created(Merged(lower, u, master), cap, master, nextId);
            LevelOk(CompactedLevel(lower, u, master, cap, nextId), master, nextId + |cs|)
  {
    var rs := Merged(lower, u, master);
    var os, cs := Others(lower, u), Created(rs, cap, master, nextId);
    OthersIds(lower, u, master, nextId);
    UpperLookup(u, master, 0);
    LowerOrdered(lower, u, master);
    MergePreserves(UpperStream(u, master), Stream(LowerTables(lower, u), master), 0);
    CreatedOrdered(rs, cap, master, nextId);
    forall i | 0 <= i < |cs| ensures cs[i].id == nextId + i && cs[i].syncId == master {
      CreatedKeys(rs, cap, master, nextId, i);
    }
    LevelOkConcat(os, cs, master, nextId);
  }

  lemma LevelOkConcat(os: seq<Sst>, cs: seq<Sst>, master: int, nextId: int)
    requires LevelOk(os, master, nextId) && AllWellFormed(cs)
    requires forall i :: 0 <= i < |cs| ==> cs[i].id == nextId + i && cs[i].syncId == master
    ensures LevelOk(os + cs, master, nextId + |cs|)
  {
  }

  lemma MovedOk(lower: seq<Sst>, u: Sst, master: int, nextId: int)
    requires LevelOk(lower, master, nextId) && Disjoint(lower) && WellFormed(u)
    requires u.id < nextId && u.syncId <= master
    requires forall i :: 0 <= i < |lower| ==> lower[i].id != u.id
    requires Overlapped(lower, u) == []
    ensures LevelOk(InsertSst(lower, u), master, nextId) && Disjoint(InsertSst(lower, u))
  {
    var p := InsertAt(lower, u);
    forall i | 0 <= i < |lower| ensures !Overlaps(lower[i], u) && !Overlaps(u, lower[i]) {
      NotOverlapped(lower, u, i);
    }
    InsertedOk(lower, u, p, master, nextId);
    InsertedDisjoint(lower, u, p);
  }

  lemma InsertedOk(lower: seq<Sst>, u: Sst, p: nat, master: int, nextId: int)
    requires LevelOk(lower, master, nextId) && WellFormed(u)
    requires u.id < nextId && u.syncId <= master && p <= |lower|
    requires forall i :: 0 <= i < p ==> lower[i].id < u.id
    requires forall i :: p <= i < |lower| ==> u.id < lower[i].id
    ensures LevelOk(lower[..p] + [u] + lower[p..], master, nextId)
  {
    var r := lower[..p] + [u] + lower[p..];
    assert forall i :: 0 <= i < p ==> r[i] == lower[i];
    assert forall i :: p < i < |r| ==> r[i] == lower[i - 1];
    forall i, j | 0 <= i < j < |r| ensures r[i].id < r[j].id {
      var a, b := if i < p then i else i - 1, if j < p then j else j - 1;
      if i != p && j != p { assert lower[a].id < lower[b].id; }
    }
  }

  lemma InsertedDisjoint(lower: seq<Sst>, u: Sst, p: nat)
    requires Disjoint(lower) && WellFormed(u) && p <= |lower|
    requires forall i :: 0 <= i < |lower| ==> !Overlaps(lower[i], u) && !Overlaps(u, lower[i])
    ensures Disjoint(lower[..p] + [u] + lower[p..])
  {
    var r := lower[..p] + [u] + lower[p..];
    assert forall i :: 0 <= i < p ==> r[i] == lower[i];
    assert forall i :: p < i < |r| ==> r[i] == lower[i - 1];
    forall i, j | 0 <= i < |r| && 0 <= j < |r| && i != j ensures !Overlaps(r[i], r[j]) {
      var a, b := if i < p then i else i - 1, if j < p then j else j - 1;
      if i != p && j != p { assert !Overlaps(lower[a], lower[b]); }
    }
  }

  /** IDs that end up below come from below, from the upper table, or are fresh. */
  ghost predicate IdsFrom(level: seq<Sst>, lower: seq<Sst>, u: Sst, nextId: int) {
    forall i :: 0 <= i < |level| ==>
      level[i].id == u.id || level[i].id >= nextId || exists j :: 0 <= j < |lower| && lower[j].id == level[i].id
  }

  lemma CompactedIds(lower: seq<Sst>, u: Sst, master: int, cap: nat, nextId: int)
    requires LevelOk(lower, master, nextId) && Disjoint(lower) && WellFormed(u) && cap > 0
    requires ArmsHandled(lower, u, master)
    ensures IdsFrom(CompactedLevel(lower, u, master, cap, nextId), lower, u, nextId)
  {
    var rs := Merged(lower, u, master);
    var os, cs := Others(lower, u), Created(rs, cap, master, nextId);
    UpperLookup(u, master, 0);
    LowerOrdered(lower, u, master);
    MergePreserves(UpperStream(u, master), Stream(LowerTables(lower, u), master), 0);
    var level := os + cs;
    forall i | 0 <= i < |level|
      ensures level[i].id >= nextId || exists j :: 0 <= j < |lower| && lower[j].id == level[i].id
    {
      if i < |os| {
        assert os[i] in lower;
        var j :| 0 <= j < |lower| && lower[j] == os[i];
        assert lower[j].id == level[i].id;
      } else {
        CreatedKeys(rs, cap, master, nextId, i - |os|);
      }
    }
  }

  lemma MovedIds(lower: seq<Sst>, u: Sst, nextId: int)
    requires IdSorted(lower)
    requires forall i :: 0 <= i < |lower| ==> lower[i].id != u.id
    ensures IdsFrom(InsertSst(lower, u), lower, u, nextId)
  {
    var p := InsertAt(lower, u);
    var r := lower[..p] + [u] + lower[p..];
    forall i | 0 <= i < |r| ensures r[i].id == u.id || exists j :: 0 <= j < |lower| && lower[j].id == r[i].id {
      if i < p { assert r[i] == lower[i]; } else if i > p { assert r[i] == lower[i - 1]; }
    }
  }

  lemma ApartAfter(other: seq<Sst>, upper: seq<Sst>, lower: seq<Sst>, lower': seq<Sst>, master: int, nextId: int)
    requires upper != [] && LevelOk(other, master, nextId)
    requires IdsFrom(lower', lower, upper[0], nextId)
    requires IdsApart(other, upper) && IdsApart(other, lower)
    ensures IdsApart(other, lower')
  {
  }

  lemma UpperApart(upper: seq<Sst>, lower: seq<Sst>, lower': seq<Sst>, master: int, nextId: int)
    requires upper != [] && LevelOk(upper, master, nextId) && IdsApart(upper, lower)
    requires IdsFrom(lower', lower, upper[0], nextId)
    ensures IdsApart(upper[1..], lower')
  {
  }

  lemma ApartSymmetric(a: seq<Sst>, b: seq<Sst>)
    requires IdsApart(a, b)
    ensures IdsApart(b, a)
  {
  }

  lemma LevelsReplaced(levels: seq<seq<Sst>>, from: int, lower': seq<Sst>, master: int, nextId: int, nextId': int)
    requires LevelsInv(levels, master, nextId) && nextId <= nextId'
    requires 0 <= from < NUM_LEVELS - 1 && levels[from] != []
    requires LevelOk(lower', master, nextId') && Disjoint(lower')
    requires IdsFrom(lower', levels[from + 1], levels[from][0], nextId)
    ensures LevelsInv(levels[from := levels[from][1..]][from + 1 := lower'], master, nextId')
  {
    var upper, lower := levels[from], levels[from + 1];
    var r := levels[from := upper[1..]][from + 1 := lower'];
    LaterLevels(levels, master, nextId, master, nextId');
    assert LevelOk(upper, master, nextId);
    assert IdsApart(upper, lower);
    UpperApart(upper, lower, lower', master, nextId);
    forall l, m | 0 <= l < m < |r| ensures IdsApart(r[l], r[m]) {
      ReplacedApart(levels, from, lower', l, m, master, nextId);
    }
    assert LevelOk(upper, master, nextId');
    if from > 0 { assert Disjoint(upper); }
    forall l | 0 <= l < |r| ensures LevelOk(r[l], master, nextId') {
      assert LevelOk(levels[l], master, nextId');
    }
  }

  lemma ReplacedApart(levels: seq<seq<Sst>>, from: int, lower': seq<Sst>, l: int, m: int, master: int, nextId: int)
    requires LevelsInv(levels, master, nextId)
    requires 0 <= from < NUM_LEVELS - 1 && levels[from] != [] && 0 <= l < m < |levels|
    requires IdsFrom(lower', levels[from + 1], levels[from][0], nextId)
    requires IdsApart(levels[from][1..], lower')
    ensures var r := levels[from := levels[from][1..]][from + 1 := lower']; IdsApart(r[l], r[m])
  {
    var upper, lower := levels[from], levels[from + 1];
    assert IdsApart(levels[l], levels[m]);
    if l == from + 1 {
      assert IdsApart(upper, levels[m]) && IdsApart(lower, levels[m]);
      assert LevelOk(levels[m], master, nextId);
      ApartSymmetric(upper, levels[m]);
      ApartSymmetric(lower, levels[m]);
      ApartAfter(levels[m], upper, lower, lower', master, nextId);
      ApartSymmetric(levels[m], lower');
    } else if m == from + 1 && l != from {
      assert IdsApart(levels[l], upper) && IdsApart(levels[l], lower);
      assert LevelOk(levels[l], master, nextId);
      ApartAfter(levels[l], upper, lower, lower', master, nextId);
    }
  }

  /** Major compaction, by merge or by move, keeps the tree's invariant; in particular the key
      ranges of every level below the top one stay pairwise disjoint. */
  lemma MajorInv(t: Tree, from: int)
    requires Inv(t) && MajorReady(t, from) && t.pending
    ensures !MajorPanics(t, from)
    ensures Inv(MajorStep(t, from).0)
  {
    MajorNeverPanics(t, from);
    var u, lower := t.levels[from][0], t.levels[from + 1];
    var t' := MajorStep(t, from).0;
    assert LevelOk(t.levels[from], t.master, t.nextId) && LevelOk(lower, t.master, t.nextId);
    if Overlapped(lower, u) == [] {
      assert IdsApart(t.levels[from], lower);
      MovedOk(lower, u, t.master, t.nextId);
      MovedIds(lower, u, t.nextId);
    } else {
      CompactedOk(lower, u, t.master, t.sstCap, t.nextId);
      CompactedDisjoint(lower, u, t.master, t.sstCap, t.nextId);
      CompactedIds(lower, u, t.master, t.sstCap, t.nextId);
    }
    LevelsReplaced(t.levels, from, t'.levels[from + 1], t.master, t.nextId, t'.nextId);
    forall k ensures SyncOrdered(Column(t', k), t'.master) { MajorColumn(t, from, k); }
  }

  // ---- Whole runs ------------------------------------------------------------------------------------

  /** One step keeps the invariant and panics only by a sync on an inverted range: neither compaction does. */
  lemma StepKeeps(t: Tree, op: Op)
    requires Inv(t)
    ensures Step(t, op).Panicked? <==>
            op.Sync? && !t.pending && !AtCapacity(t.mut) && SyncPanics(t.mut, t.master + 1)
    ensures Step(t, op).Stepped? ==> Inv(Step(t, op).tree)
  {
    match op
    case Put(k, v) => PutInv(t, k, v);
    case Sync(junk) => if Step(t, op).Stepped? { SyncInv(t, junk); }
    case Switch(junk) => if Step(t, op).Stepped? { SwitchInv(t, junk); }
    case Minor => if t.pending { PendingNonempty(t); MinorInv(t); }
    case Major(from) => if t.pending && MajorReady(t, from) { MajorInv(t, from); }
  }

  lemma StepViews(t: Tree, op: Op, k: Key)
    requires Inv(t) && Step(t, op).Stepped?
    ensures var t' := Step(t, op).tree;
            && Latest(t', k) == (if op.Put? && op.k == k then Some(op.v) else Latest(t, k))
            && Durable(t', k) == (if op.Sync? then Latest(t, k) else Durable(t, k))
  {
    match op
    case Put(j, v) => if j == k { PutColumn(t, k, v); } else { PutElsewhere(t, j, v, k); }
    case Sync(junk) => SyncColumns(t, junk, k);
    case Switch(junk) => SwitchColumn(t, junk, k);
    case Minor => MinorColumn(t, k);
    case Major(from) => MajorColumn(t, from, k);
  }

  lemma StepLive(t: Tree, op: Op, k: Key, v: Value)
    requires Inv(t) && Step(t, op).Stepped?
    ensures LiveIn(Step(t, op).tree, k, v) + Drops(Step(t, op).drops, k, v) ==
            LiveIn(t, k, v) + (if op == Put(k, v) then 1 else 0)
  {
    match op
    case Put(j, w) => PutLive(t, j, w, k, v);
    case Sync(junk) => SyncLive(t, junk, k, v);
    case Switch(junk) => SwitchColumn(t, junk, k);
    case Minor => MinorColumn(t, k);
    case Major(from) => MajorLive(t, from, k, v);
  }

  /** Every run keeps the invariant. */
  lemma {:induction false} RunKeeps(memCap: nat, sstCap: nat, ops: seq<Op>)
    requires memCap > 0 && sstCap > 0
    ensures Run(Format(memCap, sstCap), ops).Stepped? ==> Inv(Run(Format(memCap, sstCap), ops).tree)
  {
    if ops == [] {
      FormatInv(memCap, sstCap);
    } else {
      RunKeeps(memCap, sstCap, ops[..|ops| - 1]);
      var r := Run(Format(memCap, sstCap), ops[..|ops| - 1]);
      if r.Stepped? { StepKeeps(r.tree, ops[|ops| - 1]); }
    }
  }

  /** The master sync ID counts the syncs, and the mutable memtable carries it. */
  lemma {:induction false} RunMaster(memCap: nat, sstCap: nat, ops: seq<Op>)
    requires memCap > 0 && sstCap > 0 && Run(Format(memCap, sstCap), ops).Stepped?
    ensures var t := Run(Format(memCap, sstCap), ops).tree; t.master == t.mut.syncId == SyncCount(ops)
  {
    RunKeeps(memCap, sstCap, ops);
    if ops != [] { RunMaster(memCap, sstCap, ops[..|ops| - 1]); }
  }

  /** The mutable memtable's range, read off the operations. */
  ghost predicate RangeTracks(t: Tree, ops: seq<Op>) {
    && t.master >= 0 && (PutSince(ops) <==> t.mut.table != map[])
    && (SyncSince(ops) <==> t.imm.syncId != t.mut.syncId)
    && (RangeUnset(ops) <==> t.mut.unsynced.None?)
    && (LeavesInverted(ops) <==> SyncPanics(t.mut, t.master + 1))
    && (ops != [] && ops[|ops| - 1].Sync? ==> !t.pending && !AtCapacity(t.mut))
  }

  lemma {:induction false} RunTracks(memCap: nat, sstCap: nat, ops: seq<Op>)
    requires memCap > 0 && sstCap > 0 && Run(Format(memCap, sstCap), ops).Stepped?
    ensures RangeTracks(Run(Format(memCap, sstCap), ops).tree, ops)
  {
    if ops != [] {
      var init, op := ops[..|ops| - 1], ops[|ops| - 1];
      RunKeeps(memCap, sstCap, init);
      RunTracks(memCap, sstCap, init);
      StepTracks(Run(Format(memCap, sstCap), init).tree, init, op);
      assert init + [op] == ops;
    }
  }

  lemma StepTracks(t: Tree, ops: seq<Op>, op: Op)
    requires Inv(t) && RangeTracks(t, ops) && Step(t, op).Stepped?
    ensures RangeTracks(Step(t, op).tree, ops + [op])
  {
    assert (ops + [op])[..|ops|] == ops;
    match op
    case Put(k, v) => assert k in Step(t, op).tree.mut.table;
    case Sync(junk) =>
      SyncKeepsInv(t.mut, t.master + 1, junk);
      assert MemSync(t.mut, t.master + 1, junk).0.table.Keys == t.mut.table.Keys;
      MapEmptyOrInhabited(t.mut.table);
      MapEmptyOrInhabited(Step(t, op).tree.mut.table);
    case Switch(junk) => ClearedInv(t.imm, t.mut.syncId, junk);
    case Minor =>
    case Major(from) =>
  }

  /** Exactly when a run panics: at the second of two successive syncs, if the first one gave a memtable that
      was not empty an inverted range. In particular every equal-key pair of every major compaction falls in
      one of the five handled arms. */
  lemma RunPanicsIff(memCap: nat, sstCap: nat, ops: seq<Op>, op: Op)
    requires memCap > 0 && sstCap > 0 && Run(Format(memCap, sstCap), ops).Stepped?
    ensures Run(Format(memCap, sstCap), ops + [op]).Panicked? <==> op.Sync? && LeavesInverted(ops)
  {
    RunKeeps(memCap, sstCap, ops);
    RunTracks(memCap, sstCap, ops);
    StepKeeps(Run(Format(memCap, sstCap), ops).tree, op);
    assert (ops + [op])[..|ops|] == ops;
  }

  /** A run whose uninitialised ranges are not inverted never panics. */
  lemma {:induction false} NoRunPanics(memCap: nat, sstCap: nat, ops: seq<Op>)
    requires memCap > 0 && sstCap > 0
    requires forall i :: 0 <= i < |ops| && ops[i].Sync? ==> ops[i].junk.lo <= ops[i].junk.hi
    ensures !Run(Format(memCap, sstCap), ops).Panicked?
  {
    if ops != [] {
      var init, op := ops[..|ops| - 1], ops[|ops| - 1];
      NoRunPanics(memCap, sstCap, init);
      if Run(Format(memCap, sstCap), init).Stepped? {
        RunPanicsIff(memCap, sstCap, init, op);
        assert init + [op] == ops;
      }
    }
  }

  /** With room for two values, any inverted range gives a run that panics. */
  lemma SecondSyncPanics(memCap: nat, sstCap: nat, k: Key, v: Value, junk: KeyRange, other: KeyRange)
    requires memCap > 1 && sstCap > 0
    ensures Run(Format(memCap, sstCap), [Put(k, v), Sync(junk), Sync(other)]).Panicked? <==> junk.lo > junk.hi
  {
    var f := Format(memCap, sstCap);
    var a, b: seq<Op>, c := [Put(k, v)], [Put(k, v), Sync(junk)], [Put(k, v), Sync(junk), Sync(other)];
    assert a[..0] == [] && b[..1] == a && c[..2] == b && a + [b[1]] == b && b + [c[2]] == c;
    FormatInv(memCap, sstCap);
    assert Run(f, a) == Stepped(PutStep(f, k, v).0, [] + PutStep(f, k, v).1);
    RunKeeps(memCap, sstCap, a);
    RunPanicsIff(memCap, sstCap, a, b[1]);
    assert Run(f, b).Stepped?;
    RunPanicsIff(memCap, sstCap, b, c[2]);
  }

  /** In every run a reader gets the last value put, and discarding what is unsynced leaves the
      last value put before the last sync. */
  lemma {:induction false} RunViews(memCap: nat, sstCap: nat, ops: seq<Op>, k: Key)
    requires memCap > 0 && sstCap > 0
    requires Run(Format(memCap, sstCap), ops).Stepped?
    ensures Latest(Run(Format(memCap, sstCap), ops).tree, k) == LastPut(ops, k)
    ensures Durable(Run(Format(memCap, sstCap), ops).tree, k) == LastSynced(ops, k)
  {
    if ops == [] {
      FormatColumn(memCap, sstCap, k);
    } else {
      var init := ops[..|ops| - 1];
      RunViews(memCap, sstCap, init, k);
      RunKeeps(memCap, sstCap, init);
      StepViews(Run(Format(memCap, sstCap), init).tree, ops[|ops| - 1], k);
    }
  }

  /** In every run each value put is either still held in exactly one place or was reported as
      dropped exactly once. */
  lemma {:induction false} RunConserves(memCap: nat, sstCap: nat, ops: seq<Op>, k: Key, v: Value)
    requires memCap > 0 && sstCap > 0
    requires Run(Format(memCap, sstCap), ops).Stepped?
    ensures var r := Run(Format(memCap, sstCap), ops);
            LiveIn(r.tree, k, v) + Drops(r.drops, k, v) == PutCount(ops, k, v)
  {
    if ops == [] {
      FormatColumn(memCap, sstCap, k);
    } else {
      var init, op := ops[..|ops| - 1], ops[|ops| - 1];
      RunConserves(memCap, sstCap, init, k, v);
      RunKeeps(memCap, sstCap, init);
      var r := Run(Format(memCap, sstCap), init);
      StepLive(r.tree, op, k, v);
      DropsConcat(r.drops, Step(r.tree, op).drops, k, v);
    }
  }
}
