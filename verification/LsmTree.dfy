/** The transactional LSM tree of tx_lsm_tree.rs as a step machine over put, sync, memtable switch,
    minor compaction and major compaction, each step atomic, and what every run keeps. */
module LsmTree {
  import opened Common
  import opened Records
  import opened MemTables
  import opened Compaction
  import opened Levels
  import opened MajorCompaction
  import opened Columns

  const NUM_LEVELS := 6

  /** `pending` is set from a memtable switch until its minor compaction: the immutable memtable
      then holds data that no table holds. Levels are kept by ascending table ID. */
  datatype Tree = Tree(
    mut: Mem,
    imm: Mem,
    pending: bool,
    levels: seq<seq<Sst>>,
    master: int,
    nextId: int,
    sstCap: nat)

  function Format(memCap: nat, sstCap: nat): Tree {
    Tree(EmptyMem(memCap, 0), EmptyMem(memCap, 0), false, [[], [], [], [], [], []], 0, 0, sstCap)
  }

  datatype Op =
    | Put(k: Key, v: Value)
    | Sync(junk: KeyRange)
    | Switch(junk: KeyRange)
    | Minor
    | Major(from: int)

  datatype Outcome = Blocked | Panicked | Stepped(tree: Tree, drops: seq<Drop>)

  // ---- The steps ---------------------------------------------------------------------------------

  /** Records of a memtable in key order. */
  function Cook(table: map<Key, ValueEx>): (rs: seq<Record>)
    ensures Sorted(rs)
  {
    var ks := SortedKeys(table.Keys);
    seq(|ks|, i requires 0 <= i < |ks| => Record(ks[i], table[ks[i]]))
  }

  function Cleared(m: Mem): Mem {
    m.(table := map[], size := 0, unsynced := None)
  }

  function PutStep(t: Tree, k: Key, v: Value): (Tree, seq<Drop>) {
    var (m, d) := MemPut(t.mut, k, v);
    (t.(mut := m), OptionDrop(k, d))
  }

  function SyncStep(t: Tree, junk: KeyRange): (Tree, seq<Drop>)
    requires t.master >= 0
  {
    var (m, ds) := MemSync(t.mut, t.master + 1, junk);
    (t.(mut := m, master := t.master + 1), ds)
  }

  /** `MemTableManager::switch`: the cleared immutable table becomes the mutable one and takes over
      its sync ID. */
  function SwitchStep(t: Tree, junk: KeyRange): Tree {
    t.(mut := MemSync(Cleared(t.imm), t.mut.syncId, junk).0, imm := t.mut, pending := true)
  }

  function MinorStep(t: Tree): Tree
    requires |t.levels| == NUM_LEVELS
  {
    var s := Sst(t.nextId, t.imm.syncId, Cook(t.imm.table));
    t.(levels := t.levels[0 := InsertSst(t.levels[0], s)], nextId := t.nextId + 1, pending := false)
  }

  /** The tables two levels end up with and what is dropped. */
  ghost function MajorStep(t: Tree, from: int): (Tree, seq<Drop>)
    requires MajorReady(t, from) && !MajorPanics(t, from)
  {
    var u, lower := t.levels[from][0], t.levels[from + 1];
    var rest := t.levels[from][1..];
    if Overlapped(lower, u) == [] then
      (t.(levels := t.levels[from := rest][from + 1 := InsertSst(lower, u)]), [])
    else
      (t.(levels := t.levels[from := rest][from + 1 := CompactedLevel(lower, u, t.master, t.sstCap, t.nextId)],
          nextId := t.nextId + |Created(Merged(lower, u, t.master), t.sstCap, t.master, t.nextId)|),
       CompactionDrops(lower, u, t.master))
  }

  /** A level above the last holds a table to push down. */
  predicate MajorReady(t: Tree, from: int) {
    && |t.levels| == NUM_LEVELS && 0 <= from < NUM_LEVELS - 1
    && t.levels[from] != [] && t.sstCap > 0
    && (forall l, i :: 0 <= l < |t.levels| && 0 <= i < |t.levels[l]| ==> t.levels[l][i].records != [])
  }

  /** The merge would run into the `unreachable!()` arm. */
  ghost predicate MajorPanics(t: Tree, from: int)
    requires MajorReady(t, from)
  {
    var u, lower := t.levels[from][0], t.levels[from + 1];
    Overlapped(lower, u) != [] && !ArmsHandled(lower, u, t.master)
  }

  /** A put waits while the mutable table is full; a sync and a switch wait for the compaction in
      flight; the compaction thread runs only after a switch. Tables are taken to be buildable. */
  ghost function Step(t: Tree, op: Op): Outcome {
    match op
    case Put(k, v) =>
      if AtCapacity(t.mut) then Blocked
      else var (t', ds) := PutStep(t, k, v); Stepped(t', ds)
    case Sync(junk) =>
      if t.pending || AtCapacity(t.mut) || t.master < 0 then Blocked
      else if SyncPanics(t.mut, t.master + 1) then Panicked
      else var (t', ds) := SyncStep(t, junk); Stepped(t', ds)
    case Switch(junk) =>
      if t.pending || !AtCapacity(t.mut) then Blocked
      else Stepped(SwitchStep(t, junk), [])
    case Minor =>
      if !t.pending || |t.levels| != NUM_LEVELS then Blocked
      else if t.imm.table == map[] then Panicked
      else Stepped(MinorStep(t), [])
    case Major(from) =>
      if !t.pending || !MajorReady(t, from) then Blocked
      else if MajorPanics(t, from) then Panicked
      else var (t', ds) := MajorStep(t, from); Stepped(t', ds)
  }

  /** A whole run from `t`. */
  ghost function Run(t: Tree, ops: seq<Op>): Outcome {
    if ops == [] then Stepped(t, []) else
    var r := Run(t, ops[..|ops| - 1]);
    if !r.Stepped? then r else
    var s := Step(r.tree, ops[|ops| - 1]);
    if s.Stepped? then Stepped(s.tree, r.drops + s.drops) else s
  }

  // ---- What a run did, read off its operations alone -----------------------------------------------

  function LastPut(ops: seq<Op>, k: Key): Option<Value> {
    if ops == [] then None
    else if ops[|ops| - 1].Put? && ops[|ops| - 1].k == k then Some(ops[|ops| - 1].v)
    else LastPut(ops[..|ops| - 1], k)
  }

  /** The last value put before the last sync. */
  function LastSynced(ops: seq<Op>, k: Key): Option<Value> {
    if ops == [] then None
    else if ops[|ops| - 1].Sync? then LastPut(ops, k)
    else LastSynced(ops[..|ops| - 1], k)
  }

  function SyncCount(ops: seq<Op>): nat {
    if ops == [] then 0 else SyncCount(ops[..|ops| - 1]) + (if ops[|ops| - 1].Sync? then 1 else 0)
  }

  /** There was a put since the last switch. */
  predicate PutSince(ops: seq<Op>) {
    ops != [] && !ops[|ops| - 1].Switch? && (ops[|ops| - 1].Put? || PutSince(ops[..|ops| - 1]))
  }

  /** There was a sync since the last switch. */
  predicate SyncSince(ops: seq<Op>) {
    ops != [] && !ops[|ops| - 1].Switch? && (ops[|ops| - 1].Sync? || SyncSince(ops[..|ops| - 1]))
  }

  /** The mutable memtable has not yet got a range: no sync since the last switch, nor between that switch
      and the one before. */
  predicate RangeUnset(ops: seq<Op>) {
    ops == [] ||
    var init, op := ops[..|ops| - 1], ops[|ops| - 1];
    if op.Switch? then !SyncSince(init) else !op.Sync? && RangeUnset(init)
  }

  /** The last operation synced a memtable that is not empty, and gave it an inverted range. */
  predicate LeavesInverted(ops: seq<Op>) {
    && ops != [] && ops[|ops| - 1].Sync? && ops[|ops| - 1].junk.lo > ops[|ops| - 1].junk.hi
    && PutSince(ops) && RangeUnset(ops[..|ops| - 1])
  }

  function PutCount(ops: seq<Op>, k: Key, v: Value): nat {
    if ops == [] then 0
    else PutCount(ops[..|ops| - 1], k, v) + (if ops[|ops| - 1] == Put(k, v) then 1 else 0)
  }

  // ---- One key's entries ---------------------------------------------------------------------------

  function MemPart(m: Mem, k: Key): seq<Entry> {
    if k in m.table then [Entry(m.table[k], m.syncId)] else []
  }

  /** Entries of levels `i` up to `j`, upper levels first. */
  function Span(levels: seq<seq<Sst>>, i: int, j: int, k: Key): seq<Entry>
    requires 0 <= i <= j <= |levels|
    decreases j - i
  {
    if i == j then [] else Part(levels[i], k) + Span(levels, i + 1, j, k)
  }

  function MemParts(t: Tree, k: Key): seq<Entry> {
    MemPart(t.mut, k) + (if t.pending then MemPart(t.imm, k) else [])
  }

  function Column(t: Tree, k: Key): seq<Entry> {
    MemParts(t, k) + Span(t.levels, 0, |t.levels|, k)
  }

  lemma {:induction false} SpanSplit(levels: seq<seq<Sst>>, i: int, m: int, j: int, k: Key)
    requires 0 <= i <= m <= j <= |levels|
    ensures Span(levels, i, j, k) == Span(levels, i, m, k) + Span(levels, m, j, k)
    decreases m - i
  {
    if i < m { SpanSplit(levels, i + 1, m, j, k); }
  }

  lemma {:induction false} SpanSame(a: seq<seq<Sst>>, b: seq<seq<Sst>>, i: int, j: int, k: Key)
    requires 0 <= i <= j <= |a| && |a| == |b|
    requires forall l :: i <= l < j ==> a[l] == b[l]
    ensures Span(a, i, j, k) == Span(b, i, j, k)
    decreases j - i
  {
    if i < j { SpanSame(a, b, i + 1, j, k); }
  }

  /** The levels around a compaction. */
  lemma SpanAround(levels: seq<seq<Sst>>, l: int, k: Key)
    requires 0 <= l && l + 1 < |levels|
    ensures Span(levels, 0, |levels|, k) ==
            Span(levels, 0, l, k) + Part(levels[l], k) + Part(levels[l + 1], k) + Span(levels, l + 2, |levels|, k)
  {
    SpanSplit(levels, 0, l, |levels|, k);
  }

  // ---- The invariant -------------------------------------------------------------------------------

  ghost predicate LevelOk(level: seq<Sst>, master: int, nextId: int) {
    && IdSorted(level) && AllWellFormed(level)
    && forall i :: 0 <= i < |level| ==> level[i].id < nextId && level[i].syncId <= master
  }

  /** No table ID occurs in two levels. */
  ghost predicate IdsApart(a: seq<Sst>, b: seq<Sst>) {
    forall i, j :: 0 <= i < |a| && 0 <= j < |b| ==> a[i].id != b[j].id
  }

  ghost predicate LevelsInv(levels: seq<seq<Sst>>, master: int, nextId: int) {
    && |levels| == NUM_LEVELS
    && (forall l :: 0 <= l < |levels| ==> LevelOk(levels[l], master, nextId))
    && (forall l :: 1 <= l < |levels| ==> Disjoint(levels[l]))
    && (forall l, m :: 0 <= l < m < |levels| ==> IdsApart(levels[l], levels[m]))
  }

  ghost predicate MemsInv(t: Tree) {
    && t.mut.cap == t.imm.cap > 0
    && MemInv(t.mut) && MemInv(t.imm)
    && t.mut.syncId == t.master >= 0 && t.imm.syncId <= t.master
    && (t.pending ==> AtCapacity(t.imm))
  }

  /** Once compacted, the immutable memtable only repeats the newest table of the top level. */
  ghost predicate Shadowed(t: Tree)
    requires |t.levels| == NUM_LEVELS
  {
    t.pending || t.imm.table == map[] ||
    (&& t.levels[0] != []
     && forall k :: k in t.imm.table ==>
          Lookup(t.levels[0][|t.levels[0]| - 1].records, k) == Some(t.imm.table[k]))
  }

  ghost predicate Inv(t: Tree) {
    && t.sstCap > 0
    && LevelsInv(t.levels, t.master, t.nextId)
    && MemsInv(t)
    && Shadowed(t)
    && forall k :: SyncOrdered(Column(t, k), t.master)
  }

  lemma {:induction false} SpanEmpty(i: int, k: Key)
    requires 0 <= i <= 6
    ensures Span([[], [], [], [], [], []], i, 6, k) == []
    decreases 6 - i
  {
    if i < 6 { SpanEmpty(i + 1, k); }
  }

  lemma FormatColumn(memCap: nat, sstCap: nat, k: Key)
    ensures Column(Format(memCap, sstCap), k) == []
  {
    SpanEmpty(0, k);
  }

  lemma FormatInv(memCap: nat, sstCap: nat)
    requires memCap > 0 && sstCap > 0
    ensures Inv(Format(memCap, sstCap))
  {
    var t := Format(memCap, sstCap);
    forall k ensures SyncOrdered(Column(t, k), t.master) { FormatColumn(memCap, sstCap, k); }
    assert Pairs(t.mut.table) == {};
  }
}
