/** Range queries: the completion tracking of range_query_ctx.rs and `get_range` of the tree. */
module RangeQueries {
  import opened Common
  import opened Records
  import opened MemTables
  import opened Levels
  import opened MajorCompaction
  import opened Columns
  import opened LsmTree
  import opened LsmInvariant
  import opened TxLsmTrees

  class RangeQueryCtx {
    const start: Key
    var done: seq<bool>
    var minOpen: nat
    var res: seq<(Key, Value)>

    /** `min_uncompleted` is the first open slot, or one past the last when all are completed. */
    ghost predicate Valid()
      reads this
    {
      && minOpen <= |done|
      && (forall i :: 0 <= i < minOpen ==> done[i])
      && (minOpen < |done| ==> !done[minOpen])
    }

    predicate IsCompleted()
      reads this
    {
      minOpen == |done|
    }

    constructor (start: Key, num: nat)
      ensures Valid() && this.start == start
      ensures done == seq(num, _ => false) && res == []
    {
      this.start := start;
      done, minOpen, res := seq(num, _ => false), 0, [];
    }

    /** Marks a slot; the first open slot moves on only when it was the one marked. */
    method MarkCompleted(k: Key)
      requires Valid() && start <= k < start + |done|
      modifies this`done, this`minOpen
      ensures Valid() && done == old(done)[k - start := true]
    {
      var n := k - start;
      done := done[n := true];
      if minOpen == n {
        while minOpen < |done| && done[minOpen]
          modifies this`minOpen
          invariant n <= minOpen <= |done|
          invariant forall i :: 0 <= i < minOpen ==> done[i]
        {
          minOpen := minOpen + 1;
        }
      }
    }

    method Complete(k: Key, v: Value)
      requires Valid() && start <= k < start + |done|
      modifies this
      ensures Valid() && done == old(done)[k - start := true]
      ensures res == if old(done)[k - start] then old(res) else old(res) + [(k, v)]
    {
      if done[k - start] {
        assert done[k - start := true] == done;
        return;
      }
      res := res + [(k, v)];
      MarkCompleted(k);
    }

    /** The smallest key range that covers every open slot. */
    method OpenRange() returns (lo: Key, hi: Key)
      requires Valid() && !IsCompleted()
      ensures start <= lo <= hi < start + |done|
      ensures !done[lo - start] && !done[hi - start]
      ensures forall i :: 0 <= i < |done| && !done[i] ==> lo <= start + i <= hi
    {
      lo := start + minOpen;
      var last := |done| - 1;
      while done[last]
        invariant minOpen <= last < |done|
        invariant forall i :: last < i < |done| ==> done[i]
        decreases last
      {
        last := last - 1;
      }
      hi := start + last;
    }
  }

  /** The answers a query should get. */
  ghost function Answers(t: Tree, start: Key, num: nat): (want: seq<Option<Value>>)
    ensures |want| == num
  {
    seq(num, i => Latest(t, start + i))
  }

  /** Where a query stands: results are right and unique, and exactly the slots completed since the
      start have one. */
  ghost predicate Answering(want: seq<Option<Value>>, start: Key, init: seq<bool>, done: seq<bool>, res: seq<(Key, Value)>) {
    && |done| == |init| == |want|
    && (forall i :: 0 <= i < |init| && init[i] ==> done[i])
    && (forall n :: 0 <= n < |res| ==> RightResult(want, start, init, done, res[n]))
    && (forall n, m :: 0 <= n < m < |res| ==> res[n].0 != res[m].0)
    && (forall i :: 0 <= i < |init| && done[i] && !init[i] ==> HasResult(res, start + i))
  }

  ghost predicate RightResult(want: seq<Option<Value>>, start: Key, init: seq<bool>, done: seq<bool>, r: (Key, Value))
    requires |done| == |init| == |want|
  {
    var i := r.0 - start;
    0 <= i < |done| && done[i] && !init[i] && want[i] == Some(r.1)
  }

  ghost predicate HasResult(res: seq<(Key, Value)>, k: Key) {
    exists n :: 0 <= n < |res| && res[n].0 == k
  }

  /** The first `n` records of `rs` leave no slot open. */
  ghost predicate NoneOpen(start: Key, done: seq<bool>, rs: seq<Record>, n: int)
    requires 0 <= n <= |rs|
  {
    forall i :: 0 <= i < n && 0 <= rs[i].key - start < |done| ==> done[rs[i].key - start]
  }

  /** Every record of an open slot carries its answer. */
  ghost predicate Offers(want: seq<Option<Value>>, start: Key, done: seq<bool>, rs: seq<Record>)
    requires |done| == |want|
  {
    forall i :: 0 <= i < |rs| && 0 <= rs[i].key - start < |done| && !done[rs[i].key - start] ==>
      want[rs[i].key - start] == Some(Newest(rs[i].value))
  }

  lemma CompleteKeeps(want: seq<Option<Value>>, start: Key, init: seq<bool>, done: seq<bool>, res: seq<(Key, Value)>, k: Key, v: Value)
    requires Answering(want, start, init, done, res)
    requires 0 <= k - start < |done| && !done[k - start] && want[k - start] == Some(v)
    ensures Answering(want, start, init, done[k - start := true], res + [(k, v)])
  {
    var done', res' := done[k - start := true], res + [(k, v)];
    forall n | 0 <= n < |res'| ensures RightResult(want, start, init, done', res'[n]) {
      if n < |res| { assert RightResult(want, start, init, done, res[n]); }
    }
    forall n, m | 0 <= n < m < |res'| ensures res'[n].0 != res'[m].0 {
      assert RightResult(want, start, init, done, res[n]);
    }
    forall i | 0 <= i < |init| && done'[i] && !init[i] ensures HasResult(res', start + i) {
      if i == k - start {
        assert res'[|res|].0 == start + i;
      } else {
        assert HasResult(res, start + i);
        var n :| 0 <= n < |res| && res[n].0 == start + i;
        assert res'[n].0 == start + i;
      }
    }
  }

  /** One record of a component. */
  method ServeRecord(ctx: RangeQueryCtx, r: Record, ghost want: seq<Option<Value>>, ghost init: seq<bool>)
    requires ctx.Valid() && 0 <= r.key - ctx.start < |ctx.done|
    requires Answering(want, ctx.start, init, ctx.done, ctx.res)
    requires !ctx.done[r.key - ctx.start] ==> want[r.key - ctx.start] == Some(Newest(r.value))
    modifies ctx
    ensures ctx.Valid() && ctx.done == old(ctx.done)[r.key - ctx.start := true]
    ensures Answering(want, ctx.start, init, ctx.done, ctx.res)
  {
    if ctx.done[r.key - ctx.start] {
      assert ctx.done[r.key - ctx.start := true] == ctx.done;
    } else {
      CompleteKeeps(want, ctx.start, init, ctx.done, ctx.res, r.key, Newest(r.value));
    }
    ctx.Complete(r.key, Newest(r.value));
  }

  /** Serves a query from one component: every record inside the open range completes its slot. */
  method ServeFrom(ctx: RangeQueryCtx, rs: seq<Record>, ghost want: seq<Option<Value>>, ghost init: seq<bool>)
    requires ctx.Valid() && !ctx.IsCompleted()
    requires Answering(want, ctx.start, init, ctx.done, ctx.res)
    requires Offers(want, ctx.start, ctx.done, rs)
    modifies ctx
    ensures ctx.Valid()
    ensures Answering(want, ctx.start, init, ctx.done, ctx.res)
    ensures forall i :: 0 <= i < |ctx.done| && old(ctx.done)[i] ==> ctx.done[i]
    ensures NoneOpen(ctx.start, ctx.done, rs, |rs|)
  {
    var lo, hi := ctx.OpenRange();
    ghost var was := ctx.done;
    var n := 0;
    while n < |rs|
      invariant 0 <= n <= |rs|
      invariant ctx.Valid()
      invariant Answering(want, ctx.start, init, ctx.done, ctx.res)
      invariant forall i :: 0 <= i < |was| && was[i] ==> ctx.done[i]
      invariant NoneOpen(ctx.start, ctx.done, rs, n)
    {
      if lo <= rs[n].key <= hi { ServeRecord(ctx, rs[n], want, init); }
      n := n + 1;
    }
  }

  // ---- What is left for an open slot ---------------------------------------------------------------

  /** Open slots are in neither memtable, nor in a level above `l`, nor in the tables of level `l`
      from index `i` on. */
  ghost predicate Searched(t: Tree, start: Key, done: seq<bool>, l: int, i: int)
    requires |t.levels| == NUM_LEVELS && 0 <= l < NUM_LEVELS && 0 <= i <= |t.levels[l]|
  {
    forall n :: 0 <= n < |done| && !done[n] ==> Unfound(t, start + n, l, i)
  }

  ghost predicate Unfound(t: Tree, k: Key, l: int, i: int)
    requires |t.levels| == NUM_LEVELS && 0 <= l < NUM_LEVELS && 0 <= i <= |t.levels[l]|
  {
    MemParts(t, k) == [] && Span(t.levels, 0, l, k) == [] && Part(t.levels[l][i..], k) == []
  }

  lemma FoundNext(t: Tree, k: Key, l: int, i: int)
    requires |t.levels| == NUM_LEVELS && 0 <= l < NUM_LEVELS && 0 < i <= |t.levels[l]|
    requires Unfound(t, k, l, i)
    ensures Lookup(t.levels[l][i - 1].records, k).Some? ==>
              Latest(t, k) == Some(Newest(Lookup(t.levels[l][i - 1].records, k).value))
    ensures Lookup(t.levels[l][i - 1].records, k).None? ==> Unfound(t, k, l, i - 1)
  {
    var level := t.levels[l];
    var s := level[i - 1];
    assert level[i - 1..] == [s] + level[i..];
    PartCons(s, level[i..], k);
    assert level == level[..i - 1] + level[i - 1..];
    PartConcat(level[..i - 1], level[i - 1..], k);
    SpanSplit(t.levels, 0, l, |t.levels|, k);
    assert Column(t, k) == Part(level, k) + Span(t.levels, l + 1, |t.levels|, k);
  }

  lemma LevelSearched(t: Tree, k: Key, l: int)
    requires |t.levels| == NUM_LEVELS && 0 <= l < NUM_LEVELS - 1
    requires Unfound(t, k, l, 0)
    ensures Unfound(t, k, l + 1, |t.levels[l + 1]|)
  {
    assert t.levels[l][0..] == t.levels[l];
    SpanSplit(t.levels, 0, l, l + 1, k);
    assert Span(t.levels, l, l + 1, k) == Part(t.levels[l], k) + Span(t.levels, l + 1, l + 1, k);
    assert t.levels[l + 1][|t.levels[l + 1]|..] == [];
  }

  lemma NowhereFound(t: Tree, k: Key)
    requires |t.levels| == NUM_LEVELS && Unfound(t, k, NUM_LEVELS - 1, 0)
    ensures Latest(t, k) == None
  {
    var l := NUM_LEVELS - 1;
    assert t.levels[l][0..] == t.levels[l];
    SpanSplit(t.levels, 0, l, |t.levels|, k);
    assert Span(t.levels, l, |t.levels|, k) == Part(t.levels[l], k) + Span(t.levels, l + 1, |t.levels|, k);
  }

  /** One table of a level; it is skipped when its range misses every open slot. */
  method ServeTable(ctx: RangeQueryCtx, s: Sst, l: int, i: int, ghost t: Tree, ghost want: seq<Option<Value>>, ghost init: seq<bool>)
    requires ctx.Valid() && !ctx.IsCompleted()
    requires Answering(want, ctx.start, init, ctx.done, ctx.res) && want == Answers(t, ctx.start, |ctx.done|)
    requires |t.levels| == NUM_LEVELS && 0 <= l < NUM_LEVELS && 0 < i <= |t.levels[l]|
    requires s == t.levels[l][i - 1] && WellFormed(s)
    requires Searched(t, ctx.start, ctx.done, l, i)
    modifies ctx
    ensures ctx.Valid() && |ctx.done| == |old(ctx.done)|
    ensures Answering(want, ctx.start, init, ctx.done, ctx.res)
    ensures Searched(t, ctx.start, ctx.done, l, i - 1)
  {
    ghost var was := ctx.done;
    var lo, hi := ctx.OpenRange();
    if OverlapsRange(s, lo, hi) {
      TableOffers(t, want, ctx.start, ctx.done, s, l, i);
      ServeFrom(ctx, s.records, want, init);
      ServedUnfound(t, ctx.start, was, ctx.done, s, l, i);
    } else {
      SkippedUnfound(t, ctx.start, ctx.done, s, l, i, lo, hi);
    }
  }

  lemma TableOffers(t: Tree, want: seq<Option<Value>>, start: Key, done: seq<bool>, s: Sst, l: int, i: int)
    requires |t.levels| == NUM_LEVELS && 0 <= l < NUM_LEVELS && 0 < i <= |t.levels[l]|
    requires s == t.levels[l][i - 1] && WellFormed(s)
    requires want == Answers(t, start, |done|)
    requires Searched(t, start, done, l, i)
    ensures Offers(want, start, done, s.records)
  {
    forall n | 0 <= n < |s.records| && 0 <= s.records[n].key - start < |done| && !done[s.records[n].key - start]
      ensures want[s.records[n].key - start] == Some(Newest(s.records[n].value))
    {
      LookupAt(s.records, n);
      assert Unfound(t, start + (s.records[n].key - start), l, i);
      FoundNext(t, s.records[n].key, l, i);
    }
  }

  lemma ServedUnfound(t: Tree, start: Key, was: seq<bool>, done: seq<bool>, s: Sst, l: int, i: int)
    requires |t.levels| == NUM_LEVELS && 0 <= l < NUM_LEVELS && 0 < i <= |t.levels[l]|
    requires s == t.levels[l][i - 1] && |was| == |done|
    requires Searched(t, start, was, l, i)
    requires forall n :: 0 <= n < |was| && was[n] ==> done[n]
    requires NoneOpen(start, done, s.records, |s.records|)
    ensures Searched(t, start, done, l, i - 1)
  {
    forall n | 0 <= n < |done| && !done[n] ensures Unfound(t, start + n, l, i - 1) {
      assert !was[n];
      LookupMember(s.records, start + n);
      assert forall m :: 0 <= m < |s.records| ==> s.records[m].key != start + n;
      FoundNext(t, start + n, l, i);
    }
  }

  lemma SkippedUnfound(t: Tree, start: Key, done: seq<bool>, s: Sst, l: int, i: int, lo: Key, hi: Key)
    requires |t.levels| == NUM_LEVELS && 0 <= l < NUM_LEVELS && 0 < i <= |t.levels[l]|
    requires s == t.levels[l][i - 1] && WellFormed(s) && !OverlapsRange(s, lo, hi)
    requires Searched(t, start, done, l, i)
    requires forall n :: 0 <= n < |done| && !done[n] ==> lo <= start + n <= hi
    ensures Searched(t, start, done, l, i - 1)
  {
    forall n | 0 <= n < |done| && !done[n] ensures Unfound(t, start + n, l, i - 1) {
      assert Unfound(t, start + n, l, i);
      FoundNext(t, start + n, l, i);
      FoundWithin(s, start + n);
    }
  }

  method ServeLevel(ctx: RangeQueryCtx, level: seq<Sst>, l: int, ghost t: Tree, ghost want: seq<Option<Value>>, ghost init: seq<bool>)
    requires ctx.Valid() && !ctx.IsCompleted()
    requires Answering(want, ctx.start, init, ctx.done, ctx.res) && want == Answers(t, ctx.start, |ctx.done|)
    requires |t.levels| == NUM_LEVELS && 0 <= l < NUM_LEVELS && level == t.levels[l] && AllWellFormed(level)
    requires Searched(t, ctx.start, ctx.done, l, |level|)
    modifies ctx
    ensures ctx.Valid() && |ctx.done| == |old(ctx.done)|
    ensures Answering(want, ctx.start, init, ctx.done, ctx.res)
    ensures ctx.IsCompleted() || Searched(t, ctx.start, ctx.done, l, 0)
  {
    var i := |level|;
    while i > 0 && !ctx.IsCompleted()
      invariant 0 <= i <= |level|
      invariant ctx.Valid() && |ctx.done| == |old(ctx.done)|
      invariant Answering(want, ctx.start, init, ctx.done, ctx.res)
      invariant Searched(t, ctx.start, ctx.done, l, i)
      decreases i
    {
      ServeTable(ctx, level[i - 1], l, i, t, want, init);
      i := i - 1;
    }
  }

  /** The records of a memtable in key order. */
  method ServeMem(ctx: RangeQueryCtx, m: Mem, ghost want: seq<Option<Value>>, ghost init: seq<bool>)
    requires ctx.Valid() && !ctx.IsCompleted()
    requires Answering(want, ctx.start, init, ctx.done, ctx.res)
    requires MemOffers(want, ctx.start, ctx.done, m)
    modifies ctx
    ensures ctx.Valid()
    ensures Answering(want, ctx.start, init, ctx.done, ctx.res)
    ensures forall i :: 0 <= i < |ctx.done| && old(ctx.done)[i] ==> ctx.done[i]
    ensures forall i :: 0 <= i < |ctx.done| && !ctx.done[i] ==> ctx.start + i !in m.table
  {
    var rs := Cook(m.table);
    CookOffers(want, ctx.start, ctx.done, m);
    ServeFrom(ctx, rs, want, init);
    forall i | 0 <= i < |ctx.done| && !ctx.done[i] ensures ctx.start + i !in m.table {
      CookLookup(m.table, ctx.start + i);
      LookupMember(rs, ctx.start + i);
    }
  }

  ghost predicate MemOffers(want: seq<Option<Value>>, start: Key, done: seq<bool>, m: Mem)
    requires |done| == |want|
  {
    forall i :: 0 <= i < |done| && !done[i] && start + i in m.table ==> want[i] == Some(Newest(m.table[start + i]))
  }

  lemma CookOffers(want: seq<Option<Value>>, start: Key, done: seq<bool>, m: Mem)
    requires |done| == |want| && MemOffers(want, start, done, m)
    ensures Offers(want, start, done, Cook(m.table))
  {
    var rs := Cook(m.table);
    forall i | 0 <= i < |rs| && 0 <= rs[i].key - start < |done| && !done[rs[i].key - start]
      ensures want[rs[i].key - start] == Some(Newest(rs[i].value))
    {
      LookupAt(rs, i);
      CookLookup(m.table, rs[i].key);
      assert start + (rs[i].key - start) == rs[i].key;
    }
  }

  lemma MutableOffers(t: Tree, start: Key, done: seq<bool>)
    ensures MemOffers(Answers(t, start, |done|), start, done, t.mut)
  {
    forall i | 0 <= i < |done| && !done[i] && start + i in t.mut.table
      ensures Latest(t, start + i) == Some(Newest(t.mut.table[start + i]))
    {
      ColumnTop(t, start + i);
    }
  }

  ghost predicate ImmutableAnswers(t: Tree) {
    forall k :: k !in t.mut.table && k in t.imm.table ==> Latest(t, k) == Some(Newest(t.imm.table[k]))
  }

  lemma ImmutableReads(t: Tree)
    requires Inv(t)
    ensures ImmutableAnswers(t)
  {
    forall k | k !in t.mut.table && k in t.imm.table ensures Latest(t, k) == Some(Newest(t.imm.table[k])) {
      ImmutableRead(t, k);
    }
  }

  lemma ImmutableOffers(t: Tree, start: Key, done: seq<bool>)
    requires ImmutableAnswers(t)
    requires forall i :: 0 <= i < |done| && !done[i] ==> start + i !in t.mut.table
    ensures MemOffers(Answers(t, start, |done|), start, done, t.imm)
  {
    forall i | 0 <= i < |done| && !done[i] && start + i in t.imm.table
      ensures Latest(t, start + i) == Some(Newest(t.imm.table[start + i]))
    {
      assert start + i !in t.mut.table;
    }
  }

  lemma ImmutableRead(t: Tree, k: Key)
    requires Inv(t) && k !in t.mut.table && k in t.imm.table
    ensures Latest(t, k) == Some(Newest(t.imm.table[k]))
  {
    if t.pending {
      assert Column(t, k)[0] == Entry(t.imm.table[k], t.imm.syncId);
    } else {
      ShadowRead(t, k);
    }
  }

  /** `get_range`: succeeds exactly when every open key exists; then each slot that was open has one
      result, equal to what `get` returns for its key. */
  method GetRange(tree: TxLsmTree, ctx: RangeQueryCtx) returns (ok: bool)
    requires tree.Valid() && ctx.Valid() && !ctx.IsCompleted() && ctx.res == []
    modifies ctx
    ensures ctx.Valid() && ok == ctx.IsCompleted()
    ensures Answering(Answers(tree.State(), ctx.start, |old(ctx.done)|), ctx.start, old(ctx.done), ctx.done, ctx.res)
    ensures ok <==> forall i :: 0 <= i < |old(ctx.done)| && !old(ctx.done)[i] ==>
              Answers(tree.State(), ctx.start, |old(ctx.done)|)[i].Some?
  {
    hide Answering, MemOffers, Searched;
    ghost var t := tree.State();
    ghost var init := ctx.done;
    ghost var want := Answers(t, ctx.start, |init|);
    MutableOffers(t, ctx.start, ctx.done);
    ServeMem(ctx, tree.mutable.State(), want, init);
    if !ctx.IsCompleted() {
      ImmutableReads(t);
      ImmutableOffers(t, ctx.start, ctx.done);
      ServeMem(ctx, tree.immutable.State(), want, init);
    }
    assert forall l :: 0 <= l < NUM_LEVELS ==> LevelOk(t.levels[l], t.master, t.nextId);
    if !ctx.IsCompleted() { ServeLevels(ctx, tree.levels, t, want, init); }
    ok := ctx.IsCompleted();
    AnsweredAll(want, ctx.start, init, ctx.done, ctx.res, ok);
  }

  method ServeLevels(ctx: RangeQueryCtx, levels: seq<seq<Sst>>, ghost t: Tree, ghost want: seq<Option<Value>>, ghost init: seq<bool>)
    requires ctx.Valid() && !ctx.IsCompleted()
    requires Answering(want, ctx.start, init, ctx.done, ctx.res) && want == Answers(t, ctx.start, |ctx.done|)
    requires levels == t.levels && |levels| == NUM_LEVELS
    requires forall l :: 0 <= l < NUM_LEVELS ==> AllWellFormed(levels[l])
    requires forall n :: 0 <= n < |ctx.done| && !ctx.done[n] ==> MemParts(t, ctx.start + n) == []
    modifies ctx
    ensures ctx.Valid() && |ctx.done| == |old(ctx.done)|
    ensures Answering(want, ctx.start, init, ctx.done, ctx.res)
    ensures ctx.IsCompleted() || forall n :: 0 <= n < |ctx.done| && !ctx.done[n] ==> want[n] == None
  {
    var l := 0;
    StartSearch(t, ctx.start, ctx.done);
    while l < NUM_LEVELS
      invariant 0 <= l <= NUM_LEVELS
      invariant ctx.Valid() && |ctx.done| == |old(ctx.done)| && !ctx.IsCompleted()
      invariant Answering(want, ctx.start, init, ctx.done, ctx.res)
      invariant l < NUM_LEVELS ==> Searched(t, ctx.start, ctx.done, l, |levels[l]|)
      invariant l == NUM_LEVELS ==> Searched(t, ctx.start, ctx.done, NUM_LEVELS - 1, 0)
    {
      ServeLevel(ctx, levels[l], l, t, want, init);
      if ctx.IsCompleted() { return; }
      NextLevel(t, ctx.start, ctx.done, l);
      l := l + 1;
    }
    EndSearch(t, ctx.start, ctx.done);
  }

  lemma StartSearch(t: Tree, start: Key, done: seq<bool>)
    requires |t.levels| == NUM_LEVELS
    requires forall n :: 0 <= n < |done| && !done[n] ==> MemParts(t, start + n) == []
    ensures Searched(t, start, done, 0, |t.levels[0]|)
  {
    assert t.levels[0][|t.levels[0]|..] == [];
  }

  lemma EndSearch(t: Tree, start: Key, done: seq<bool>)
    requires |t.levels| == NUM_LEVELS && Searched(t, start, done, NUM_LEVELS - 1, 0)
    ensures forall n :: 0 <= n < |done| && !done[n] ==> Answers(t, start, |done|)[n] == None
  {
    forall n | 0 <= n < |done| && !done[n] ensures Answers(t, start, |done|)[n] == None {
      assert Unfound(t, start + n, NUM_LEVELS - 1, 0);
      NowhereFound(t, start + n);
    }
  }

  lemma NextLevel(t: Tree, start: Key, done: seq<bool>, l: int)
    requires |t.levels| == NUM_LEVELS && 0 <= l < NUM_LEVELS
    requires Searched(t, start, done, l, 0)
    ensures l + 1 < NUM_LEVELS ==> Searched(t, start, done, l + 1, |t.levels[l + 1]|)
  {
    if l + 1 < NUM_LEVELS {
      forall n | 0 <= n < |done| && !done[n] ensures Unfound(t, start + n, l + 1, |t.levels[l + 1]|) {
        assert Unfound(t, start + n, l, 0);
        LevelSearched(t, start + n, l);
      }
    }
  }

  lemma AnsweredAll(want: seq<Option<Value>>, start: Key, init: seq<bool>, done: seq<bool>, res: seq<(Key, Value)>, ok: bool)
    requires Answering(want, start, init, done, res)
    requires ok <==> forall i :: 0 <= i < |done| ==> done[i]
    requires ok || forall n :: 0 <= n < |done| && !done[n] ==> want[n] == None
    ensures ok <==> forall i :: 0 <= i < |init| && !init[i] ==> want[i].Some?
  {
    if ok {
      forall i | 0 <= i < |init| && !init[i] ensures want[i].Some? {
        assert HasResult(res, start + i);
        var n :| 0 <= n < |res| && res[n].0 == start + i;
        assert RightResult(want, start, init, done, res[n]);
      }
    } else {
      var i :| 0 <= i < |done| && !done[i];
      assert want[i] == None;
    }
  }
}
