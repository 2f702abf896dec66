/** The compaction merge of compaction.rs: two key-sorted record streams, the newer one above the
    older one, become a run of key-sorted tables of bounded size. */
module Compaction {
  import opened Common
  import opened Records

  /** Every pair of equal keys falls in a handled arm. */
  ghost predicate Mergeable(upper: seq<Record>, lower: seq<Record>) {
    forall i, j :: 0 <= i < |upper| && 0 <= j < |lower| && upper[i].key == lower[j].key ==>
      Handled(upper[i].value, lower[j].value)
  }

  /** The upper stream is ahead in the merge: its next record goes first. */
  predicate TakeUpper(upper: seq<Record>, lower: seq<Record>, i: nat, j: nat) {
    i < |upper| && (j >= |lower| || upper[i].key < lower[j].key)
  }

  predicate TakeLower(upper: seq<Record>, lower: seq<Record>, i: nat, j: nat) {
    j < |lower| && (i >= |upper| || lower[j].key < upper[i].key)
  }

  predicate Done(upper: seq<Record>, lower: seq<Record>, i: nat, j: nat) {
    i >= |upper| && j >= |lower|
  }

  /** The merged stream from positions `i` and `j` on. */
  ghost function MergeFrom(upper: seq<Record>, lower: seq<Record>, i: nat, j: nat): seq<Record>
    requires i <= |upper| && j <= |lower| && Mergeable(upper, lower)
    decreases |upper| - i + |lower| - j
  {
    if Done(upper, lower, i, j) then []
    else if TakeUpper(upper, lower, i, j) then [upper[i]] + MergeFrom(upper, lower, i + 1, j)
    else if TakeLower(upper, lower, i, j) then [lower[j]] + MergeFrom(upper, lower, i, j + 1)
    else [Record(upper[i].key, CompactValue(upper[i].value, lower[j].value).0)]
         + MergeFrom(upper, lower, i + 1, j + 1)
  }

  /** What merging from positions `i` and `j` on reports as dropped. */
  ghost function DropFrom(upper: seq<Record>, lower: seq<Record>, i: nat, j: nat): seq<Drop>
    requires i <= |upper| && j <= |lower| && Mergeable(upper, lower)
    decreases |upper| - i + |lower| - j
  {
    if Done(upper, lower, i, j) then []
    else if TakeUpper(upper, lower, i, j) then DropFrom(upper, lower, i + 1, j)
    else if TakeLower(upper, lower, i, j) then DropFrom(upper, lower, i, j + 1)
    else OptionDrop(upper[i].key, CompactValue(upper[i].value, lower[j].value).1)
         + DropFrom(upper, lower, i + 1, j + 1)
  }

  ghost function Merge(upper: seq<Record>, lower: seq<Record>): seq<Record>
    requires Mergeable(upper, lower)
  {
    MergeFrom(upper, lower, 0, 0)
  }

  ghost function MergeDrops(upper: seq<Record>, lower: seq<Record>): seq<Drop>
    requires Mergeable(upper, lower)
  {
    DropFrom(upper, lower, 0, 0)
  }

  // ---- What the merge means: an independent, per-key reading ---------------------------------

  /** A newer and an older entry, either possibly missing, that a merge can combine. */
  predicate HandledPair(newer: Option<ValueEx>, older: Option<ValueEx>) {
    newer.Some? && older.Some? ==> Handled(newer.value, older.value)
  }

  /** Newer entry over older entry under one key. */
  function Over(newer: Option<ValueEx>, older: Option<ValueEx>): Option<ValueEx>
    requires HandledPair(newer, older)
  {
    if newer.None? then older
    else if older.None? then newer
    else Some(CompactValue(newer.value, older.value).0)
  }

  function OverDrop(newer: Option<ValueEx>, older: Option<ValueEx>): Option<Value>
    requires HandledPair(newer, older)
  {
    if newer.Some? && older.Some? then CompactValue(newer.value, older.value).1 else None
  }

  /** No key below `k` is left from index `i` on. */
  ghost predicate FromKey(rs: seq<Record>, i: nat, k: Key) {
    forall n :: i <= n < |rs| ==> rs[n].key >= k
  }

  lemma MergeableAt(upper: seq<Record>, lower: seq<Record>, i: nat, j: nat, k: Key)
    requires i <= |upper| && j <= |lower| && Mergeable(upper, lower)
    ensures HandledPair(LookupFrom(upper, i, k), LookupFrom(lower, j, k))
  {
    LookupFromMember(upper, i, k);
    LookupFromMember(lower, j, k);
  }

  lemma LookupCons(r: Record, rs: seq<Record>, k: Key)
    ensures Lookup([r] + rs, k) == if r.key == k then Some(r.value) else Lookup(rs, k)
  {
    LookupTail(r, rs, 0, k);
  }

  lemma {:induction false} LookupTail(r: Record, rs: seq<Record>, i: nat, k: Key)
    ensures LookupFrom([r] + rs, i + 1, k) == LookupFrom(rs, i, k)
    decreases |rs| - i
  {
    if i < |rs| { LookupTail(r, rs, i + 1, k); }
  }

  /** The merge yields, key by key, the newer entry over the older one. */
  lemma {:induction false} MergeFromLookup(upper: seq<Record>, lower: seq<Record>, i: nat, j: nat, k: Key)
    requires Sorted(upper) && Sorted(lower) && Mergeable(upper, lower)
    requires i <= |upper| && j <= |lower|
    ensures HandledPair(LookupFrom(upper, i, k), LookupFrom(lower, j, k))
    ensures Lookup(MergeFrom(upper, lower, i, j), k) == Over(LookupFrom(upper, i, k), LookupFrom(lower, j, k))
    decreases |upper| - i + |lower| - j
  {
    MergeableAt(upper, lower, i, j, k);
    if Done(upper, lower, i, j) {
    } else if TakeUpper(upper, lower, i, j) {
      MergeFromLookup(upper, lower, i + 1, j, k);
      LookupCons(upper[i], MergeFrom(upper, lower, i + 1, j), k);
      if k == upper[i].key { LookupBelow(lower, j, k); }
    } else if TakeLower(upper, lower, i, j) {
      MergeFromLookup(upper, lower, i, j + 1, k);
      LookupCons(lower[j], MergeFrom(upper, lower, i, j + 1), k);
      if k == lower[j].key { LookupBelow(upper, i, k); }
    } else {
      MergeFromLookup(upper, lower, i + 1, j + 1, k);
      LookupCons(Record(upper[i].key, CompactValue(upper[i].value, lower[j].value).0),
                 MergeFrom(upper, lower, i + 1, j + 1), k);
    }
  }

  /** The merge drops, key by key, exactly the loser of an equal-key pair. */
  lemma {:induction false} DropFromCount(
      upper: seq<Record>, lower: seq<Record>, i: nat, j: nat, k: Key, v: Value)
    requires Sorted(upper) && Sorted(lower) && Mergeable(upper, lower)
    requires i <= |upper| && j <= |lower|
    ensures HandledPair(LookupFrom(upper, i, k), LookupFrom(lower, j, k))
    ensures Drops(DropFrom(upper, lower, i, j), k, v) ==
            OptionUses(OverDrop(LookupFrom(upper, i, k), LookupFrom(lower, j, k)), v)
    decreases |upper| - i + |lower| - j
  {
    MergeableAt(upper, lower, i, j, k);
    if Done(upper, lower, i, j) {
    } else if TakeUpper(upper, lower, i, j) {
      DropFromCount(upper, lower, i + 1, j, k, v);
      if k == upper[i].key { LookupBelow(lower, j, k); }
    } else if TakeLower(upper, lower, i, j) {
      DropFromCount(upper, lower, i, j + 1, k, v);
      if k == lower[j].key { LookupBelow(upper, i, k); }
    } else {
      DropFromCount(upper, lower, i + 1, j + 1, k, v);
      var d := CompactValue(upper[i].value, lower[j].value).1;
      DropsConcat(OptionDrop(upper[i].key, d), DropFrom(upper, lower, i + 1, j + 1), k, v);
      OptionDrops(upper[i].key, d, k, v);
      if k == upper[i].key {
        BelowNext(upper, i);
        BelowNext(lower, j);
      }
    }
  }

  lemma BelowNext(rs: seq<Record>, i: nat)
    requires Sorted(rs) && i < |rs|
    ensures LookupFrom(rs, i + 1, rs[i].key).None?
  {
    LookupBelow(rs, i + 1, rs[i].key);
  }

  /** The merge is strictly sorted and emits no key below what its inputs still hold. */
  lemma {:induction false} MergeFromSorted(upper: seq<Record>, lower: seq<Record>, i: nat, j: nat, k: Key)
    requires Sorted(upper) && Sorted(lower) && Mergeable(upper, lower)
    requires i <= |upper| && j <= |lower|
    requires FromKey(upper, i, k) && FromKey(lower, j, k)
    ensures Sorted(MergeFrom(upper, lower, i, j))
    ensures FromKey(MergeFrom(upper, lower, i, j), 0, k)
    ensures MergeFrom(upper, lower, i, j) == [] <==> Done(upper, lower, i, j)
    decreases |upper| - i + |lower| - j
  {
    if Done(upper, lower, i, j) {
    } else if TakeUpper(upper, lower, i, j) {
      MergeFromSorted(upper, lower, i + 1, j, upper[i].key + 1);
      SortedCons(upper[i], MergeFrom(upper, lower, i + 1, j));
    } else if TakeLower(upper, lower, i, j) {
      MergeFromSorted(upper, lower, i, j + 1, lower[j].key + 1);
      SortedCons(lower[j], MergeFrom(upper, lower, i, j + 1));
    } else {
      MergeFromSorted(upper, lower, i + 1, j + 1, upper[i].key + 1);
      SortedCons(Record(upper[i].key, CompactValue(upper[i].value, lower[j].value).0),
                 MergeFrom(upper, lower, i + 1, j + 1));
    }
  }

  lemma SortedCons(r: Record, rest: seq<Record>)
    requires Sorted(rest) && FromKey(rest, 0, r.key + 1)
    ensures Sorted([r] + rest)
    ensures FromKey([r] + rest, 0, r.key)
  {
  }

  /** A key no input record is below. */
  ghost function LowKey(upper: seq<Record>, lower: seq<Record>): (k: Key)
    requires Sorted(upper) && Sorted(lower)
    ensures FromKey(upper, 0, k) && FromKey(lower, 0, k)
  {
    if upper == [] then (if lower == [] then 0 else lower[0].key)
    else if lower == [] || upper[0].key < lower[0].key then upper[0].key
    else lower[0].key
  }

  /** What compacting two sorted streams keeps under one key. */
  lemma MergePreserves(upper: seq<Record>, lower: seq<Record>, k: Key)
    requires Sorted(upper) && Sorted(lower) && Mergeable(upper, lower)
    ensures Sorted(Merge(upper, lower))
    ensures HandledPair(Lookup(upper, k), Lookup(lower, k))
    ensures Lookup(Merge(upper, lower), k) == Over(Lookup(upper, k), Lookup(lower, k))
    ensures Merge(upper, lower) == [] <==> upper == [] && lower == []
  {
    MergeFromSorted(upper, lower, 0, 0, LowKey(upper, lower));
    MergeFromLookup(upper, lower, 0, 0, k);
  }

  function UsesOpt(e: Option<ValueEx>, v: Value): nat {
    if e.Some? then Uses(e.value, v) else 0
  }

  /** Values in equal values out plus values dropped, key by key and value by value. */
  lemma MergeConserves(upper: seq<Record>, lower: seq<Record>, k: Key, v: Value)
    requires Sorted(upper) && Sorted(lower) && Mergeable(upper, lower)
    ensures UsesOpt(Lookup(Merge(upper, lower), k), v) + Drops(MergeDrops(upper, lower), k, v) ==
            UsesOpt(Lookup(upper, k), v) + UsesOpt(Lookup(lower, k), v)
  {
    MergePreserves(upper, lower, k);
    DropFromCount(upper, lower, 0, 0, k, v);
    var u, l := Lookup(upper, k), Lookup(lower, k);
    if u.Some? && l.Some? { CompactValueConserves(u.value, l.value, v); }
  }

  // ---- Cutting the merged stream into tables -------------------------------------------------

  /** Consecutive groups of `cap` records, the last one possibly shorter. */
  function Chunks(rs: seq<Record>, cap: nat): (cs: seq<seq<Record>>)
    requires cap > 0
  {
    if rs == [] then []
    else if |rs| <= cap then [rs]
    else [rs[..cap]] + Chunks(rs[cap..], cap)
  }

  /** All records of some tables. */
  function Unchunked(cs: seq<seq<Record>>): seq<Record> {
    if cs == [] then [] else cs[0] + Unchunked(cs[1..])
  }

  lemma {:induction false} ChunksShape(rs: seq<Record>, cap: nat)
    requires cap > 0 && Sorted(rs)
    ensures forall c :: 0 <= c < |Chunks(rs, cap)| ==>
              0 < |Chunks(rs, cap)[c]| <= cap && Sorted(Chunks(rs, cap)[c])
    ensures rs != [] ==> |Chunks(rs, cap)| > 0
    ensures forall c :: 0 <= c < |Chunks(rs, cap)| - 1 ==> |Chunks(rs, cap)[c]| == cap
    ensures Unchunked(Chunks(rs, cap)) == rs
  {
    if |rs| > cap {
      ChunksShape(rs[cap..], cap);
      var cs := Chunks(rs, cap);
      forall c | 0 <= c < |cs| ensures 0 < |cs[c]| <= cap && Sorted(cs[c]) && (c < |cs| - 1 ==> |cs[c]| == cap) {
        if c > 0 { assert cs[c] == Chunks(rs[cap..], cap)[c - 1]; }
      }
    }
  }

  lemma ChunksCons(cur: seq<Record>, rest: seq<Record>, cap: nat)
    requires cap > 0 && 0 < |cur| <= cap
    requires |cur| == cap || rest == []
    ensures Chunks(cur + rest, cap) == [cur] + Chunks(rest, cap)
  {
    if rest == [] {
      assert cur + rest == cur;
    } else {
      assert (cur + rest)[..cap] == cur && (cur + rest)[cap..] == rest;
    }
  }

  /** The merge loop: one round per emitted table. Equal keys that no arm handles are the
      source's `unreachable!()`; `Mergeable` rules them out. */
  method CompactRecords(upper: seq<Record>, lower: seq<Record>, cap: nat)
    returns (tables: seq<seq<Record>>, drops: seq<Drop>)
    requires cap > 0 && Mergeable(upper, lower)
    ensures tables == Chunks(Merge(upper, lower), cap)
    ensures drops == MergeDrops(upper, lower)
  {
    tables, drops := [], [];
    var i, j := 0, 0;
    while i < |upper| || j < |lower|
      invariant i <= |upper| && j <= |lower|
      invariant tables + Chunks(MergeFrom(upper, lower, i, j), cap) == Chunks(Merge(upper, lower), cap)
      invariant drops + DropFrom(upper, lower, i, j) == MergeDrops(upper, lower)
      decreases |upper| - i + |lower| - j
    {
      var cur, d, i', j' := NextTable(upper, lower, i, j, cap);
      ChunksCons(cur, MergeFrom(upper, lower, i', j'), cap);
      ConcatAssoc(tables, [cur], Chunks(MergeFrom(upper, lower, i', j'), cap));
      ConcatAssoc(drops, d, DropFrom(upper, lower, i', j'));
      tables, drops, i, j := tables + [cur], drops + d, i', j';
    }
    assert tables + [] == tables;
    assert drops + [] == drops;
  }

  /** One call of the record iterator: the next record, its drop, and how far each stream moved. */
  method NextRecord(upper: seq<Record>, lower: seq<Record>, i0: nat, j0: nat)
    returns (r: Record, drops: seq<Drop>, i: nat, j: nat)
    requires Mergeable(upper, lower)
    requires i0 <= |upper| && j0 <= |lower| && !Done(upper, lower, i0, j0)
    ensures i0 <= i <= |upper| && j0 <= j <= |lower| && i + j > i0 + j0
    ensures MergeFrom(upper, lower, i0, j0) == [r] + MergeFrom(upper, lower, i, j)
    ensures DropFrom(upper, lower, i0, j0) == drops + DropFrom(upper, lower, i, j)
  {
    i, j, drops := i0, j0, [];
    if TakeUpper(upper, lower, i, j) {
      r, i := upper[i], i + 1;
    } else if TakeLower(upper, lower, i, j) {
      r, j := lower[j], j + 1;
    } else {
      var (v, d) := CompactValue(upper[i].value, lower[j].value);
      r, drops := Record(upper[i].key, v), OptionDrop(upper[i].key, d);
      i, j := i + 1, j + 1;
    }
  }

  lemma ConcatAssoc<T>(a: seq<T>, b: seq<T>, c: seq<T>)
    ensures a + b + c == a + (b + c)
  {
  }

  /** The records of one table: up to `cap` of them, fewer only when both streams end. */
  method NextTable(upper: seq<Record>, lower: seq<Record>, i0: nat, j0: nat, cap: nat)
    returns (cur: seq<Record>, drops: seq<Drop>, i: nat, j: nat)
    requires cap > 0 && Mergeable(upper, lower)
    requires i0 <= |upper| && j0 <= |lower| && (i0 < |upper| || j0 < |lower|)
    ensures i0 <= i <= |upper| && j0 <= j <= |lower| && i + j > i0 + j0
    ensures 0 < |cur| <= cap
    ensures |cur| == cap || Done(upper, lower, i, j)
    ensures cur + MergeFrom(upper, lower, i, j) == MergeFrom(upper, lower, i0, j0)
    ensures drops + DropFrom(upper, lower, i, j) == DropFrom(upper, lower, i0, j0)
  {
    cur, drops, i, j := [], [], i0, j0;
    assert [] + MergeFrom(upper, lower, i, j) == MergeFrom(upper, lower, i, j);
    assert [] + DropFrom(upper, lower, i, j) == DropFrom(upper, lower, i, j);
    while |cur| != cap && (i < |upper| || j < |lower|)
      invariant i0 <= i <= |upper| && j0 <= j <= |lower|
      invariant |cur| <= cap
      invariant cur == [] ==> i == i0 && j == j0
      invariant cur != [] ==> i + j > i0 + j0
      invariant cur + MergeFrom(upper, lower, i, j) == MergeFrom(upper, lower, i0, j0)
      invariant drops + DropFrom(upper, lower, i, j) == DropFrom(upper, lower, i0, j0)
      decreases |upper| - i + |lower| - j
    {
      var r, d, i', j' := NextRecord(upper, lower, i, j);
      ConcatAssoc(cur, [r], MergeFrom(upper, lower, i', j'));
      ConcatAssoc(drops, d, DropFrom(upper, lower, i', j'));
      cur, drops, i, j := cur + [r], drops + d, i', j';
    }
  }
}
