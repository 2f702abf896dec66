/** The transactional chunk allocator of chunk.rs. Operations of any number of open transactions may
    interleave in any order. */
module ChunkAllocs {
  import opened Common
  import opened Records

  datatype ChunkEdit = Alloc | Dealloc

  /** Who a chunk belongs to. A chunk that an open transaction gave back is nobody else's yet. */
  datatype Status = Free | Committed | Allocated(tx: int) | Freeing(tx: int)

  /** Number of zero bits. */
  function Zeros(bits: seq<bool>): nat {
    if bits == [] then 0 else Zeros(bits[..|bits| - 1]) + if bits[|bits| - 1] then 0 else 1
  }

  lemma {:induction false} ZerosSet(bits: seq<bool>, i: nat, b: bool)
    requires i < |bits| && bits[i] != b
    ensures Zeros(bits[i := b]) == if b then Zeros(bits) - 1 else Zeros(bits) + 1
  {
    var n := |bits| - 1;
    if i < n {
      ZerosSet(bits[..n], i, b);
      assert bits[i := b][..n] == bits[..n][i := b];
    } else {
      assert bits[i := b][..n] == bits[..n];
    }
  }

  lemma {:induction false} NoZero(bits: seq<bool>)
    ensures Zeros(bits) == 0 <==> forall i :: 0 <= i < |bits| ==> bits[i]
  {
    if bits != [] {
      NoZero(bits[..|bits| - 1]);
      assert forall i :: 0 <= i < |bits| - 1 ==> bits[..|bits| - 1][i] == bits[i];
    }
  }

  lemma {:induction false} AllZeros(n: nat)
    ensures Zeros(seq(n, _ => false)) == n
  {
    if n > 0 {
      AllZeros(n - 1);
      assert seq(n, _ => false)[..n - 1] == seq(n - 1, _ => false);
    }
  }

  method FirstZero(bits: seq<bool>, from: nat) returns (r: Option<nat>)
    requires from <= |bits|
    ensures r.Some? ==> from <= r.value < |bits| && !bits[r.value]
    ensures forall i :: from <= i < (if r.Some? then r.value else |bits|) ==> bits[i]
  {
    var i := from;
    while i < |bits|
      invariant from <= i <= |bits|
      invariant forall j :: from <= j < i ==> bits[j]
    {
      if !bits[i] { return Some(i); }
      i := i + 1;
    }
    r := None;
  }

  predicate Recorded(edits: map<int, map<Key, ChunkEdit>>, tx: int, id: Key) {
    tx in edits && id in edits[tx]
  }

  /** Edits and ownership say the same. */
  ghost predicate Agree(edits: map<int, map<Key, ChunkEdit>>, status: seq<Status>) {
    && (forall tx, id :: Recorded(edits, tx, id) ==> 0 <= id < |status| && status[id] == StatusOf(tx, edits[tx][id]))
    && (forall id :: 0 <= id < |status| && (status[id].Allocated? || status[id].Freeing?) ==>
          Recorded(edits, status[id].tx, id))
  }

  function StatusOf(tx: int, e: ChunkEdit): Status {
    if e.Alloc? then Allocated(tx) else Freeing(tx)
  }

  lemma RecordEdit(edits: map<int, map<Key, ChunkEdit>>, status: seq<Status>, tx: int, id: Key, e: ChunkEdit)
    requires Agree(edits, status) && tx in edits && 0 <= id < |status| && (status[id].Free? || status[id].Committed?)
    ensures !Recorded(edits, tx, id)
    ensures Agree(edits[tx := edits[tx][id := e]], status[id := StatusOf(tx, e)])
  {
    var edits', status' := edits[tx := edits[tx][id := e]], status[id := StatusOf(tx, e)];
    forall t, i | Recorded(edits', t, i)
      ensures 0 <= i < |status'| && status'[i] == StatusOf(t, edits'[t][i])
    {
      if i != id || t != tx { assert Recorded(edits, t, i); }
    }
  }

  lemma EraseEdit(edits: map<int, map<Key, ChunkEdit>>, status: seq<Status>, tx: int, id: Key)
    requires Agree(edits, status) && tx in edits && 0 <= id < |status| && status[id] == Allocated(tx)
    ensures id in edits[tx] && edits[tx][id] == Alloc
    ensures Agree(edits[tx := edits[tx] - {id}], status[id := Free])
  {
    var edits', status' := edits[tx := edits[tx] - {id}], status[id := Free];
    forall t, i | Recorded(edits', t, i)
      ensures 0 <= i < |status'| && status'[i] == StatusOf(t, edits'[t][i])
    {
      assert Recorded(edits, t, i);
    }
  }

  ghost predicate Marks(allocMap: seq<bool>, status: seq<Status>) {
    |allocMap| == |status| && forall id :: 0 <= id < |status| ==> (allocMap[id] <==> !status[id].Free?)
  }

  /** The chunk is the first free one from the hint on, or the first of all if there is none. */
  ghost predicate NextZero(bits: seq<bool>, hint: nat, id: nat) {
    && id < |bits| && !bits[id]
    && if id >= hint then forall i :: hint <= i < id ==> bits[i]
       else (forall i :: 0 <= i < id || hint <= i < |bits| ==> bits[i])
  }

  class ChunkAlloc {
    var allocMap: seq<bool>
    var freeCount: nat
    var nextFree: nat
    /** The edit tables of the open transactions. */
    var edits: map<int, map<Key, ChunkEdit>>
    ghost var status: seq<Status>

    ghost predicate Valid()
      reads this
    {
      && Marks(allocMap, status) && Agree(edits, status)
      && nextFree <= |allocMap| && freeCount == Zeros(allocMap)
    }

    constructor (capacity: nat)
      ensures Valid() && status == seq(capacity, _ => Free) && edits == map[] && nextFree == 0
    {
      allocMap, freeCount, nextFree, edits := seq(capacity, _ => false), capacity, 0, map[];
      status := seq(capacity, _ => Free);
      new;
      AllZeros(capacity);
    }

    method NewTx(tx: int)
      requires Valid() && tx !in edits
      modifies this`edits
      ensures Valid() && edits == old(edits)[tx := map[]]
    {
      edits := edits[tx := map[]];
    }

    /** `ChunkAllocState::alloc`: the next zero bit, searched from the cursor and then from the front. It
        fails, by a panic, exactly when no chunk is free. */
    method TakeBit() returns (r: Option<nat>)
      requires Valid()
      modifies this`allocMap, this`freeCount, this`nextFree
      ensures r.Some? <==> old(freeCount) > 0
      ensures r.None? ==> unchanged(this)
      ensures r.Some? ==> freeCount == old(freeCount) - 1
      ensures r.Some? ==> r.value < |old(allocMap)| && !old(allocMap)[r.value] && allocMap == old(allocMap)[r.value := true]
      ensures r.Some? ==> freeCount == Zeros(allocMap) && nextFree == r.value + 1
      ensures r.Some? ==> NextZero(old(allocMap), old(nextFree), r.value)
    {
      NoZero(allocMap);
      var from := if nextFree == |allocMap| then 0 else nextFree;
      r := FirstZero(allocMap, from);
      if r.None? {
        r := FirstZero(allocMap, 0);
        if r.None? { return; }
      }
      ZerosSet(allocMap, r.value, true);
      allocMap := allocMap[r.value := true];
      freeCount := freeCount - 1;
      nextFree := r.value + 1;
    }

    /** `ChunkAllocState::dealloc`. */
    method ClearBit(id: nat)
      requires id < |allocMap| && allocMap[id] && freeCount == Zeros(allocMap)
      modifies this`allocMap, this`freeCount
      ensures allocMap == old(allocMap)[id := false] && freeCount == Zeros(allocMap)
    {
      ZerosSet(allocMap, id, false);
      allocMap := allocMap[id := false];
      freeCount := freeCount + 1;
    }

    /** A free chunk becomes the transaction's own. No edit can be on record for it. */
    method AllocChunk(tx: int) returns (r: Option<nat>)
      requires Valid() && tx in edits
      modifies this
      ensures Valid() && edits.Keys == old(edits).Keys
      ensures r.None? <==> forall i :: 0 <= i < |old(status)| ==> !old(status)[i].Free?
      ensures r.None? ==> status == old(status)
      ensures r.Some? ==> freeCount == old(freeCount) - 1
      ensures r.Some? ==> r.value < |old(status)| && old(status)[r.value].Free? && status == old(status)[r.value := Allocated(tx)]
      ensures r.Some? ==> NextZero(old(allocMap), old(nextFree), r.value) && nextFree == r.value + 1
    {
      NoZero(allocMap);
      r := TakeBit();
      if r.None? { return; }
      RecordEdit(edits, status, tx, r.value, Alloc);
      assert r.value !in edits[tx];
      status := status[r.value := Allocated(tx)];
      edits := edits[tx := edits[tx][r.value := Alloc]];
    }

    /** `dealloc`: a chunk allocated by the same transaction is free at once; a committed chunk becomes
        free only when the transaction commits. */
    method DeallocChunk(tx: int, id: nat)
      requires Valid() && tx in edits
      requires id < |status| && (status[id] == Committed || status[id] == Allocated(tx))
      modifies this
      ensures Valid() && edits.Keys == old(edits).Keys
      ensures status == old(status)[id := if old(status)[id] == Committed then Freeing(tx) else Free] && nextFree == old(nextFree)
    {
      if id !in edits[tx] {
        RecordEdit(edits, status, tx, id, Dealloc);
        edits := edits[tx := edits[tx][id := Dealloc]];
        status := status[id := Freeing(tx)];
      } else {
        EraseEdit(edits, status, tx, id);
        edits := edits[tx := edits[tx] - {id}];
        ClearBit(id);
        status := status[id := Free];
      }
    }

    /** `alloc_batch`: distinct free chunks in ascending order, or a panic when there are too few. */
    method AllocBatch(tx: int, count: nat) returns (r: Option<seq<Key>>)
      requires Valid() && tx in edits
      modifies this
      ensures Valid() && edits.Keys == old(edits).Keys
      ensures r.Some? <==> count <= old(freeCount)
      ensures r.Some? ==> |r.value| == count && freeCount == old(freeCount) - count
      ensures r.Some? ==> forall i, j :: 0 <= i < j < count ==> r.value[i] < r.value[j]
      ensures r.Some? ==> TakenBy(old(status), status, tx, r.value)
      ensures Grabbed(old(status), status, tx)
    {
      var ids: set<Key> := {};
      ghost var was := status;
      while |ids| < count
        invariant Valid() && edits.Keys == old(edits).Keys && tx in edits
        invariant |ids| <= count && |status| == |was|
        invariant freeCount + |ids| == old(freeCount)
        invariant forall i :: 0 <= i < |status| ==> status[i] == if i in ids then Allocated(tx) else was[i]
        invariant forall i :: i in ids ==> 0 <= i < |was| && was[i].Free?
        decreases count - |ids|
      {
        NoZero(allocMap);
        var id := AllocChunk(tx);
        if id.None? { return None; }
        ids := ids + {id.value};
      }
      SortedKeysLength(ids);
      var ks := SortedKeys(ids);
      forall i | i in ids ensures i in ks { SortedKeysComplete(ids, i); }
      r := Some(ks);
    }

    /** The commit handler: pending frees take effect, allocations become permanent. */
    method Commit(tx: int)
      requires Valid() && tx in edits
      modifies this
      ensures Valid() && edits == old(edits) - {tx}
      ensures Ended(old(status), status, tx, Committed, Free) && nextFree == old(nextFree)
    {
      Finish(tx, Dealloc);
    }

    /** The abort handler: exactly the transaction's live allocations are released. */
    method AbortTx(tx: int)
      requires Valid() && tx in edits
      modifies this
      ensures Valid() && edits == old(edits) - {tx}
      ensures Ended(old(status), status, tx, Free, Committed) && nextFree == old(nextFree)
    {
      Finish(tx, Alloc);
    }

    /** Clears the bits of one kind of edit and closes the transaction. */
    method Finish(tx: int, kind: ChunkEdit)
      requires Valid() && tx in edits
      modifies this
      ensures Valid() && edits == old(edits) - {tx}
      ensures Ended(old(status), status, tx, if kind.Alloc? then Free else Committed, if kind.Alloc? then Committed else Free)
      ensures nextFree == old(nextFree)
    {
      var table := edits[tx];
      var ids := set id | id in table && table[id] == kind;
      forall id | id in ids ensures 0 <= id < |allocMap| && allocMap[id] { assert Recorded(edits, tx, id); }
      ClearAll(ids);
      var allocs, deallocs := if kind.Alloc? then Free else Committed, if kind.Alloc? then Committed else Free;
      CloseTx(edits, status, tx, allocs, deallocs);
      CloseMarks(edits, status, tx, kind, ids);
      status := End(status, tx, allocs, deallocs);
      edits := edits - {tx};
    }

    method ClearAll(ids: set<Key>)
      requires forall id :: id in ids ==> 0 <= id < |allocMap| && allocMap[id]
      requires freeCount == Zeros(allocMap)
      modifies this`allocMap, this`freeCount
      ensures freeCount == Zeros(allocMap) && |allocMap| == |old(allocMap)|
      ensures forall i :: 0 <= i < |allocMap| ==> (allocMap[i] <==> old(allocMap)[i] && i !in ids)
    {
      var ks := SortedKeys(ids);
      ghost var bits := allocMap;
      var n := 0;
      while n < |ks|
        invariant 0 <= n <= |ks| && |allocMap| == |bits| && freeCount == Zeros(allocMap)
        invariant forall i :: 0 <= i < |bits| ==> (allocMap[i] <==> bits[i] && i !in ks[..n])
      {
        assert ks[n] in ids && ks[n] !in ks[..n];
        assert ks[..n + 1] == ks[..n] + [ks[n]];
        ClearBit(ks[n]);
        n := n + 1;
      }
      assert ks[..n] == ks;
      forall i | i in ids ensures i in ks { SortedKeysComplete(ids, i); }
    }
  }

  lemma CloseMarks(edits: map<int, map<Key, ChunkEdit>>, status: seq<Status>, tx: int, kind: ChunkEdit, ids: set<Key>)
    requires Agree(edits, status) && tx in edits
    requires ids == set id | id in edits[tx] && edits[tx][id] == kind
    ensures forall i :: 0 <= i < |status| ==> (i in ids <==> status[i] == StatusOf(tx, kind))
  {
    forall i | 0 <= i < |status| ensures i in ids <==> status[i] == StatusOf(tx, kind) {
      assert i in ids ==> Recorded(edits, tx, i);
    }
  }

  /** Only free chunks changed hands, to `tx`. */
  ghost predicate Grabbed(before: seq<Status>, after: seq<Status>, tx: int) {
    && |after| == |before|
    && forall i :: 0 <= i < |before| ==> after[i] == before[i] || (before[i].Free? && after[i] == Allocated(tx))
  }

  /** `ids` went from free to allocated by `tx`, nothing else changed. */
  ghost predicate TakenBy(before: seq<Status>, after: seq<Status>, tx: int, ids: seq<Key>) {
    && |after| == |before|
    && (forall n :: 0 <= n < |ids| ==> 0 <= ids[n] < |before| && before[ids[n]].Free?)
    && forall i :: 0 <= i < |before| ==> after[i] == if i in ids then Allocated(tx) else before[i]
  }

  /** Ownership after `tx` ends: its allocations and its pending frees are settled, nothing else changes. */
  ghost predicate Ended(before: seq<Status>, after: seq<Status>, tx: int, allocs: Status, deallocs: Status) {
    && |after| == |before|
    && forall i :: 0 <= i < |before| ==>
         after[i] == if before[i] == Allocated(tx) then allocs else if before[i] == Freeing(tx) then deallocs else before[i]
  }

  function End(status: seq<Status>, tx: int, allocs: Status, deallocs: Status): (r: seq<Status>)
    ensures Ended(status, r, tx, allocs, deallocs)
  {
    seq(|status|, i requires 0 <= i < |status| =>
      if status[i] == Allocated(tx) then allocs else if status[i] == Freeing(tx) then deallocs else status[i])
  }

  lemma CloseTx(edits: map<int, map<Key, ChunkEdit>>, status: seq<Status>, tx: int, allocs: Status, deallocs: Status)
    requires Agree(edits, status) && tx in edits
    requires (allocs.Free? || allocs.Committed?) && (deallocs.Free? || deallocs.Committed?)
    ensures Agree(edits - {tx}, End(status, tx, allocs, deallocs))
  {
    var edits', status' := edits - {tx}, End(status, tx, allocs, deallocs);
    forall t, i | Recorded(edits', t, i)
      ensures 0 <= i < |status'| && status'[i] == StatusOf(t, edits'[t][i])
    {
      assert Recorded(edits, t, i);
    }
  }
}
