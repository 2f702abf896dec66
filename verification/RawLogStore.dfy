/** The store of raw logs of raw_log.rs, for transactions that run one after the other. */
module RawLogStores {
  import opened Common
  import opened Arithmetic
  import opened RawLogAddress
  import opened ChunkAllocs
  import opened RawLogs

  function HeadOf(heads: map<int, Head>, id: int): Head {
    if id in heads then heads[id] else Head([], 0)
  }

  /** Every log as the running transaction sees it: head and tail together. */
  function View(heads: map<int, Head>, tails: map<int, Tail>): map<int, Head> {
    map id | id in heads.Keys + tails.Keys :: if id in tails then Whole(HeadOf(heads, id), tails[id]) else heads[id]
  }

  ghost predicate Shapely(heads: map<int, Head>, tails: map<int, Tail>) {
    && (forall id :: id in heads ==> Fitting(heads[id]))
    && (forall id :: id in tails ==> Continues(HeadOf(heads, id), tails[id]))
  }

  /** No chunk occurs twice, in one log or in two. */
  ghost predicate Separate(view: map<int, Head>) {
    forall a, b, i, j :: a in view && b in view && 0 <= i < |view[a].chunks| && 0 <= j < |view[b].chunks| ==>
      view[a].chunks[i] == view[b].chunks[j] ==> a == b && i == j
  }

  ghost predicate AllAre(chunks: seq<int>, status: seq<Status>, s: Status) {
    forall i :: 0 <= i < |chunks| ==> 0 <= chunks[i] < |status| && status[chunks[i]] == s
  }

  /** Head chunks are committed, tail chunks belong to the running transaction. */
  ghost predicate Owned(heads: map<int, Head>, tails: map<int, Tail>, status: seq<Status>, tx: Option<int>) {
    && (forall id :: id in heads ==> AllAre(heads[id].chunks, status, Committed))
    && (forall id :: id in tails ==> tx.Some? && AllAre(tails[id].chunks, status, Allocated(tx.value)))
  }

  /** The disk holds the appended blocks of every log. */
  ghost predicate Shows(disk: DiskMap, view: map<int, Head>, content: map<int, seq<Block>>) {
    && content.Keys == view.Keys
    && forall id :: id in view ==> |content[id]| == view[id].numBlocks && Stored(disk, view[id].chunks, content[id])
  }

  /** What was committed is the beginning of what is there now. */
  ghost predicate Extends(heads: map<int, Head>, committed: map<int, seq<Block>>, content: map<int, seq<Block>>) {
    && committed.Keys == heads.Keys
    && forall id :: id in heads ==> id in content && committed[id] <= content[id] && |committed[id]| == heads[id].numBlocks
  }

  lemma ViewTail(heads: map<int, Head>, tails: map<int, Tail>, id: int, t: Tail)
    ensures View(heads, tails[id := t]) == View(heads, tails)[id := Whole(HeadOf(heads, id), t)]
  {
  }

  /** New chunks were free, so they are in no log. */
  lemma NewChunks(heads: map<int, Head>, tails: map<int, Tail>, status: seq<Status>, tx: Option<int>, a: int, i: int)
    requires Owned(heads, tails, status, tx) && a in View(heads, tails) && 0 <= i < |View(heads, tails)[a].chunks|
    ensures 0 <= View(heads, tails)[a].chunks[i] < |status| && !status[View(heads, tails)[a].chunks[i]].Free?
  {
    var h := HeadOf(heads, a);
    if i < |h.chunks| {
      assert AllAre(heads[a].chunks, status, Committed);
    } else {
      assert AllAre(tails[a].chunks, status, Allocated(tx.value));
      assert View(heads, tails)[a].chunks[i] == tails[a].chunks[i - |h.chunks|];
    }
  }

  lemma SeparateAppend(view: map<int, Head>, id: int, more: seq<int>, n: nat)
    requires Separate(view) && id in view && NoRepeat(more)
    requires forall a, i, j :: a in view && 0 <= i < |view[a].chunks| && 0 <= j < |more| ==> view[a].chunks[i] != more[j]
    ensures Separate(view[id := Head(view[id].chunks + more, n)])
  {
  }

  lemma SeparateNoRepeat(view: map<int, Head>, id: int)
    requires Separate(view) && id in view
    ensures NoRepeat(view[id].chunks)
  {
  }

  /** Other logs are not touched by an append. */
  lemma ShowsAppend(disk: DiskMap, view: map<int, Head>, content: map<int, seq<Block>>, id: int, more: seq<int>, addrs: seq<int>, blocks: seq<Block>)
    requires Shows(disk, view, content) && id in view && |addrs| == |blocks|
    requires Separate(view[id := Head(view[id].chunks + more, view[id].numBlocks + |blocks|)])
    requires Addressed(view[id].chunks + more, view[id].numBlocks, addrs)
    ensures Shows(WriteEach(disk, addrs, blocks, |addrs|), view[id := Head(view[id].chunks + more, view[id].numBlocks + |blocks|)],
                  content[id := content[id] + blocks])
  {
    var view' := view[id := Head(view[id].chunks + more, view[id].numBlocks + |blocks|)];
    SeparateNoRepeat(view', id);
    StoredAppend(disk, view[id].chunks, more, content[id], addrs, blocks);
    forall a | a in view && a != id ensures Stored(WriteEach(disk, addrs, blocks, |addrs|), view[a].chunks, content[a]) {
      forall i, j | 0 <= i < |view'[id].chunks| && 0 <= j < |view[a].chunks| ensures view'[id].chunks[i] != view[a].chunks[j] {
        assert view'[a] == view[a];
      }
      StoredOther(disk, view'[id].chunks, view[id].numBlocks, addrs, blocks, view[a].chunks, content[a]);
    }
  }

  datatype OpenResult = Opened | NotFound | HasWriter

  class RawLogStore {
    const alloc: ChunkAlloc
    var disk: DiskMap
    var heads: map<int, Head>
    /** The edits of the running transaction: the tails of the logs it created or opened to append. */
    var tails: map<int, Tail>
    var tx: Option<int>
    var nextId: int
    /** Logs that some handle may append to. */
    var writeSet: set<int>
    ghost var committed: map<int, seq<Block>>
    ghost var content: map<int, seq<Block>>

    ghost predicate Valid()
      reads this, alloc
    {
      && alloc.Valid() && (tx.Some? ==> tx.value in alloc.edits)
      && (tx.None? ==> tails == map[])
      && Shapely(heads, tails) && Owned(heads, tails, alloc.status, tx)
      && Separate(View(heads, tails))
      && Shows(disk, View(heads, tails), content)
      && Extends(heads, committed, content)
      && (forall id :: id in heads || id in tails || id in writeSet ==> id < nextId)
    }

    constructor (nchunks: nat)
      ensures Valid() && fresh(alloc) && content == map[] && committed == map[] && tx == None
    {
      alloc := new ChunkAlloc(nchunks);
      disk, heads, tails, tx, nextId, writeSet := map[], map[], map[], None, 0, {};
      committed, content := map[], map[];
    }

    method BeginTx(t: int)
      requires Valid() && tx.None? && t !in alloc.edits
      modifies this`tx, alloc
      ensures Valid() && tx == Some(t) && alloc.edits == old(alloc.edits)[t := map[]] && alloc.status == old(alloc.status)
    {
      alloc.NewTx(t);
      tx := Some(t);
    }

    /** A new, empty log under a new ID. */
    method CreateLog() returns (id: int)
      requires Valid() && tx.Some?
      modifies this`tails, this`nextId, this`writeSet, this`content
      ensures Valid() && id !in old(content) && content == old(content)[id := []]
      ensures id in tails && id !in old(writeSet) && writeSet == old(writeSet) + {id}
    {
      id := nextId;
      nextId := nextId + 1;
      writeSet := writeSet + {id};
      var t := Tail(0, 0, [], 0);
      ViewTail(heads, tails, id, t);
      EmptyLog();
      tails := tails[id := t];
      content := content[id := []];
    }

    /** A log can be opened once it is committed, by any number of readers and by one writer at a time.
        Opening it to append starts a tail behind the head, unless the transaction has one already. */
    method OpenLog(id: int, canAppend: bool) returns (r: OpenResult)
      requires Valid() && tx.Some?
      modifies this`tails, this`writeSet
      ensures Valid()
      ensures r == if id !in heads then NotFound else if canAppend && id in old(writeSet) then HasWriter else Opened
      ensures r.Opened? && canAppend ==> id in tails && writeSet == old(writeSet) + {id}
      ensures tails == if id in tails then old(tails)[id := tails[id]] else old(tails)
      ensures !r.Opened? || !canAppend ==> tails == old(tails) && writeSet == old(writeSet)
    {
      if id !in heads { return NotFound; }
      if !canAppend { return Opened; }
      if id in writeSet { return HasWriter; }
      writeSet := writeSet + {id};
      r := Opened;
      if id in tails { return; }
      FromHeadContinues(heads[id]);
      ViewTail(heads, tails, id, FromHead(heads[id]));
      assert View(heads, tails)[id := heads[id]] == View(heads, tails);
      tails := tails[id := FromHead(heads[id])];
    }

    /** Dropping a handle that may append. */
    method CloseLog(id: int)
      requires Valid()
      modifies this`writeSet
      ensures Valid() && writeSet == old(writeSet) - {id}
    {
      writeSet := writeSet - {id};
    }

    /** `append`: new chunks as needed, then the blocks at the tail's addresses. It fails, by the
        allocator's panic, exactly when it needs more chunks than are free, and then changes no log. */
    method Append(id: int, blocks: seq<Block>) returns (ok: bool)
      requires Valid() && tx.Some? && id in tails && |blocks| > 0
      modifies this`disk, this`tails, this`content, alloc
      ensures Valid() && tails.Keys == old(tails).Keys
      ensures content == if ok then old(content)[id := old(content)[id] + blocks] else old(content)
      ensures ok <==> NeededChunks(old(tails)[id], |blocks|) <= old(alloc.freeCount)
      ensures ok ==> alloc.freeCount == old(alloc.freeCount) - NeededChunks(old(tails)[id], |blocks|)
    {
      var ok', more := GrowTail(id, |blocks|);
      if !ok' { return false; }
      WriteTail(id, more, blocks);
      ok := true;
    }

    /** The chunks for `n` more blocks. */
    method GrowTail(id: int, n: nat) returns (ok: bool, more: seq<int>)
      requires Valid() && tx.Some? && id in tails
      modifies alloc
      ensures alloc.Valid() && alloc.edits.Keys == old(alloc.edits).Keys
      ensures tails[id].numBlocks <= tails[id].lastFree + |tails[id].chunks| * CHUNK_NBLOCKS
      ensures ok ==> |more| == NeededChunks(tails[id], n) && NoRepeat(more) && AllAre(more, alloc.status, Allocated(tx.value))
      ensures ok ==> forall a, i, j :: a in View(heads, tails) && 0 <= i < |View(heads, tails)[a].chunks| && 0 <= j < |more| ==>
                View(heads, tails)[a].chunks[i] != more[j]
      ensures Owned(heads, tails, alloc.status, tx)
      ensures ok <==> NeededChunks(tails[id], n) <= old(alloc.freeCount)
      ensures ok ==> alloc.freeCount == old(alloc.freeCount) - NeededChunks(tails[id], n)
    {
      TailSpace(HeadOf(heads, id), tails[id]);
      var need := NeededChunks(tails[id], n);
      ok, more := true, [];
      if need > 0 {
        ghost var was := alloc.status;
        var r := alloc.AllocBatch(tx.value, need);
        OwnedGrabbed(heads, tails, was, alloc.status, tx);
        if r.None? { return false, []; }
        more := r.value;
        NotInView(heads, tails, was, tx, more);
      }
    }

    method WriteTail(id: int, more: seq<int>, blocks: seq<Block>)
      requires Valid() && id in tails && tx.Some? && |blocks| > 0
      requires tails[id].numBlocks <= tails[id].lastFree + |tails[id].chunks| * CHUNK_NBLOCKS
      requires |more| == NeededChunks(tails[id], |blocks|) && NoRepeat(more) && AllAre(more, alloc.status, Allocated(tx.value))
      requires forall a, i, j :: a in View(heads, tails) && 0 <= i < |View(heads, tails)[a].chunks| && 0 <= j < |more| ==>
                View(heads, tails)[a].chunks[i] != more[j]
      modifies this`disk, this`tails, this`content
      ensures Valid() && tails.Keys == old(tails).Keys
      ensures content == old(content)[id := old(content)[id] + blocks]
    {
      hide Separate, Shows, Owned, Extends, Shapely, View, Stored, Addressed, AllAre, NoRepeat;
      var n := |blocks|;
      ghost var view, h := View(heads, tails), HeadOf(heads, id);
      ViewOf(heads, tails, id);
      ShownLog(disk, view, content, id);
      ShapelyTail(heads, tails, id);
      NeededFits(h, tails[id], n, more);
      var t := tails[id].(chunks := tails[id].chunks + more);
      ghost var t' := t.(numBlocks := t.numBlocks + n);
      TailSpace(h, t');
      var addrs := PrepareTail(t, t.numBlocks, n);
      TailAddresses(h, tails[id], more, n, addrs);
      ghost var before := disk;
      disk := WriteBatch(disk, addrs, blocks);
      SeparateAppend(view, id, more, view[id].numBlocks + n);
      ShowsAppend(before, view, content, id, more, addrs, blocks);
      ViewTail(heads, tails, id, t');
      assert h.chunks + (tails[id].chunks + more) == h.chunks + tails[id].chunks + more;
      TailKeeps(heads, tails, alloc.status, tx, committed, content, id, t', more, blocks);
      tails := tails[id := t.(numBlocks := t.numBlocks + n)];
      content := content[id := content[id] + blocks];
    }

    /** `read`: first from the head, then from the tail. Block `i` of a log is the `i`-th block ever
        appended to it, no matter which transactions appended it. */
    method Read(id: int, pos: nat, n: nat) returns (r: Option<seq<Block>>)
      requires Valid() && n > 0 && (id in heads || id in tails)
      ensures r == if pos + n <= |content[id]| then Some(content[id][pos..pos + n]) else None
    {
      hide Separate, Shows, Owned, Extends, Shapely, View, Stored, Addressed;
      var h := HeadOf(heads, id);
      ghost var view := View(heads, tails);
      ViewEither(heads, tails, id);
      ShownLog(disk, view, content, id);
      var tailLen := if id in tails then tails[id].numBlocks else 0;
      if pos + n > h.numBlocks + tailLen { return None; }
      var first := if pos < h.numBlocks then (if n < h.numBlocks - pos then n else h.numBlocks - pos) else 0;
      var out: seq<Block> := [];
      if first > 0 { out := ReadHead(id, pos, first); }
      if first == n {
        assert content[id][pos..pos + first] == content[id][pos..pos + n];
        return Some(out);
      }
      var rest := ReadTail(id, pos + first - h.numBlocks, n - first);
      assert content[id][pos..pos + first] + content[id][pos + first..pos + n] == content[id][pos..pos + n];
      r := Some(out + rest);
    }

    method ReadHead(id: int, pos: nat, n: nat) returns (out: seq<Block>)
      requires Valid() && id in heads && n > 0 && pos + n <= heads[id].numBlocks
      ensures id in content && pos + n <= |content[id]| && out == content[id][pos..pos + n]
    {
      ViewEither(heads, tails, id);
      FittingSpace(heads[id]);
      ghost var all := View(heads, tails)[id].chunks;
      var addrs := PrepareHead(heads[id].chunks, pos, n);
      forall k | 0 <= k < n ensures addrs[k] == HeadAddr(all, pos + k) {
        HeadAddrStable(heads[id].chunks, all[|heads[id].chunks|..], pos + k);
        assert heads[id].chunks + all[|heads[id].chunks|..] == all;
      }
      out := ReadBatch(disk, addrs);
    }

    method ReadTail(id: int, offset: nat, n: nat) returns (out: seq<Block>)
      requires Valid() && id in tails && n > 0 && offset + n <= tails[id].numBlocks
      ensures id in content && HeadOf(heads, id).numBlocks + offset + n <= |content[id]|
      ensures out == content[id][HeadOf(heads, id).numBlocks + offset..HeadOf(heads, id).numBlocks + offset + n]
    {
      ghost var h := HeadOf(heads, id);
      ViewOf(heads, tails, id);
      TailSpace(h, tails[id]);
      var addrs := PrepareTail(tails[id], offset, n);
      forall k | 0 <= k < n ensures addrs[k] == HeadAddr(h.chunks + tails[id].chunks, h.numBlocks + offset + k) {
        AddressesAgree(h, tails[id], offset + k);
      }
      out := ReadBatch(disk, addrs);
    }

    /** Commit: tails become part of their heads, in place. */
    method CommitTx()
      requires Valid() && tx.Some?
      modifies this`heads, this`tails, this`tx, this`committed, alloc
      ensures Valid() && tx == None && committed == content && alloc.edits == old(alloc.edits) - {old(tx).value}
      ensures Ended(old(alloc.status), alloc.status, old(tx).value, Committed, Free)
    {
      ghost var was := alloc.status;
      alloc.Commit(tx.value);
      OwnedCommit(heads, tails, was, alloc.status, tx.value);
      CommitView(heads, tails);
      heads, tails, tx := View(heads, tails), map[], None;
      committed := content;
    }

    /** Abort: every log is as at the last commit, and the chunks of all tails are free again. */
    method AbortTx()
      requires Valid() && tx.Some?
      modifies this`tails, this`tx, this`content, alloc
      ensures Valid() && tx == None && content == committed && alloc.edits == old(alloc.edits) - {old(tx).value}
      ensures Ended(old(alloc.status), alloc.status, old(tx).value, Free, Committed)
    {
      ghost var was := alloc.status;
      alloc.AbortTx(tx.value);
      OwnedAbort(heads, tails, was, alloc.status, tx.value);
      AbortView(disk, heads, tails, committed, content);
      tails, tx := map[], None;
      content := committed;
    }
  }

  lemma ViewEither(heads: map<int, Head>, tails: map<int, Tail>, id: int)
    requires id in heads || id in tails
    ensures id in View(heads, tails)
    ensures View(heads, tails)[id] == if id in tails then Whole(HeadOf(heads, id), tails[id]) else heads[id]
    ensures HeadOf(heads, id).chunks <= View(heads, tails)[id].chunks
  {
  }

  lemma OwnedCommit(heads: map<int, Head>, tails: map<int, Tail>, before: seq<Status>, after: seq<Status>, tx: int)
    requires Owned(heads, tails, before, Some(tx)) && Ended(before, after, tx, Committed, Free)
    ensures Owned(View(heads, tails), map[], after, None)
  {
    forall id | id in View(heads, tails) ensures AllAre(View(heads, tails)[id].chunks, after, Committed) {
      if id in heads { assert AllAre(heads[id].chunks, before, Committed); }
      if id in tails { assert AllAre(tails[id].chunks, before, Allocated(tx)); }
    }
  }

  lemma CommitView(heads: map<int, Head>, tails: map<int, Tail>)
    requires Shapely(heads, tails)
    ensures View(View(heads, tails), map[]) == View(heads, tails)
    ensures Shapely(View(heads, tails), map[])
  {
  }

  lemma OwnedAbort(heads: map<int, Head>, tails: map<int, Tail>, before: seq<Status>, after: seq<Status>, tx: int)
    requires Owned(heads, tails, before, Some(tx)) && Ended(before, after, tx, Free, Committed)
    ensures Owned(heads, map[], after, None)
  {
    forall id | id in heads ensures AllAre(heads[id].chunks, after, Committed) {
      assert AllAre(heads[id].chunks, before, Committed);
    }
  }

  /** The committed part of every log is still in place. */
  lemma AbortView(disk: DiskMap, heads: map<int, Head>, tails: map<int, Tail>, committed: map<int, seq<Block>>, content: map<int, seq<Block>>)
    requires Shapely(heads, tails) && Separate(View(heads, tails))
    requires Shows(disk, View(heads, tails), content) && Extends(heads, committed, content)
    ensures View(heads, map[]) == heads && Separate(heads) && Shows(disk, heads, committed)
    ensures Extends(heads, committed, committed)
  {
    var view := View(heads, tails);
    assert View(heads, map[]) == heads;
    forall id | id in heads ensures heads[id].chunks <= view[id].chunks { ViewEither(heads, tails, id); }
    forall a, b, i, j | a in heads && b in heads && 0 <= i < |heads[a].chunks| && 0 <= j < |heads[b].chunks|
      ensures heads[a].chunks[i] == heads[b].chunks[j] ==> a == b && i == j
    {
      assert view[a].chunks[i] == heads[a].chunks[i] && view[b].chunks[j] == heads[b].chunks[j];
    }
    forall id | id in heads ensures Stored(disk, heads[id].chunks, committed[id]) {
      var n := |heads[id].chunks|;
      assert heads[id].chunks + view[id].chunks[n..] == view[id].chunks;
      FittingSpace(heads[id]);
      StoredPrefix(disk, heads[id].chunks, view[id].chunks[n..], content[id], heads[id].numBlocks);
      assert content[id][..heads[id].numBlocks] == committed[id];
    }
  }

  lemma ViewOf(heads: map<int, Head>, tails: map<int, Tail>, id: int)
    requires id in tails
    ensures id in View(heads, tails) && View(heads, tails)[id] == Whole(HeadOf(heads, id), tails[id])
  {
  }

  lemma ShownLog(disk: DiskMap, view: map<int, Head>, content: map<int, seq<Block>>, id: int)
    requires Shows(disk, view, content) && id in view
    ensures id in content && |content[id]| == view[id].numBlocks && Stored(disk, view[id].chunks, content[id])
  {
  }

  lemma ShapelyTail(heads: map<int, Head>, tails: map<int, Tail>, id: int)
    requires Shapely(heads, tails) && id in tails
    ensures Continues(HeadOf(heads, id), tails[id])
  {
  }

  lemma TailKeeps(heads: map<int, Head>, tails: map<int, Tail>, status: seq<Status>, tx: Option<int>,
                  committed: map<int, seq<Block>>, content: map<int, seq<Block>>, id: int, t: Tail, more: seq<int>, blocks: seq<Block>)
    requires Shapely(heads, tails) && Owned(heads, tails, status, tx) && Extends(heads, committed, content)
    requires id in tails && id in content && tx.Some?
    requires Continues(HeadOf(heads, id), t) && t.chunks == tails[id].chunks + more && AllAre(more, status, Allocated(tx.value))
    ensures Shapely(heads, tails[id := t]) && Owned(heads, tails[id := t], status, tx)
    ensures Extends(heads, committed, content[id := content[id] + blocks])
  {
    assert AllAre(tails[id].chunks, status, Allocated(tx.value));
  }

  /** The addresses a grown tail hands out continue the log. */
  lemma TailAddresses(h: Head, t: Tail, more: seq<int>, n: nat, addrs: seq<int>)
    requires Continues(h, t) && Continues(h, t.(chunks := t.chunks + more, numBlocks := t.numBlocks + n))
    requires |addrs| == n && t.numBlocks + n <= t.lastFree + |t.chunks + more| * CHUNK_NBLOCKS
    requires forall k :: 0 <= k < n ==> addrs[k] == TailAddr(t.(chunks := t.chunks + more), t.numBlocks + k)
    ensures Addressed(h.chunks + t.chunks + more, h.numBlocks + t.numBlocks, addrs)
  {
    hide HeadAddr;
    var t' := t.(chunks := t.chunks + more, numBlocks := t.numBlocks + n);
    var all, from := h.chunks + t.chunks + more, h.numBlocks + t.numBlocks;
    TailSpace(h, t');
    assert h.chunks + t'.chunks == all;
    forall k | 0 <= k < n ensures addrs[k] == HeadAddr(all, from + k) {
      AddressesAgree(h, t', t.numBlocks + k);
      SameAddr(t.(chunks := t.chunks + more), t', t.numBlocks + k);
    }
  }

  lemma SameAddr(t: Tail, u: Tail, j: nat)
    requires u.lastChunk == t.lastChunk && u.lastFree == t.lastFree && u.chunks == t.chunks
    requires j < t.lastFree + |t.chunks| * CHUNK_NBLOCKS
    ensures TailAddr(t, j) == TailAddr(u, j)
  {
  }

  lemma OwnedGrabbed(heads: map<int, Head>, tails: map<int, Tail>, before: seq<Status>, after: seq<Status>, tx: Option<int>)
    requires tx.Some? && Owned(heads, tails, before, tx) && Grabbed(before, after, tx.value)
    ensures Owned(heads, tails, after, tx)
  {
    forall id | id in heads ensures AllAre(heads[id].chunks, after, Committed) {
      assert AllAre(heads[id].chunks, before, Committed);
    }
    forall id | id in tails ensures AllAre(tails[id].chunks, after, Allocated(tx.value)) {
      assert AllAre(tails[id].chunks, before, Allocated(tx.value));
    }
  }

  lemma NotInView(heads: map<int, Head>, tails: map<int, Tail>, status: seq<Status>, tx: Option<int>, more: seq<int>)
    requires Owned(heads, tails, status, tx) && AllAre(more, status, Free)
    ensures forall a, i, j :: a in View(heads, tails) && 0 <= i < |View(heads, tails)[a].chunks| && 0 <= j < |more| ==>
              View(heads, tails)[a].chunks[i] != more[j]
  {
    var view := View(heads, tails);
    forall a, i, j | a in view && 0 <= i < |view[a].chunks| && 0 <= j < |more| ensures view[a].chunks[i] != more[j] {
      NewChunks(heads, tails, status, tx, a, i);
    }
  }

  lemma EmptyLog()
    ensures Continues(Head([], 0), Tail(0, 0, [], 0))
    ensures Whole(Head([], 0), Tail(0, 0, [], 0)) == Head([], 0)
    ensures Stored(map[], [], [])
  {
    CeilIff(0, CHUNK_NBLOCKS, 0);
  }
}
