/** The disk of sworndisk.rs: write buffer, read cache, LSM index, block bitmap and host disk behave
    together like one map from logical block address to block. */
module SwornDisks {
  import opened Common
  import opened Records
  import opened MemTables
  import opened LsmTree
  import opened LsmInvariant
  import opened LsmSizes
  import opened TxLsmTrees
  import opened AllocTables
  import opened ReadCaches
  import opened RangeQueries
  import opened Backing

  /** Cached blocks are current. */
  ghost predicate Coherent(slots: seq<Slot>, content: map<Key, Block>) {
    forall k :: Cached(slots, k).Some? ==> k in content && content[k] == Cached(slots, k).value
  }

  /** The value recorded for a block sealed into host block `h` under a fresh key. */
  function Seal(h: int, key: int, data: Block): Value {
    Value(h, key, Encrypt(key, data).1)
  }

  /** The host block of `v` decrypts to `data`. */
  predicate SealedIn(host: map<int, Cipher>, v: Value, data: Block) {
    v.hba in host && Decrypt(host[v.hba], v.key, v.mac) == Some(data)
  }

  /** Host disk after sealing the first `i` buffered blocks. */
  function WriteAll(host: map<int, Cipher>, hbas: seq<int>, keys: seq<int>, blocks: seq<Block>, i: nat): map<int, Cipher>
    requires i <= |hbas| == |keys| == |blocks|
  {
    if i == 0 then host
    else WriteAll(host, hbas, keys, blocks, i - 1)[hbas[i - 1] := Encrypt(keys[i - 1], blocks[i - 1]).0]
  }

  lemma {:induction false} WriteAllElsewhere(host: map<int, Cipher>, hbas: seq<int>, keys: seq<int>, blocks: seq<Block>, i: nat, h: int)
    requires i <= |hbas| == |keys| == |blocks|
    requires h !in hbas
    ensures h in WriteAll(host, hbas, keys, blocks, i) <==> h in host
    ensures h in host ==> WriteAll(host, hbas, keys, blocks, i)[h] == host[h]
  {
    if i > 0 { WriteAllElsewhere(host, hbas, keys, blocks, i - 1, h); }
  }

  lemma {:induction false} WriteAllAt(host: map<int, Cipher>, hbas: seq<int>, keys: seq<int>, blocks: seq<Block>, i: nat, n: nat)
    requires n < i <= |hbas| == |keys| == |blocks|
    requires forall a, b :: 0 <= a < b < |hbas| ==> hbas[a] != hbas[b]
    ensures hbas[n] in WriteAll(host, hbas, keys, blocks, i)
    ensures WriteAll(host, hbas, keys, blocks, i)[hbas[n]] == Encrypt(keys[n], blocks[n]).0
  {
    if n < i - 1 { WriteAllAt(host, hbas, keys, blocks, i - 1, n); }
  }

  ghost function SetOf(hs: seq<int>, i: int): set<int>
    requires 0 <= i <= |hs|
  {
    set n | i <= n < |hs| :: hs[n]
  }

  /** Allocating and writing blocks nobody owns disturbs no value. */
  lemma TakeBlocks(t: Tree, host: map<int, Cipher>, bits: seq<bool>, hbas: seq<int>, keys: seq<int>, blocks: seq<Block>)
    requires Backed(t, host, bits, {})
    requires |hbas| == |keys| == |blocks| && Distinct(bits, hbas, true)
    ensures var host' := WriteAll(host, hbas, keys, blocks, |hbas|);
            && Backed(t, host', SetAll(bits, hbas, false), SetOf(hbas, 0))
            && forall k :: Stored(t, host', k) == Stored(t, host, k)
  {
    var n := |hbas|;
    var host', bits' := WriteAll(host, hbas, keys, blocks, n), SetAll(bits, hbas, false);
    forall k, v | Held(t, k, v)
      ensures !bits'[v.hba] && v.hba !in SetOf(hbas, 0) && Readable(host', v) && host'[v.hba] == host[v.hba]
    {
      SetAllAt(bits, hbas, false, v.hba);
      assert v.hba !in hbas;
      WriteAllElsewhere(host, hbas, keys, blocks, n, v.hba);
    }
    forall h | 0 <= h < |bits'| && !bits'[h] ensures h in SetOf(hbas, 0) || Owned(t, h) {
      SetAllAt(bits, hbas, false, h);
    }
    forall h | h in SetOf(hbas, 0) ensures 0 <= h < |bits'| && !bits'[h] {
      SetAllAt(bits, hbas, false, h);
    }
    forall k ensures Stored(t, host', k) == Stored(t, host, k) {
      if Latest(t, k).Some? { LatestHeld(t, k); }
    }
  }

  /** The records of a flush once `i` of them are in the tree. */
  ghost predicate Flushing(t0: Tree, t: Tree, host: map<int, Cipher>, ks: seq<Key>, blocks: seq<Block>, i: int) {
    && 0 <= i <= |ks| == |blocks|
    && (forall n :: 0 <= n < i ==> Stored(t, host, ks[n]) == Some(blocks[n]))
    && (forall k :: k !in ks[..i] ==> Stored(t, host, k) == Stored(t0, host, k))
  }

  lemma FlushedOne(t0: Tree, t: Tree, t': Tree, host: map<int, Cipher>, ks: seq<Key>, blocks: seq<Block>, i: int, v: Value)
    requires Flushing(t0, t, host, ks, blocks, i) && i < |ks|
    requires forall a, b :: 0 <= a < b < |ks| ==> ks[a] < ks[b]
    requires SealedIn(host, v, blocks[i])
    requires Overwrites(t, t', ks[i], v)
    ensures Flushing(t0, t', host, ks, blocks, i + 1)
  {
    hide Latest, Durable;
    forall k | k != ks[i] ensures Stored(t', host, k) == Stored(t, host, k) {
      assert Latest(t', k) == Latest(t, k);
    }
    assert ks[..i + 1] == ks[..i] + [ks[i]];
    forall n | 0 <= n < i + 1 ensures Stored(t', host, ks[n]) == Some(blocks[n]) {
      if n < i { assert ks[n] != ks[i]; }
    }
  }

  /** Once all buffered blocks are stored the buffer is no longer needed. */
  lemma FlushedAll(t0: Tree, t: Tree, host: map<int, Cipher>, buf: map<Key, Block>, content: map<Key, Block>, ks: seq<Key>, blocks: seq<Block>)
    requires Shows(t0, host, buf, content) && Flushing(t0, t, host, ks, blocks, |ks|)
    requires ks == SortedKeys(buf.Keys)
    requires forall n :: 0 <= n < |ks| ==> blocks[n] == buf[ks[n]]
    ensures Shows(t, host, map[], content)
  {
    assert ks[..|ks|] == ks;
    forall k ensures Stored(t, host, k) == (if k in buf then Some(buf[k]) else Stored(t0, host, k)) {
      if k in buf {
        SortedKeysComplete(buf.Keys, k);
        var n :| 0 <= n < |ks| && ks[n] == k;
      }
    }
  }

  class SwornDisk {
    const tree: TxLsmTree
    const alloc: AllocTable
    const cache: ReadCache
    const bufCap: nat
    var buf: map<Key, Block>
    var host: map<int, Cipher>
    /** The plain map this disk stands for. */
    ghost var content: map<Key, Block>

    ghost predicate Valid()
      reads this, tree, tree.mutable, tree.immutable, alloc, cache
    {
      && tree.Valid() && !AtCapacity(tree.mutable.State())
      && alloc.Valid() && cache.Valid()
      && bufCap > 0
      && Backed(tree.State(), host, alloc.bits, {})
      && Shows(tree.State(), host, buf, content)
      && Coherent(cache.slots, content)
    }

    constructor (nblocks: nat, memCap: nat, sstCap: nat, bufCap: nat, cacheCap: nat)
      requires nblocks > 0 && memCap > 0 && sstCap > 0 && bufCap > 0 && cacheCap > 0
      ensures Valid() && content == map[] && buf == map[]
      ensures fresh(tree) && fresh(tree.mutable) && fresh(tree.immutable) && fresh(alloc) && fresh(cache)
      ensures |alloc.bits| == alloc.numFree == nblocks && this.bufCap == bufCap && |cache.slots| == cacheCap
    {
      tree := new TxLsmTree(memCap, sstCap);
      alloc := new AllocTable(nblocks);
      cache := new ReadCache(cacheCap);
      this.bufCap := bufCap;
      buf, host, content := map[], map[], map[];
      new;
      NothingHeld(memCap, sstCap, nblocks);
      forall k ensures Stored(tree.State(), host, k) == None { FormatColumn(memCap, sstCap, k); }
    }

    /** Puts the record of one written block into the tree and frees every block whose value the
        tree dropped meanwhile. */
    method RecordBlock(k: Key, v: Value, ghost taken: set<int>)
      requires tree.Valid() && !AtCapacity(tree.mutable.State()) && alloc.Valid()
      requires Backed(tree.State(), host, alloc.bits, taken) && v.hba in taken && Readable(host, v)
      modifies tree, tree.mutable, tree.immutable, alloc
      ensures tree.Valid() && !AtCapacity(tree.mutable.State()) && alloc.Valid()
      ensures {tree.mutable, tree.immutable} == old({tree.mutable, tree.immutable})
      ensures Backed(tree.State(), host, alloc.bits, taken - {v.hba})
      ensures Overwrites(old(tree.State()), tree.State(), k, v)
      ensures |alloc.bits| == |old(alloc.bits)|
      ensures !SyncWouldPanic() && tree.master == old(tree.master)
    {
      ghost var t := tree.State();
      var junk: KeyRange := *;
      var ds := tree.Put(k, v, junk);
      SingleAddition(host, taken, Drop(k, v));
      FreeDropped(t, ds, taken, {Drop(k, v)});
    }

    /** The drop callbacks of one tree operation. */
    method FreeDropped(ghost t: Tree, ds: seq<Drop>, ghost taken: set<int>, ghost added: set<Drop>)
      requires alloc.Valid()
      requires Backed(t, host, alloc.bits, taken) && Addition(host, taken, added)
      requires Stepping(t, tree.State(), ds, added)
      modifies alloc
      ensures alloc.Valid() && |alloc.bits| == |old(alloc.bits)|
      ensures Backed(tree.State(), host, alloc.bits, taken - HbasOf(added))
    {
      DropsFreeable(t, tree.State(), host, alloc.bits, taken, ds, added);
      StepBacked(t, tree.State(), host, alloc.bits, taken, ds, added);
      alloc.FreeAll(Hbas(ds));
    }

    /** Background compaction at any moment: what the disk shows stays the same. */
    method Compact()
      requires Valid() && tree.pending
      modifies tree, alloc
      ensures Valid() && !tree.pending
      ensures {tree.mutable, tree.immutable} == old({tree.mutable, tree.immutable})
      ensures |tree.levels[0]| == |old(tree.levels[0])| + (if |old(tree.levels[0])| >= LEVEL0_RATIO then 0 else 1)
    {
      hide Backed, Shows, Stepping, Coherent, SameViews, Inv, Leveled;
      SixLevels(tree.State());
      ghost var t := tree.State();
      var ds := tree.Compact();
      FreeDropped(t, ds, {}, {});
      NothingTaken();
      SameShows(t, tree.State(), host, buf, content);
    }

    /** Writes the buffered blocks to fresh host blocks and records them. Fails, leaving everything as
        it was, when too few blocks are free: the source then waits for frees. */
    method Flush() returns (ok: bool)
      requires Valid()
      modifies this`buf, this`host, tree, tree.mutable, tree.immutable, alloc
      ensures Valid()
      ensures {tree.mutable, tree.immutable} == old({tree.mutable, tree.immutable})
      ensures ok <==> |old(buf)| <= old(alloc.numFree)
      ensures ok ==> buf == map[]
      ensures !ok ==> buf == old(buf) && alloc.numFree == old(alloc.numFree)
      ensures ok ==> (SyncWouldPanic() <==> old(buf) == map[] && old(SyncWouldPanic()))
      ensures tree.master == old(tree.master)
      ensures |alloc.bits| == |old(alloc.bits)|
    {
      if |buf| == 0 { return true; }
      if |buf| > alloc.numFree { return false; }
      FlushAll();
      ok := true;
    }

    method FlushAll()
      requires Valid() && 0 < |buf| <= alloc.numFree
      modifies this`buf, this`host, tree, tree.mutable, tree.immutable, alloc
      ensures Valid() && buf == map[] && !SyncWouldPanic() && tree.master == old(tree.master)
      ensures {tree.mutable, tree.immutable} == old({tree.mutable, tree.immutable})
      ensures |alloc.bits| == |old(alloc.bits)|
    {
      hide Backed, Shows, Coherent, Inv, Flushing;
      var ks := SortedKeys(buf.Keys);
      SortedKeysLength(buf.Keys);
      var blocks := BlocksOf(buf, ks);
      var values, hbas := WriteBlocks(blocks);
      ghost var t0 := tree.State();
      RecordAll(ks, values, hbas, blocks);
      FlushedAll(t0, tree.State(), host, buf, content, ks, blocks);
      buf := map[];
    }

    /** The loop of `flush_data_buf`. */
    method RecordAll(ks: seq<Key>, values: seq<Value>, ghost hbas: seq<int>, ghost blocks: seq<Block>)
      requires |ks| == |values| == |hbas| == |blocks|
      requires forall a, b :: 0 <= a < b < |ks| ==> ks[a] < ks[b]
      requires forall a, b :: 0 <= a < b < |hbas| ==> hbas[a] != hbas[b]
      requires forall i :: 0 <= i < |values| ==> values[i].hba == hbas[i] && SealedIn(host, values[i], blocks[i])
      requires tree.Valid() && !AtCapacity(tree.mutable.State()) && alloc.Valid()
      requires Backed(tree.State(), host, alloc.bits, SetOf(hbas, 0))
      modifies tree, tree.mutable, tree.immutable, alloc
      ensures tree.Valid() && !AtCapacity(tree.mutable.State()) && alloc.Valid()
      ensures {tree.mutable, tree.immutable} == old({tree.mutable, tree.immutable})
      ensures Backed(tree.State(), host, alloc.bits, {})
      ensures Flushing(old(tree.State()), tree.State(), host, ks, blocks, |ks|)
      ensures |alloc.bits| == |old(alloc.bits)|
      ensures (ks != [] ==> !SyncWouldPanic()) && tree.master == old(tree.master)
    {
      ghost var t0 := tree.State();
      assert ks[..0] == [];
      var i := 0;
      while i < |ks|
        invariant 0 <= i <= |ks|
        invariant tree.Valid() && !AtCapacity(tree.mutable.State()) && alloc.Valid()
        invariant {tree.mutable, tree.immutable} == old({tree.mutable, tree.immutable})
        invariant Backed(tree.State(), host, alloc.bits, SetOf(hbas, i))
        invariant Flushing(t0, tree.State(), host, ks, blocks, i)
        invariant |alloc.bits| == |old(alloc.bits)|
        invariant (i > 0 ==> !SyncWouldPanic()) && tree.master == old(tree.master)
      {
        ghost var t := tree.State();
        assert hbas[i] in SetOf(hbas, i);
        RecordBlock(ks[i], values[i], SetOf(hbas, i));
        FlushedOne(t0, t, tree.State(), host, ks, blocks, i, values[i]);
        SetOfNext(hbas, i);
        i := i + 1;
      }
      assert SetOf(hbas, |hbas|) == {};
    }

    /** `check_rw_args` and `write`: each block goes to the write buffer and the read cache; a full
        buffer is flushed. A flush that has to wait for free blocks stops the write there. */
    method Write(lba: nat, blocks: seq<Block>) returns (r: WriteResult)
      requires Valid() && |buf| < bufCap
      modifies this, tree, tree.mutable, tree.immutable, alloc, cache
      ensures Valid()
      ensures {tree.mutable, tree.immutable} == old({tree.mutable, tree.immutable})
      ensures |alloc.bits| == |old(alloc.bits)|
      ensures r.OutOfDisk? <==> lba + |blocks| > |old(alloc.bits)|
      ensures r.OutOfDisk? ==> content == old(content)
      ensures r.Written? ==> content == Overlay(old(content), lba, blocks, |blocks|) && |buf| < bufCap
      ensures r.Waiting? ==> r.accepted <= |blocks| && content == Overlay(old(content), lba, blocks, r.accepted)
      ensures r.Waiting? ==> |buf| >= bufCap && |buf| > alloc.numFree
      ensures !r.OutOfDisk? && |Overlay(old(buf), lba, blocks, |blocks|)| < bufCap ==>
                && r.Written? && buf == Overlay(old(buf), lba, blocks, |blocks|) && host == old(host)
                && alloc.numFree == old(alloc.numFree) && tree.State() == old(tree.State())
    {
      if lba + |blocks| > |alloc.bits| { return OutOfDisk; }
      var ok, n := WriteAllBlocks(lba, blocks);
      r := if ok then Written else Waiting(n);
    }

    method WriteAllBlocks(lba: nat, blocks: seq<Block>) returns (ok: bool, n: nat)
      requires Valid() && |buf| < bufCap
      modifies this, tree, tree.mutable, tree.immutable, alloc, cache
      ensures Valid() && n <= |blocks| && content == Overlay(old(content), lba, blocks, n)
      ensures {tree.mutable, tree.immutable} == old({tree.mutable, tree.immutable})
      ensures |alloc.bits| == |old(alloc.bits)|
      ensures ok ==> n == |blocks| && |buf| < bufCap
      ensures !ok ==> |buf| >= bufCap && |buf| > alloc.numFree
      ensures |Overlay(old(buf), lba, blocks, |blocks|)| < bufCap ==>
                && ok && buf == Overlay(old(buf), lba, blocks, |blocks|) && host == old(host)
                && alloc.numFree == old(alloc.numFree) && tree.State() == old(tree.State())
    {
      hide *;
      n, ok := 0, true;
      ghost var was := content;
      ghost var small := |Overlay(buf, lba, blocks, |blocks|)| < bufCap;
      OverlayNone(buf, lba, blocks);
      OverlayNone(was, lba, blocks);
      while ok && n < |blocks|
        invariant n <= |blocks| && content == Overlay(was, lba, blocks, n)
        invariant Valid()
        invariant {tree.mutable, tree.immutable} == old({tree.mutable, tree.immutable})
        invariant |alloc.bits| == |old(alloc.bits)|
        invariant ok ==> |buf| < bufCap
        invariant !ok ==> |buf| >= bufCap && |buf| > alloc.numFree
        invariant small ==> ok && buf == Overlay(old(buf), lba, blocks, n) && host == old(host)
        invariant small ==> alloc.numFree == old(alloc.numFree) && tree.State() == old(tree.State())
        decreases |blocks| - n
      {
        OverlayNext(was, lba, blocks, n);
        OverlayNext(old(buf), lba, blocks, n);
        OverlayGrows(old(buf), lba, blocks, n + 1, |blocks|);
        ok := WriteBlock(lba + n, blocks[n]);
        n := n + 1;
      }
    }

    /** One block of a write. */
    method WriteBlock(k: Key, b: Block) returns (ok: bool)
      requires Valid() && |buf| < bufCap
      modifies this, tree, tree.mutable, tree.immutable, alloc, cache
      ensures Valid() && content == old(content)[k := b]
      ensures {tree.mutable, tree.immutable} == old({tree.mutable, tree.immutable})
      ensures |alloc.bits| == |old(alloc.bits)|
      ensures ok ==> |buf| < bufCap
      ensures !ok ==> |buf| >= bufCap && |buf| > alloc.numFree
      ensures |old(buf)[k := b]| < bufCap ==> ok && buf == old(buf)[k := b] && host == old(host)
      ensures |old(buf)[k := b]| < bufCap ==> alloc.numFree == old(alloc.numFree) && tree.State() == old(tree.State())
      ensures |old(buf)[k := b]| >= bufCap && ok ==> buf == map[]
      ensures Cached(cache.slots, k) == Some(b) && |cache.slots| == |old(cache.slots)|
    {
      BufferBlock(k, b);
      ok := true;
      if |buf| >= bufCap { ok := Flush(); }
    }

    method BufferBlock(k: Key, b: Block)
      requires Valid()
      modifies this`buf, this`content, cache
      ensures Valid() && buf == old(buf)[k := b] && content == old(content)[k := b]
      ensures Cached(cache.slots, k) == Some(b) && |cache.slots| == |old(cache.slots)|
    {
      BufferedShows(tree.State(), host, buf, content, k, b);
      ghost var slots := cache.slots;
      buf := buf[k := b];
      cache.Put(k, b);
      StillCoherent(slots, cache.slots, content, k, b);
      content := content[k := b];
    }

    /** The next sync of the tree would meet an inverted range. */
    ghost predicate SyncWouldPanic()
      reads tree, tree.mutable, tree.immutable
      requires tree.Valid()
    {
      SyncPanics(tree.State().mut, tree.State().master + 1)
    }

    /** Flush, then sync the tree: afterwards everything the disk shows is durable in the tree. It panics
        exactly when nothing was written since a sync that left an inverted range. */
    method Sync() returns (r: SyncResult)
      requires Valid()
      modifies this`buf, this`host, tree, tree.mutable, tree.immutable, alloc
      ensures Valid()
      ensures {tree.mutable, tree.immutable} == old({tree.mutable, tree.immutable})
      ensures r.FlushWaits? <==> |old(buf)| > old(alloc.numFree)
      ensures r.SyncPanicked? <==> old(buf) == map[] && old(SyncWouldPanic())
      ensures tree.master == old(tree.master) + if r.SyncDone? then 1 else 0
      ensures r.SyncDone? ==> buf == map[] && forall k :: Durable(tree.State(), k) == Latest(tree.State(), k)
    {
      var ok := Flush();
      if !ok { return FlushWaits; }
      ok := SyncTree();
      r := if ok then SyncDone else SyncPanicked;
    }

    method SyncTree() returns (ok: bool)
      requires Valid()
      modifies tree, tree.mutable, tree.immutable, alloc
      ensures Valid()
      ensures {tree.mutable, tree.immutable} == old({tree.mutable, tree.immutable})
      ensures ok <==> !old(SyncWouldPanic())
      ensures tree.master == old(tree.master) + if ok then 1 else 0
      ensures ok ==> forall k :: Durable(tree.State(), k) == Latest(tree.State(), k)
    {
      ghost var t := tree.State();
      ok := SyncAndFree();
      if ok {
        PersistedShows(t, tree.State(), host, buf, content);
      } else {
        SameShows(t, tree.State(), host, buf, content);
      }
    }

    method SyncAndFree() returns (ok: bool)
      requires tree.Valid() && !AtCapacity(tree.mutable.State()) && alloc.Valid()
      requires Backed(tree.State(), host, alloc.bits, {})
      modifies tree, tree.mutable, tree.immutable, alloc
      ensures tree.Valid() && !AtCapacity(tree.mutable.State()) && alloc.Valid()
      ensures {tree.mutable, tree.immutable} == old({tree.mutable, tree.immutable})
      ensures Backed(tree.State(), host, alloc.bits, {})
      ensures ok <==> !old(SyncWouldPanic())
      ensures tree.master == old(tree.master) + if ok then 1 else 0
      ensures if ok then Persists(old(tree.State()), tree.State()) else SameViews(old(tree.State()), tree.State())
    {
      ghost var t := tree.State();
      var junk: KeyRange := *;
      var ds;
      ok, ds := tree.SyncAll(junk);
      FreeDropped(t, ds, {}, {});
      NothingTaken();
    }

    /** `read_one_block`: the last block written at `lba`, whichever layer serves it, or nothing if
        none was. */
    method ReadBlock(lba: Key) returns (r: Option<Block>)
      requires Valid()
      modifies cache
      ensures Valid()
      ensures r == if lba in content then Some(content[lba]) else None
      ensures r.Some? ==> Cached(cache.slots, lba) == r
      ensures r.None? || Cached(old(cache.slots), lba).Some? ==> cache.slots == old(cache.slots)
    {
      r := cache.Get(lba);
      if r.Some? { return; }
      if lba in buf {
        r := Some(buf[lba]);
        assert content[lba] == buf[lba];
      } else {
        ShownBlock(tree.State(), host, alloc.bits, buf, content, lba);
        var v := tree.Get(lba);
        if v.None? { return None; }
        r := Decrypt(host[v.value.hba], v.value.key, v.value.mac);
      }
      CacheBlock(lba, r.value);
    }

    /** `read_multi_blocks`: cache, then write buffer, then a range query on the tree. It succeeds
        exactly when every block of the range was written, and then returns the last block written at
        each address. Otherwise the error is swallowed by the caller and only the blocks that were
        cached or buffered are filled in: written blocks that live in the tree alone are not read. */
    method ReadBlocks(lba: Key, n: nat) returns (ok: bool, out: seq<Option<Block>>, ghost last: Option<Key>)
      requires Valid()
      modifies cache
      ensures Valid() && |out| == n
      ensures ok <==> AllWritten(content, lba, n)
      ensures ok ==> forall i :: 0 <= i < n ==> out[i] == Some(content[lba + i])
      ensures !ok ==> forall i :: 0 <= i < n ==>
                out[i] == if Cached(old(cache.slots), lba + i).Some? || lba + i in buf
                          then Some(content[lba + i]) else None
      ensures last.None? ==> cache.slots == old(cache.slots)
      ensures last.None? ==> forall i :: 0 <= i < n && out[i].Some? ==> Cached(old(cache.slots), lba + i).Some?
      ensures last.Some? ==> Cached(cache.slots, last.value).Some?
    {
      hide *;
      var ctx;
      ctx, out, last := ReadLocal(lba, n);
      if ctx.IsCompleted() {
        CompletedAll(ctx);
        AllFilled(out, ctx.done, lba, content);
        ok := true;
        return;
      }
      FilledIff(out, ctx.done, lba, content);
      ghost var rest;
      ok, out, rest := ReadRest(ctx, out);
      if ok { last := rest; }
    }

    /** The read cache, then the write buffer. */
    method ReadLocal(lba: Key, n: nat) returns (ctx: RangeQueryCtx, out: seq<Option<Block>>, ghost last: Option<Key>)
      requires Valid()
      modifies cache
      ensures Valid() && fresh(ctx) && ctx.Valid() && ctx.start == lba && |ctx.done| == |out| == n && ctx.res == []
      ensures Filled(out, ctx.done, lba, content)
      ensures forall i :: 0 <= i < n && ctx.done[i] ==> Cached(old(cache.slots), lba + i).Some? || lba + i in buf
      ensures !ctx.IsCompleted() ==> forall i :: 0 <= i < n ==> (ctx.done[i] <==> Cached(old(cache.slots), lba + i).Some? || lba + i in buf)
      ensures last.None? ==> cache.slots == old(cache.slots)
      ensures last.None? ==> forall i :: 0 <= i < n && out[i].Some? ==> Cached(old(cache.slots), lba + i).Some?
      ensures last.Some? ==> Cached(cache.slots, last.value).Some?
    {
      hide *;
      ctx := new RangeQueryCtx(lba, n);
      out := ReadFromCache(ctx);
      last := None;
      FilledOnly(out, ctx.done, lba, content);
      if !ctx.IsCompleted() {
        out, last := ReadFromBuffer(ctx, out);
        FilledOnly(out, ctx.done, lba, content);
      }
    }

    lemma CompletedAll(ctx: RangeQueryCtx)
      requires ctx.Valid() && ctx.IsCompleted()
      ensures forall i :: 0 <= i < |ctx.done| ==> ctx.done[i]
    {
    }

    /** What is left comes from the tree. */
    method ReadRest(ctx: RangeQueryCtx, out0: seq<Option<Block>>) returns (ok: bool, out: seq<Option<Block>>, ghost last: Option<Key>)
      requires Valid() && ctx.Valid() && !ctx.IsCompleted() && ctx.res == [] && |out0| == |ctx.done|
      requires Filled(out0, ctx.done, ctx.start, content)
      requires forall i :: 0 <= i < |out0| && !ctx.done[i] ==> ctx.start + i !in buf
      modifies cache, ctx
      ensures Valid() && |out| == |out0|
      ensures ok <==> AllWritten(content, ctx.start, |out|)
      ensures ok ==> forall i :: 0 <= i < |out| ==> ctx.start + i in content && out[i] == Some(content[ctx.start + i])
      ensures ok ==> last.Some? && Cached(cache.slots, last.value).Some?
      ensures !ok ==> out == out0 && cache.slots == old(cache.slots)
    {
      hide Backed, Shows, Coherent, Inv, Leveled, Answering, AtCapacity, Latest, ReadCache.Valid, AllocTable.Valid;
      out, last := out0, None;
      FilledOnly(out0, ctx.done, ctx.start, content);
      ghost var t := tree.State();
      ghost var init, first := ctx.done, ctx.minOpen;
      ok := GetRange(tree, ctx);
      MissingBlock(t, host, alloc.bits, buf, content, ctx.start, init, ok);
      if ok {
        ghost var m := ResultOf(ctx, init, first);
        out, last := ReadFromTree(ctx, out, init);
      }
    }

    method CacheLookup(k: Key) returns (r: Option<Block>)
      requires Valid()
      modifies cache
      ensures Valid() && cache.slots == old(cache.slots)
      ensures r == Cached(cache.slots, k)
      ensures r.Some? ==> k in content && content[k] == r.value
    {
      r := cache.Get(k);
    }

    method ReadFromCache(ctx: RangeQueryCtx) returns (out: seq<Option<Block>>)
      requires Valid() && ctx.Valid() && ctx.done == seq(|ctx.done|, _ => false) && ctx.res == []
      modifies cache, ctx
      ensures Valid() && ctx.Valid() && ctx.res == [] && |ctx.done| == |old(ctx.done)|
      ensures cache.slots == old(cache.slots)
      ensures |out| == |ctx.done| && Filled(out, ctx.done, ctx.start, content)
      ensures forall i :: 0 <= i < |out| ==> (ctx.done[i] <==> Cached(cache.slots, ctx.start + i).Some?)
    {
      hide *;
      out := seq(|ctx.done|, _ => None);
      NoneFilled(out, ctx.done, ctx.start, content);
      var i := 0;
      while i < |ctx.done|
        invariant 0 <= i <= |ctx.done| && |ctx.done| == |old(ctx.done)|
        invariant Valid() && ctx.Valid() && ctx.res == []
        invariant cache.slots == old(cache.slots)
        invariant |out| == |ctx.done| && Filled(out, ctx.done, ctx.start, content)
        invariant forall j :: 0 <= j < |out| ==> (ctx.done[j] <==> j < i && Cached(cache.slots, ctx.start + j).Some?)
      {
        var d := CacheLookup(ctx.start + i);
        if d.Some? {
          FillOne(out, ctx.done, ctx.start, content, i, d.value);
          out := out[i := d];
          ctx.MarkCompleted(ctx.start + i);
        }
        i := i + 1;
      }
    }

    method ReadFromBuffer(ctx: RangeQueryCtx, out0: seq<Option<Block>>) returns (out: seq<Option<Block>>, ghost last: Option<Key>)
      requires Valid() && ctx.Valid() && !ctx.IsCompleted() && ctx.res == []
      requires |out0| == |ctx.done| && Filled(out0, ctx.done, ctx.start, content)
      modifies cache, ctx
      ensures Valid() && ctx.Valid() && ctx.res == [] && |ctx.done| == |old(ctx.done)|
      ensures |out| == |ctx.done| && Filled(out, ctx.done, ctx.start, content)
      ensures forall i :: 0 <= i < |out| ==> (ctx.done[i] <==> old(ctx.done)[i] || ctx.start + i in buf)
      ensures last.None? ==> cache.slots == old(cache.slots) && ctx.done == old(ctx.done)
      ensures last.Some? ==> Cached(cache.slots, last.value).Some?
    {
      hide *;
      out, last := out0, None;
      var lo, hi := ctx.OpenRange();
      var ks := SortedKeys(buf.Keys);
      ghost var was := ctx.done;
      var n := 0;
      while n < |ks|
        invariant 0 <= n <= |ks| && |ctx.done| == |was|
        invariant Valid() && ctx.Valid() && ctx.res == []
        invariant |out| == |ctx.done| && Filled(out, ctx.done, ctx.start, content)
        invariant forall i :: 0 <= i < |was| ==> (was[i] ==> ctx.done[i])
        invariant forall i :: 0 <= i < |was| && ctx.done[i] ==> was[i] || ctx.start + i in buf
        invariant forall m :: 0 <= m < n && lo <= ks[m] <= hi ==> ctx.done[ks[m] - ctx.start]
        invariant last.None? ==> cache.slots == old(cache.slots) && ctx.done == was
        invariant last.Some? ==> Cached(cache.slots, last.value).Some?
      {
        var k := ks[n];
        if lo <= k <= hi {
          InBuffer(k);
          FillOne(out, ctx.done, ctx.start, content, k - ctx.start, buf[k]);
          out := out[k - ctx.start := Some(buf[k])];
          CacheBlock(k, buf[k]);
          last := Some(k);
          ctx.MarkCompleted(k);
        }
        n := n + 1;
      }
      forall i | 0 <= i < |was| && ctx.start + i in buf ensures ctx.done[i] {
        SortedKeysComplete(buf.Keys, ctx.start + i);
        var m :| 0 <= m < |ks| && ks[m] == ctx.start + i;
        if !was[i] { assert lo <= ks[m] <= hi; }
      }
    }

    method ReadFromTree(ctx: RangeQueryCtx, out0: seq<Option<Block>>, ghost init: seq<bool>)
      returns (out: seq<Option<Block>>, ghost last: Option<Key>)
      requires Valid() && ctx.Valid() && ctx.IsCompleted()
      requires |out0| == |init| && Filled(out0, init, ctx.start, content)
      requires Answering(Answers(tree.State(), ctx.start, |init|), ctx.start, init, ctx.done, ctx.res)
      requires forall i :: 0 <= i < |init| && !init[i] ==> ctx.start + i !in buf
      modifies cache
      ensures Valid() && |out| == |init|
      ensures forall i :: 0 <= i < |out| ==> ctx.start + i in content && out[i] == Some(content[ctx.start + i])
      ensures if ctx.res == [] then last == None && cache.slots == old(cache.slots)
              else last.Some? && Cached(cache.slots, last.value).Some?
    {
      hide Backed, Shows, Coherent, Inv, Answering, Filled, Latest, Stored, RightResult, HasResult, Valid;
      out, last := out0, None;
      ghost var have := init;
      var n := 0;
      while n < |ctx.res|
        invariant 0 <= n <= |ctx.res|
        invariant Valid() && |out| == |have| == |init| && Filled(out, have, ctx.start, content)
        invariant forall i :: 0 <= i < |init| && init[i] ==> have[i]
        invariant forall m :: 0 <= m < n ==> 0 <= ctx.res[m].0 - ctx.start < |have| && have[ctx.res[m].0 - ctx.start]
        invariant if n == 0 then last == None && cache.slots == old(cache.slots)
                  else last.Some? && Cached(cache.slots, last.value).Some?
      {
        var (k, v) := ctx.res[n];
        ResultShown(ctx, init, n);
        var d := Decrypt(host[v.hba], v.key, v.mac);
        FillOne(out, have, ctx.start, content, k - ctx.start, d.value);
        out := out[k - ctx.start := d];
        have := have[k - ctx.start := true];
        CacheBlock(k, d.value);
        last := Some(k);
        n := n + 1;
      }
      forall i | 0 <= i < |init| && !init[i] ensures have[i] {
        var m := ResultOf(ctx, init, i);
      }
      AllFilled(out, have, ctx.start, content);
    }

    lemma ResultShown(ctx: RangeQueryCtx, init: seq<bool>, n: nat)
      requires Valid() && n < |ctx.res|
      requires Answering(Answers(tree.State(), ctx.start, |init|), ctx.start, init, ctx.done, ctx.res)
      requires forall i :: 0 <= i < |init| && !init[i] ==> ctx.start + i !in buf
      ensures var (k, v) := ctx.res[n];
              0 <= k - ctx.start < |init| && k in content && SealedIn(host, v, content[k])
    {
      hide Backed, Shows, Coherent, Inv;
      var k := ctx.res[n].0;
      assert RightResult(Answers(tree.State(), ctx.start, |init|), ctx.start, init, ctx.done, ctx.res[n]);
      assert ctx.start + (k - ctx.start) !in buf;
      ShownBlock(tree.State(), host, alloc.bits, buf, content, k);
    }

    lemma ResultOf(ctx: RangeQueryCtx, init: seq<bool>, i: nat) returns (m: nat)
      requires ctx.Valid() && ctx.IsCompleted() && i < |init| && !init[i]
      requires Answering(Answers(tree.State(), ctx.start, |init|), ctx.start, init, ctx.done, ctx.res)
      ensures m < |ctx.res| && ctx.res[m].0 == ctx.start + i
    {
      assert HasResult(ctx.res, ctx.start + i);
      m :| m < |ctx.res| && ctx.res[m].0 == ctx.start + i;
    }

    lemma InBuffer(k: Key)
      requires Valid() && k in buf
      ensures k in content && content[k] == buf[k]
    {
    }

    method CacheBlock(k: Key, b: Block)
      requires Valid() && k in content && content[k] == b
      modifies cache
      ensures Valid() && Cached(cache.slots, k) == Some(b)
    {
      ghost var slots := cache.slots;
      cache.Put(k, b);
      StillCoherent(slots, cache.slots, content, k, b);
      assert content[k := b] == content;
    }

    /** `write_blocks_from_data_buf`: allocate, encrypt under fresh random keys, write. */
    method WriteBlocks(blocks: seq<Block>) returns (values: seq<Value>, hbas: seq<int>)
      requires Valid() && 0 < |blocks| <= alloc.numFree
      modifies this`host, alloc
      ensures tree.Valid() && alloc.Valid()
      ensures |values| == |hbas| == |blocks| && |alloc.bits| == |old(alloc.bits)|
      ensures forall i, j :: 0 <= i < j < |hbas| ==> hbas[i] != hbas[j]
      ensures forall i :: 0 <= i < |values| ==> values[i].hba == hbas[i] && SealedIn(host, values[i], blocks[i])
      ensures Backed(tree.State(), host, alloc.bits, SetOf(hbas, 0))
      ensures Shows(tree.State(), host, buf, content)
    {
      ghost var bits := alloc.bits;
      hbas := alloc.AllocBatch(|blocks|);
      ghost var before := host;
      ghost var keys;
      values, keys := SealBlocks(hbas, blocks);
      TakeBlocks(tree.State(), before, bits, hbas, keys, blocks);
      WrittenBlocks(before, hbas, keys, blocks, values);
      UnmovedShows(tree.State(), before, host, buf, content);
    }

    method SealBlocks(hbas: seq<int>, blocks: seq<Block>) returns (values: seq<Value>, ghost keys: seq<int>)
      requires |hbas| == |blocks|
      modifies this`host
      ensures |values| == |keys| == |hbas|
      ensures host == WriteAll(old(host), hbas, keys, blocks, |hbas|)
      ensures forall n :: 0 <= n < |hbas| ==> values[n] == Seal(hbas[n], keys[n], blocks[n])
    {
      ghost var before := host;
      keys, values := [], [];
      var i := 0;
      while i < |hbas|
        invariant 0 <= i <= |hbas| && |values| == |keys| == i
        invariant host == WriteSome(before, hbas, keys, blocks)
        invariant forall n :: 0 <= n < i ==> values[n] == Seal(hbas[n], keys[n], blocks[n])
      {
        var key: int := *;
        var (cipher, mac) := Encrypt(key, blocks[i]);
        host := host[hbas[i] := cipher];
        values := values + [Value(hbas[i], key, mac)];
        WriteSomeSnoc(before, hbas, keys, blocks, key);
        keys := keys + [key];
        i := i + 1;
      }
      WriteSomeAll(before, hbas, keys, blocks);
    }
  }

  lemma WrittenBlocks(host: map<int, Cipher>, hbas: seq<int>, keys: seq<int>, blocks: seq<Block>, values: seq<Value>)
    requires |hbas| == |keys| == |blocks| == |values|
    requires forall a, b :: 0 <= a < b < |hbas| ==> hbas[a] != hbas[b]
    requires forall n :: 0 <= n < |hbas| ==> values[n] == Seal(hbas[n], keys[n], blocks[n])
    ensures forall n :: 0 <= n < |hbas| ==>
              values[n].hba == hbas[n] && SealedIn(WriteAll(host, hbas, keys, blocks, |hbas|), values[n], blocks[n])
  {
    forall n | 0 <= n < |hbas| ensures SealedIn(WriteAll(host, hbas, keys, blocks, |hbas|), values[n], blocks[n]) {
      WriteAllAt(host, hbas, keys, blocks, |hbas|, n);
    }
  }

  lemma UnmovedShows(t: Tree, host: map<int, Cipher>, host': map<int, Cipher>, buf: map<Key, Block>, content: map<Key, Block>)
    requires Shows(t, host, buf, content)
    requires forall k :: Stored(t, host', k) == Stored(t, host, k)
    ensures Shows(t, host', buf, content)
  {
  }

  function BlocksOf(buf: map<Key, Block>, ks: seq<Key>): (bs: seq<Block>)
    requires forall i :: 0 <= i < |ks| ==> ks[i] in buf
    ensures |bs| == |ks| && forall i :: 0 <= i < |ks| ==> bs[i] == buf[ks[i]]
  {
    seq(|ks|, i requires 0 <= i < |ks| => buf[ks[i]])
  }

  /** `content` after writing the first `i` of `blocks` from address `lba` on. */
  ghost function Overlay(content: map<Key, Block>, lba: Key, blocks: seq<Block>, i: nat): map<Key, Block>
    requires i <= |blocks|
  {
    if i == 0 then content else Overlay(content, lba, blocks, i - 1)[lba + i - 1 := blocks[i - 1]]
  }

  lemma OverlayNone(content: map<Key, Block>, lba: Key, blocks: seq<Block>)
    ensures Overlay(content, lba, blocks, 0) == content
  {
  }

  lemma OverlayNext(content: map<Key, Block>, lba: Key, blocks: seq<Block>, i: nat)
    requires i < |blocks|
    ensures Overlay(content, lba, blocks, i + 1) == Overlay(content, lba, blocks, i)[lba + i := blocks[i]]
  {
  }

  lemma {:induction false} OverlayGrows(content: map<Key, Block>, lba: Key, blocks: seq<Block>, i: nat, j: nat)
    requires i <= j <= |blocks|
    ensures |Overlay(content, lba, blocks, i)| <= |Overlay(content, lba, blocks, j)|
  {
    if i < j {
      OverlayGrows(content, lba, blocks, i, j - 1);
      var m, k := Overlay(content, lba, blocks, j - 1), lba + j - 1;
      assert m.Keys + {k} == m[k := blocks[j - 1]].Keys;
      if k !in m { assert |m.Keys + {k}| == |m.Keys| + 1; }
    }
  }

  /** A block of an overlaid range is the written one, any other is as before. */
  lemma {:induction false} OverlayAt(content: map<Key, Block>, lba: Key, blocks: seq<Block>, i: nat, k: Key)
    requires i <= |blocks|
    ensures k in Overlay(content, lba, blocks, i) <==> k in content || lba <= k < lba + i
    ensures lba <= k < lba + i ==> Overlay(content, lba, blocks, i)[k] == blocks[k - lba]
    ensures k in content && !(lba <= k < lba + i) ==> Overlay(content, lba, blocks, i)[k] == content[k]
  {
    if i > 0 { OverlayAt(content, lba, blocks, i - 1, k); }
  }

  lemma BufferedShows(t: Tree, host: map<int, Cipher>, buf: map<Key, Block>, content: map<Key, Block>, k: Key, b: Block)
    requires Shows(t, host, buf, content)
    ensures Shows(t, host, buf[k := b], content[k := b])
  {
  }

  lemma StillCoherent(slots: seq<Slot>, slots': seq<Slot>, content: map<Key, Block>, k: Key, b: Block)
    requires Coherent(slots, content) && Cached(slots', k) == Some(b)
    requires forall j :: j != k ==> Cached(slots', j) == Cached(slots, j) || Cached(slots', j) == None
    ensures Coherent(slots', content[k := b])
  {
  }

  lemma ShownBlock(t: Tree, host: map<int, Cipher>, bits: seq<bool>, buf: map<Key, Block>, content: map<Key, Block>, k: Key)
    requires Backed(t, host, bits, {}) && Shows(t, host, buf, content) && k !in buf
    ensures k in content <==> Latest(t, k).Some?
    ensures k in content ==> SealedIn(host, Latest(t, k).value, content[k])
  {
    if Latest(t, k).Some? {
      LatestHeld(t, k);
      assert Held(t, k, Latest(t, k).value);
    }
  }

  datatype WriteResult = Written | OutOfDisk | Waiting(accepted: nat)

  datatype SyncResult = SyncDone | FlushWaits | SyncPanicked

  /** A run that leaves a written block unread: block 0 is written and synced, block 1 is buffered and takes
      the only slot of the cache, and a read of three blocks does not return block 0. */
  method UnreadBlock(a: Block, b: Block) returns (d: SwornDisk, ok: bool, out: seq<Option<Block>>)
    ensures d.Valid() && d.content == map[0 := a, 1 := b] && !ok && out == [None, Some(b), None]
  {
    hide *;
    d := WrittenApart(a, b);
    OnlySlot(d.cache.slots, 1, 0);
    OnlySlot(d.cache.slots, 1, 2);
    NotAllWritten(d.content, 2, 0, 3);
    ghost var last;
    ok, out, last := d.ReadBlocks(0, 3);
    assert out[0] == None && out[1] == Some(b) && out[2] == None;
  }

  method WrittenApart(a: Block, b: Block) returns (d: SwornDisk)
    ensures fresh(d) && fresh(d.cache) && d.Valid() && d.content == map[0 := a, 1 := b] && d.buf == map[1 := b]
    ensures |d.cache.slots| == 1 && Cached(d.cache.slots, 1) == Some(b)
  {
    hide *;
    d := new SwornDisk(3, 2, 1, 3, 1);
    var written := d.WriteBlock(0, a);
    var synced := d.Sync();
    written := d.WriteBlock(1, b);
  }

  lemma NotAllWritten(content: map<Key, Block>, k: Key, lba: Key, n: nat)
    requires lba <= k < lba + n && k !in content
    ensures !AllWritten(content, lba, n)
  {
  }

  lemma OnlySlot(slots: seq<Slot>, k: Key, j: Key)
    requires |slots| == 1 && Cached(slots, k).Some? && j != k
    ensures Cached(slots, j) == None
  {
    assert CachedFrom(slots, 1, j) == None && CachedFrom(slots, 1, k) == None;
  }

  lemma SetOfNext(hs: seq<int>, i: nat)
    requires i < |hs| && forall a, b :: 0 <= a < b < |hs| ==> hs[a] != hs[b]
    ensures SetOf(hs, i) - {hs[i]} == SetOf(hs, i + 1)
  {
  }

  lemma SameShows(t: Tree, t': Tree, host: map<int, Cipher>, buf: map<Key, Block>, content: map<Key, Block>)
    requires Shows(t, host, buf, content) && SameViews(t, t')
    ensures Shows(t', host, buf, content)
  {
    forall k ensures Stored(t', host, k) == Stored(t, host, k) {
      assert Latest(t', k) == Latest(t, k);
    }
  }

  /** The slots marked `have` are filled with the disk's content, the others are untouched. */
  ghost predicate Filled(out: seq<Option<Block>>, have: seq<bool>, lba: Key, content: map<Key, Block>) {
    && |out| == |have|
    && forall i :: 0 <= i < |out| ==>
         if have[i] then lba + i in content && out[i] == Some(content[lba + i]) else out[i] == None
  }

  lemma FilledOnly(out: seq<Option<Block>>, have: seq<bool>, lba: Key, content: map<Key, Block>)
    requires Filled(out, have, lba, content)
    ensures forall i :: 0 <= i < |out| && out[i].Some? ==> have[i]
  {
  }

  lemma FilledIff(out: seq<Option<Block>>, have: seq<bool>, lba: Key, content: map<Key, Block>)
    requires Filled(out, have, lba, content)
    ensures forall i :: 0 <= i < |out| ==> if have[i] then lba + i in content && out[i] == Some(content[lba + i]) else out[i] == None
  {
  }

  lemma FillOne(out: seq<Option<Block>>, have: seq<bool>, lba: Key, content: map<Key, Block>, i: int, b: Block)
    requires Filled(out, have, lba, content) && 0 <= i < |out|
    requires lba + i in content && content[lba + i] == b
    ensures Filled(out[i := Some(b)], have[i := true], lba, content)
  {
  }

  lemma AllFilled(out: seq<Option<Block>>, have: seq<bool>, lba: Key, content: map<Key, Block>)
    requires Filled(out, have, lba, content) && forall i :: 0 <= i < |have| ==> have[i]
    ensures AllWritten(content, lba, |out|)
    ensures forall i :: 0 <= i < |out| ==> lba + i in content && out[i] == Some(content[lba + i])
  {
    forall k | lba <= k < lba + |out| ensures k in content { assert have[k - lba]; }
  }

  /** Every block of the range was written. */
  ghost predicate AllWritten(content: map<Key, Block>, lba: Key, n: nat) {
    forall k :: lba <= k < lba + n ==> k in content
  }

  lemma NoneFilled(out: seq<Option<Block>>, have: seq<bool>, lba: Key, content: map<Key, Block>)
    requires |out| == |have| && forall i :: 0 <= i < |out| ==> out[i] == None && !have[i]
    ensures Filled(out, have, lba, content)
  {
  }

  /** A range query fails exactly when some block of the range was never written. */
  lemma MissingBlock(t: Tree, host: map<int, Cipher>, bits: seq<bool>, buf: map<Key, Block>, content: map<Key, Block>,
                     lba: Key, init: seq<bool>, ok: bool)
    requires Backed(t, host, bits, {}) && Shows(t, host, buf, content)
    requires forall i :: 0 <= i < |init| && init[i] ==> lba + i in content
    requires forall i :: 0 <= i < |init| && !init[i] ==> lba + i !in buf
    requires ok <==> forall i :: 0 <= i < |init| && !init[i] ==> Answers(t, lba, |init|)[i].Some?
    ensures ok <==> AllWritten(content, lba, |init|)
  {
    hide Backed, Shows, Latest;
    forall i | 0 <= i < |init| && !init[i] ensures Answers(t, lba, |init|)[i].Some? <==> lba + i in content {
      ShownBlock(t, host, bits, buf, content, lba + i);
    }
    if ok {
      forall k | lba <= k < lba + |init| ensures k in content {
        if !init[k - lba] { ShownBlock(t, host, bits, buf, content, lba + (k - lba)); }
      }
    } else {
      var i :| 0 <= i < |init| && !init[i] && Answers(t, lba, |init|)[i].None?;
      assert lba + i !in content;
    }
  }

  lemma NothingTaken()
    ensures {} - HbasOf({}) == {}
  {
  }

  lemma PersistedShows(t: Tree, t': Tree, host: map<int, Cipher>, buf: map<Key, Block>, content: map<Key, Block>)
    requires Shows(t, host, buf, content) && Persists(t, t')
    ensures Shows(t', host, buf, content)
    ensures forall k :: Durable(t', k) == Latest(t', k)
  {
    forall k ensures Stored(t', host, k) == Stored(t, host, k) {
      assert Latest(t', k) == Latest(t, k);
    }
  }

  /** `WriteAll` over as many blocks as there are keys so far. */
  ghost function WriteSome(host: map<int, Cipher>, hbas: seq<int>, keys: seq<int>, blocks: seq<Block>): map<int, Cipher>
    requires |keys| <= |hbas| == |blocks|
  {
    WriteAll(host, hbas[..|keys|], keys, blocks[..|keys|], |keys|)
  }

  lemma {:induction false} WriteAllPrefix(host: map<int, Cipher>, hbas: seq<int>, keys: seq<int>, blocks: seq<Block>, h: int, key: int, b: Block, i: nat)
    requires i <= |hbas| == |keys| == |blocks|
    ensures WriteAll(host, hbas + [h], keys + [key], blocks + [b], i) == WriteAll(host, hbas, keys, blocks, i)
  {
    if i > 0 { WriteAllPrefix(host, hbas, keys, blocks, h, key, b, i - 1); }
  }

  lemma WriteSomeSnoc(host: map<int, Cipher>, hbas: seq<int>, keys: seq<int>, blocks: seq<Block>, key: int)
    requires |keys| < |hbas| == |blocks|
    ensures WriteSome(host, hbas, keys + [key], blocks) ==
            WriteSome(host, hbas, keys, blocks)[hbas[|keys|] := Encrypt(key, blocks[|keys|]).0]
  {
    var n := |keys|;
    assert hbas[..n + 1] == hbas[..n] + [hbas[n]] && blocks[..n + 1] == blocks[..n] + [blocks[n]];
    WriteAllPrefix(host, hbas[..n], keys, blocks[..n], hbas[n], key, blocks[n], n);
  }

  lemma WriteSomeAll(host: map<int, Cipher>, hbas: seq<int>, keys: seq<int>, blocks: seq<Block>)
    requires |keys| == |hbas| == |blocks|
    ensures WriteSome(host, hbas, keys, blocks) == WriteAll(host, hbas, keys, blocks, |hbas|)
  {
    assert hbas[..|keys|] == hbas && blocks[..|keys|] == blocks;
  }
}
