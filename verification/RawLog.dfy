/** The address loops of raw_log.rs, and its reads and writes batched over adjacent blocks. */
module RawLogs {
  import opened Common
  import opened Arithmetic
  import opened RawLogAddress
  import opened ChunkAllocs

  type DiskMap = map<int, Block>

  // ---- Addresses and batched transfers ---------------------------------------------------------------

  /** The loop of the head's `prepare_blocks`. */
  method PrepareHead(chunks: seq<int>, offset: nat, n: nat) returns (addrs: seq<int>)
    requires offset + n <= |chunks| * CHUNK_NBLOCKS
    ensures |addrs| == n && forall k :: 0 <= k < n ==> addrs[k] == HeadAddr(chunks, offset + k)
  {
    addrs := [];
    while |addrs| != n
      invariant |addrs| <= n
      invariant forall k :: 0 <= k < |addrs| ==> addrs[k] == HeadAddr(chunks, offset + k)
      decreases n - |addrs|
    {
      var o := offset + |addrs|;
      ChunkIndex(|chunks|, o);
      addrs := addrs + [chunks[o / CHUNK_NBLOCKS] * CHUNK_NBLOCKS + o % CHUNK_NBLOCKS];
    }
  }

  /** The two loops of the tail's `prepare_blocks`. */
  method PrepareTail(t: Tail, offset: nat, n: nat) returns (addrs: seq<int>)
    requires n > 0 && offset + n <= t.lastFree + |t.chunks| * CHUNK_NBLOCKS
    ensures |addrs| == n && forall k :: 0 <= k < n ==> addrs[k] == TailAddr(t, offset + k)
  {
    addrs := [];
    var o := offset;
    if o < t.lastFree {
      var i := o;
      while i < t.lastFree
        invariant o <= i <= t.lastFree && |addrs| == i - o < n
        invariant forall k :: 0 <= k < |addrs| ==> addrs[k] == TailAddr(t, offset + k)
      {
        addrs := addrs + [t.lastChunk * CHUNK_NBLOCKS + (CHUNK_NBLOCKS - t.lastFree + i)];
        if |addrs| == n { return; }
        i := i + 1;
      }
      o := 0;
    } else {
      o := o - t.lastFree;
    }
    while |addrs| != n
      invariant |addrs| <= n && t.lastFree + o == offset + |addrs|
      invariant forall k :: 0 <= k < |addrs| ==> addrs[k] == TailAddr(t, offset + k)
      decreases n - |addrs|
    {
      ChunkIndex(|t.chunks|, o);
      addrs := addrs + [t.chunks[o / CHUNK_NBLOCKS] * CHUNK_NBLOCKS + o % CHUNK_NBLOCKS];
      o := o + 1;
    }
  }

  /** Writing block by block. */
  function WriteEach(disk: DiskMap, addrs: seq<int>, blocks: seq<Block>, n: nat): DiskMap
    requires n <= |addrs| == |blocks|
  {
    if n == 0 then disk else WriteEach(disk, addrs, blocks, n - 1)[addrs[n - 1] := blocks[n - 1]]
  }

  /** One request for `n` consecutive blocks. */
  function WriteRun(disk: DiskMap, first: int, blocks: seq<Block>, n: nat): DiskMap
    requires n <= |blocks|
  {
    if n == 0 then disk else WriteRun(disk, first, blocks, n - 1)[first + n - 1 := blocks[n - 1]]
  }

  /** `group_by` on addresses: the end of the run of consecutive addresses that starts at `i`. */
  method RunEnd(addrs: seq<int>, i: nat) returns (j: nat)
    requires i < |addrs|
    ensures i < j <= |addrs|
    ensures forall k :: i <= k < j ==> addrs[k] == addrs[i] + (k - i)
    ensures j < |addrs| ==> addrs[j] != addrs[j - 1] + 1
  {
    j := i + 1;
    while j < |addrs| && addrs[j] == addrs[j - 1] + 1
      invariant i < j <= |addrs|
      invariant forall k :: i <= k < j ==> addrs[k] == addrs[i] + (k - i)
    {
      j := j + 1;
    }
  }

  lemma {:induction false} RunIsEach(disk: DiskMap, addrs: seq<int>, blocks: seq<Block>, i: nat, n: nat)
    requires i + n <= |addrs| == |blocks|
    requires forall k :: i <= k < i + n ==> addrs[k] == addrs[i] + (k - i)
    ensures WriteRun(WriteEach(disk, addrs, blocks, i), if i < |addrs| then addrs[i] else 0, blocks[i..i + n], n)
         == WriteEach(disk, addrs, blocks, i + n)
    decreases n
  {
    if n > 0 {
      RunIsEach(disk, addrs, blocks, i, n - 1);
      RunPrefix(WriteEach(disk, addrs, blocks, i), addrs[i], blocks[i..i + n - 1], blocks[i..i + n], n - 1);
    }
  }

  lemma {:induction false} RunPrefix(disk: DiskMap, first: int, bs: seq<Block>, cs: seq<Block>, n: nat)
    requires n <= |bs| && bs <= cs
    ensures WriteRun(disk, first, bs, n) == WriteRun(disk, first, cs, n)
  {
    if n > 0 { RunPrefix(disk, first, bs, cs, n - 1); }
  }

  /** Grouped writes do what single writes would. */
  method WriteBatch(disk: DiskMap, addrs: seq<int>, blocks: seq<Block>) returns (d: DiskMap)
    requires |addrs| == |blocks|
    ensures d == WriteEach(disk, addrs, blocks, |addrs|)
  {
    d := disk;
    var i := 0;
    while i < |addrs|
      invariant 0 <= i <= |addrs| && d == WriteEach(disk, addrs, blocks, i)
    {
      var j := RunEnd(addrs, i);
      RunIsEach(disk, addrs, blocks, i, j - i);
      d := WriteRun(d, addrs[i], blocks[i..j], j - i);
      i := j;
    }
  }

  /** Grouped reads return each address's block. */
  method ReadBatch(disk: DiskMap, addrs: seq<int>) returns (out: seq<Block>)
    requires forall k :: 0 <= k < |addrs| ==> addrs[k] in disk
    ensures |out| == |addrs| && forall k :: 0 <= k < |addrs| ==> out[k] == disk[addrs[k]]
  {
    out := [];
    var i := 0;
    while i < |addrs|
      invariant 0 <= i <= |addrs| && |out| == i
      invariant forall k :: 0 <= k < i ==> out[k] == disk[addrs[k]]
    {
      var j := RunEnd(addrs, i);
      var first := addrs[i];
      var run := seq(j - i, k requires 0 <= k < j - i && addrs[i + k] == first + k => disk[first + k]);
      out := out + run;
      i := j;
    }
  }

  lemma {:induction false} WrittenAt(disk: DiskMap, addrs: seq<int>, blocks: seq<Block>, n: nat, k: nat)
    requires k < n <= |addrs| == |blocks|
    requires forall a, b :: 0 <= a < b < |addrs| ==> addrs[a] != addrs[b]
    ensures addrs[k] in WriteEach(disk, addrs, blocks, n) && WriteEach(disk, addrs, blocks, n)[addrs[k]] == blocks[k]
  {
    if k < n - 1 { WrittenAt(disk, addrs, blocks, n - 1, k); }
  }

  lemma {:induction false} WrittenElsewhere(disk: DiskMap, addrs: seq<int>, blocks: seq<Block>, n: nat, a: int)
    requires n <= |addrs| == |blocks|
    requires forall k :: 0 <= k < n ==> addrs[k] != a
    ensures a in WriteEach(disk, addrs, blocks, n) <==> a in disk
    ensures a in disk ==> WriteEach(disk, addrs, blocks, n)[a] == disk[a]
  {
    if n > 0 { WrittenElsewhere(disk, addrs, blocks, n - 1, a); }
  }

  // ---- What the disk holds ----------------------------------------------------------------------------

  /** The blocks of a log are in its chunks. */
  ghost predicate Stored(disk: DiskMap, chunks: seq<int>, blocks: seq<Block>) {
    && |blocks| <= |chunks| * CHUNK_NBLOCKS
    && forall i :: 0 <= i < |blocks| ==> HeadAddr(chunks, i) in disk && disk[HeadAddr(chunks, i)] == blocks[i]
  }

  /** Addresses of `n` blocks from block `from` on. */
  ghost predicate Addressed(chunks: seq<int>, from: nat, addrs: seq<int>) {
    && from + |addrs| <= |chunks| * CHUNK_NBLOCKS
    && forall k :: 0 <= k < |addrs| ==> addrs[k] == HeadAddr(chunks, from + k)
  }

  lemma StoredAppend(disk: DiskMap, chunks: seq<int>, more: seq<int>, blocks: seq<Block>, addrs: seq<int>, new0: seq<Block>)
    requires NoRepeat(chunks + more) && Stored(disk, chunks, blocks)
    requires |addrs| == |new0| && Addressed(chunks + more, |blocks|, addrs)
    ensures Stored(WriteEach(disk, addrs, new0, |addrs|), chunks + more, blocks + new0)
  {
    var all, n := chunks + more, |blocks|;
    var disk' := WriteEach(disk, addrs, new0, |addrs|);
    forall i | 0 <= i < |blocks + new0|
      ensures HeadAddr(all, i) in disk' && disk'[HeadAddr(all, i)] == (blocks + new0)[i]
    {
      if i < n {
        OldBlockKept(disk, chunks, more, blocks, addrs, new0, i);
      } else {
        NewBlockWritten(disk, all, n, addrs, new0, i - n);
      }
    }
  }

  lemma OldBlockKept(disk: DiskMap, chunks: seq<int>, more: seq<int>, blocks: seq<Block>, addrs: seq<int>, new0: seq<Block>, i: nat)
    requires NoRepeat(chunks + more) && Stored(disk, chunks, blocks) && i < |blocks|
    requires |addrs| == |new0| && Addressed(chunks + more, |blocks|, addrs)
    ensures i < |chunks + more| * CHUNK_NBLOCKS
    ensures var a := HeadAddr(chunks + more, i);
            a in WriteEach(disk, addrs, new0, |addrs|) && WriteEach(disk, addrs, new0, |addrs|)[a] == blocks[i]
  {
    HeadAddrStable(chunks, more, i);
    var a := HeadAddr(chunks + more, i);
    forall k | 0 <= k < |addrs| ensures addrs[k] != a { AddrInjective(chunks + more, i, |blocks| + k); }
    WrittenElsewhere(disk, addrs, new0, |addrs|, a);
  }

  lemma NewBlockWritten(disk: DiskMap, chunks: seq<int>, from: nat, addrs: seq<int>, new0: seq<Block>, k: nat)
    requires NoRepeat(chunks) && |addrs| == |new0| && Addressed(chunks, from, addrs) && k < |addrs|
    ensures var a := HeadAddr(chunks, from + k);
            a in WriteEach(disk, addrs, new0, |addrs|) && WriteEach(disk, addrs, new0, |addrs|)[a] == new0[k]
  {
    forall a, b | 0 <= a < b < |addrs| ensures addrs[a] != addrs[b] { AddrInjective(chunks, from + a, from + b); }
    WrittenAt(disk, addrs, new0, |addrs|, k);
  }

  lemma StoredOther(disk: DiskMap, mine: seq<int>, from: nat, addrs: seq<int>, new0: seq<Block>, chunks: seq<int>, blocks: seq<Block>)
    requires Stored(disk, chunks, blocks) && |addrs| == |new0| && Addressed(mine, from, addrs)
    requires forall a, b :: 0 <= a < |mine| && 0 <= b < |chunks| ==> mine[a] != chunks[b]
    ensures Stored(WriteEach(disk, addrs, new0, |addrs|), chunks, blocks)
  {
    forall i | 0 <= i < |blocks|
      ensures var d := WriteEach(disk, addrs, new0, |addrs|); HeadAddr(chunks, i) in d && d[HeadAddr(chunks, i)] == blocks[i]
    {
      forall k | 0 <= k < |addrs| ensures addrs[k] != HeadAddr(chunks, i) { AddrDisjoint(mine, chunks, from + k, i); }
      WrittenElsewhere(disk, addrs, new0, |addrs|, HeadAddr(chunks, i));
    }
  }

  lemma StoredPrefix(disk: DiskMap, chunks: seq<int>, more: seq<int>, blocks: seq<Block>, n: nat)
    requires Stored(disk, chunks + more, blocks) && n <= |blocks| && n <= |chunks| * CHUNK_NBLOCKS
    ensures Stored(disk, chunks, blocks[..n])
  {
    forall i | 0 <= i < n ensures HeadAddr(chunks, i) in disk && disk[HeadAddr(chunks, i)] == blocks[..n][i] {
      HeadAddrStable(chunks, more, i);
    }
  }
}
