/** Where the blocks of a raw log are (raw_log.rs): the committed head and the tail of the running
    transaction each calculate disk positions from chunk lists. */
module RawLogAddress {
  import opened Common
  import opened Arithmetic

  type ChunkSize = n: nat | n >= 1 witness 1024

  /** Blocks of a chunk; 1024 in the source. */
  const CHUNK_NBLOCKS: ChunkSize

  datatype Head = Head(chunks: seq<int>, numBlocks: nat)

  /** `lastFree` blocks at the end of the head's last chunk come first, then the tail's own chunks. */
  datatype Tail = Tail(lastChunk: int, lastFree: nat, chunks: seq<int>, numBlocks: nat)

  /** Chunks suffice and the last one is in use: less than one chunk of free space is left. */
  predicate Fitting(h: Head) {
    |h.chunks| == Ceil(h.numBlocks, CHUNK_NBLOCKS)
  }

  lemma FittingSpace(h: Head)
    requires Fitting(h)
    ensures 0 <= |h.chunks| * CHUNK_NBLOCKS - h.numBlocks < CHUNK_NBLOCKS
  {
    var c, n := CHUNK_NBLOCKS, |h.chunks|;
    CeilIff(h.numBlocks, c, n);
    CeilIff(h.numBlocks, c, n - 1);
    assert (n - 1) * c == n * c - c;
  }

  /** `RawLogTail::from_head`. */
  function FromHead(h: Head): Tail
    requires Fitting(h)
  {
    FittingSpace(h);
    Tail(if h.chunks == [] then 0 else h.chunks[|h.chunks| - 1], |h.chunks| * CHUNK_NBLOCKS - h.numBlocks, [], 0)
  }

  /** `RawLogHead::append`: what the head becomes at commit. */
  function Whole(h: Head, t: Tail): Head {
    Head(h.chunks + t.chunks, h.numBlocks + t.numBlocks)
  }

  /** `t` continues `h`. */
  predicate Continues(h: Head, t: Tail) {
    && Fitting(h) && Fitting(Whole(h, t))
    && t.lastChunk == FromHead(h).lastChunk && t.lastFree == FromHead(h).lastFree
  }

  function HeadAddr(chunks: seq<int>, i: nat): int
    requires i < |chunks| * CHUNK_NBLOCKS
  {
    ChunkIndex(|chunks|, i);
    chunks[i / CHUNK_NBLOCKS] * CHUNK_NBLOCKS + i % CHUNK_NBLOCKS
  }

  lemma ChunkIndex(n: nat, i: nat)
    requires i < n * CHUNK_NBLOCKS
    ensures 0 <= i / CHUNK_NBLOCKS < n
  {
    FloorIff(i, CHUNK_NBLOCKS, 0);
    FloorIff(i, CHUNK_NBLOCKS, n);
  }

  /** Block `o` of the `c`-th chunk. */
  lemma AddrOf(chunks: seq<int>, c: nat, o: nat)
    requires c < |chunks| && o < CHUNK_NBLOCKS
    ensures c * CHUNK_NBLOCKS + o < |chunks| * CHUNK_NBLOCKS
    ensures HeadAddr(chunks, c * CHUNK_NBLOCKS + o) == chunks[c] * CHUNK_NBLOCKS + o
  {
    MulLe(c + 1, |chunks|, CHUNK_NBLOCKS);
    assert (c + 1) * CHUNK_NBLOCKS == c * CHUNK_NBLOCKS + CHUNK_NBLOCKS;
    Remainder(c * CHUNK_NBLOCKS + o, c, o, CHUNK_NBLOCKS);
  }

  function TailAddr(t: Tail, j: nat): int
    requires j < t.lastFree + |t.chunks| * CHUNK_NBLOCKS
  {
    if j < t.lastFree then t.lastChunk * CHUNK_NBLOCKS + (CHUNK_NBLOCKS - t.lastFree + j)
    else HeadAddr(t.chunks, j - t.lastFree)
  }

  lemma TailSpace(h: Head, t: Tail)
    requires Continues(h, t)
    ensures (|h.chunks| + |t.chunks|) * CHUNK_NBLOCKS == h.numBlocks + t.lastFree + |t.chunks| * CHUNK_NBLOCKS
    ensures t.numBlocks <= t.lastFree + |t.chunks| * CHUNK_NBLOCKS
  {
    FittingSpace(h);
    FittingSpace(Whole(h, t));
    assert (|h.chunks| + |t.chunks|) * CHUNK_NBLOCKS == |h.chunks| * CHUNK_NBLOCKS + |t.chunks| * CHUNK_NBLOCKS;
  }

  /** The tail's address of a block is the address the head will have for it after commit. */
  lemma AddressesAgree(h: Head, t: Tail, j: nat)
    requires Continues(h, t) && j < t.lastFree + |t.chunks| * CHUNK_NBLOCKS
    ensures h.numBlocks + j < |h.chunks + t.chunks| * CHUNK_NBLOCKS
    ensures TailAddr(t, j) == HeadAddr(h.chunks + t.chunks, h.numBlocks + j)
  {
    FittingSpace(h);
    TailSpace(h, t);
    if j < t.lastFree { InLastChunk(h, t, j); } else { InOwnChunks(h, t, j - t.lastFree); }
  }

  lemma InLastChunk(h: Head, t: Tail, j: nat)
    requires Continues(h, t) && j < t.lastFree && h.numBlocks + j < |h.chunks + t.chunks| * CHUNK_NBLOCKS
    ensures h.chunks != [] && t.lastFree <= CHUNK_NBLOCKS
    ensures HeadAddr(h.chunks + t.chunks, h.numBlocks + j) == t.lastChunk * CHUNK_NBLOCKS + (CHUNK_NBLOCKS - t.lastFree + j)
  {
    var c, n := CHUNK_NBLOCKS, |h.chunks|;
    FittingSpace(h);
    assert (n - 1) * c == n * c - c;
    Remainder(h.numBlocks + j, n - 1, c - t.lastFree + j, c);
  }

  lemma InOwnChunks(h: Head, t: Tail, k: nat)
    requires Continues(h, t) && k < |t.chunks| * CHUNK_NBLOCKS
    requires h.numBlocks + t.lastFree + k < |h.chunks + t.chunks| * CHUNK_NBLOCKS
    ensures HeadAddr(h.chunks + t.chunks, h.numBlocks + t.lastFree + k) == HeadAddr(t.chunks, k)
  {
    var c, n := CHUNK_NBLOCKS, |h.chunks|;
    FittingSpace(h);
    ChunkIndex(|t.chunks|, k);
    DivMod(k, c);
    assert (n + k / c) * c == n * c + k / c * c;
    Remainder(h.numBlocks + t.lastFree + k, n + k / c, k % c, c);
  }

  /** Committing more chunks does not move a block. */
  lemma HeadAddrStable(chunks: seq<int>, more: seq<int>, i: nat)
    requires i < |chunks| * CHUNK_NBLOCKS
    ensures i < |chunks + more| * CHUNK_NBLOCKS && HeadAddr(chunks + more, i) == HeadAddr(chunks, i)
  {
    MulLe(|chunks|, |chunks + more|, CHUNK_NBLOCKS);
    ChunkIndex(|chunks|, i);
  }

  /** An address tells its chunk and its place in it. */
  lemma AddrInverse(chunks: seq<int>, i: nat)
    requires i < |chunks| * CHUNK_NBLOCKS
    ensures 0 <= i / CHUNK_NBLOCKS < |chunks|
    ensures HeadAddr(chunks, i) / CHUNK_NBLOCKS == chunks[i / CHUNK_NBLOCKS]
    ensures HeadAddr(chunks, i) % CHUNK_NBLOCKS == i % CHUNK_NBLOCKS
  {
    ChunkIndex(|chunks|, i);
    DivMod(i, CHUNK_NBLOCKS);
    Remainder(HeadAddr(chunks, i), chunks[i / CHUNK_NBLOCKS], i % CHUNK_NBLOCKS, CHUNK_NBLOCKS);
  }

  ghost predicate NoRepeat(chunks: seq<int>) {
    forall i, j :: 0 <= i < j < |chunks| ==> chunks[i] != chunks[j]
  }

  /** Different blocks of a log are in different places. */
  lemma AddrInjective(chunks: seq<int>, i: nat, j: nat)
    requires NoRepeat(chunks) && i < |chunks| * CHUNK_NBLOCKS && j < |chunks| * CHUNK_NBLOCKS && i != j
    ensures HeadAddr(chunks, i) != HeadAddr(chunks, j)
  {
    AddrInverse(chunks, i);
    AddrInverse(chunks, j);
    DivMod(i, CHUNK_NBLOCKS);
    DivMod(j, CHUNK_NBLOCKS);
  }

  lemma AddrDisjoint(cs: seq<int>, ds: seq<int>, i: nat, j: nat)
    requires i < |cs| * CHUNK_NBLOCKS && j < |ds| * CHUNK_NBLOCKS
    requires forall a, b :: 0 <= a < |cs| && 0 <= b < |ds| ==> cs[a] != ds[b]
    ensures HeadAddr(cs, i) != HeadAddr(ds, j)
  {
    AddrInverse(cs, i);
    AddrInverse(ds, j);
  }

  /** `calc_needed_chunks`. */
  function NeededChunks(t: Tail, n: nat): nat {
    var avail := t.lastFree + |t.chunks| * CHUNK_NBLOCKS - t.numBlocks;
    if n > avail then Ceil(n - avail, CHUNK_NBLOCKS) else 0
  }

  /** Exactly as many chunks as the longer log needs. */
  lemma NeededFits(h: Head, t: Tail, n: nat, more: seq<int>)
    requires Continues(h, t)
    ensures t.numBlocks <= t.lastFree + |t.chunks| * CHUNK_NBLOCKS
    ensures |more| == NeededChunks(t, n) ==>
              Continues(h, t.(chunks := t.chunks + more, numBlocks := t.numBlocks + n))
  {
    TailSpace(h, t);
    var avail := t.lastFree + |t.chunks| * CHUNK_NBLOCKS - t.numBlocks;
    CeilGrows(|h.chunks| + |t.chunks|, h.numBlocks + t.numBlocks, avail, n);
    assert |h.chunks + (t.chunks + more)| == |h.chunks| + |t.chunks| + |more|;
  }

  lemma CeilGrows(k: nat, blocks: nat, avail: nat, n: nat)
    requires k == Ceil(blocks, CHUNK_NBLOCKS) && k * CHUNK_NBLOCKS == blocks + avail
    ensures Ceil(blocks + n, CHUNK_NBLOCKS) == k + if n > avail then Ceil(n - avail, CHUNK_NBLOCKS) else 0
  {
    hide Ceil;
    var c := CHUNK_NBLOCKS;
    var need := if n > avail then Ceil(n - avail, c) else 0;
    var r := Ceil(blocks + n, c);
    CeilIff(blocks + n, c, k + need);
    CeilIff(blocks + n, c, k + need - 1);
    assert (k + need) * c == k * c + need * c && (k + need - 1) * c == k * c + (need - 1) * c;
    if n > avail {
      CeilIff(n - avail, c, need);
      CeilIff(n - avail, c, need - 1);
    } else {
      CeilIff(blocks, c, k - 1);
      assert (k - 1) * c == k * c - c;
    }
  }

  lemma FromHeadContinues(h: Head)
    requires Fitting(h)
    ensures Continues(h, FromHead(h)) && Whole(h, FromHead(h)) == h
  {
    assert h.chunks + [] == h.chunks;
  }
}
