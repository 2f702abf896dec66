/** The log of a table (sstable.rs): record blocks, then index entries, then the footer's metadata at the
    end of the last block. */
module SstFooters {
  import opened Common
  import opened Arithmetic
  import opened Encoding
  import opened Records
  import opened SsTables

  const FOOTER_META_SIZE: nat := 24

  const SSTABLE_CAPACITY: nat := 2097152

  function EntryLen(c: Codec): nat {
    BID_SIZE + 2 * c.kSize
  }

  datatype Meta = Meta(numIndex: nat, indexNblocks: nat, totalRecords: nat, recordBlockSize: nat, syncId: nat)

  datatype MetaCodec = MetaCodec(enc: Meta -> Bytes, dec: Bytes -> Meta)

  /** The metadata as stored: two fields of 16 bits, two of 32 and one of 64, cut to their widths. */
  function Cut(m: Meta): Meta {
    Meta(m.numIndex % 0x1_0000, m.indexNblocks % 0x1_0000, m.totalRecords % 0x1_0000_0000,
         m.recordBlockSize % 0x1_0000_0000, m.syncId % 0x1_0000_0000_0000_0000)
  }

  ghost predicate MetaCodecOk(mc: MetaCodec) {
    forall m :: |mc.enc(m)| == FOOTER_META_SIZE && mc.dec(mc.enc(m)) == Cut(m)
  }

  function EntryBytes(c: Codec, e: IndexEntry): Bytes {
    ToLe(e.pos, BID_SIZE) + c.encKey(e.first) + c.encKey(e.last)
  }

  /** The layout of an index entry: position, first key, last key. */
  lemma EntryLayout(c: Codec, e: IndexEntry)
    requires Lossless(c) && e.pos < Pow256(8)
    ensures var b := EntryBytes(c, e);
            && |b| == 8 + 2 * c.kSize && FromLe(b[..8]) == e.pos
            && b[8..8 + c.kSize] == c.encKey(e.first) && b[8 + c.kSize..] == c.encKey(e.last)
  {
    assert EntryBytes(c, e)[..8] == ToLe(e.pos, BID_SIZE);
    LeRoundTrip(e.pos, BID_SIZE);
  }

  function IndexBytes(c: Codec, es: seq<IndexEntry>): Bytes {
    if es == [] then [] else IndexBytes(c, es[..|es| - 1]) + EntryBytes(c, es[|es| - 1])
  }

  /** Whole blocks for the index entries and the metadata. */
  function FooterLen(c: Codec, n: nat): nat {
    Ceil(n * EntryLen(c) + FOOTER_META_SIZE, BLOCK_SIZE) * BLOCK_SIZE
  }

  lemma FooterRoom(c: Codec, n: nat)
    ensures n * EntryLen(c) + FOOTER_META_SIZE <= FooterLen(c, n) < n * EntryLen(c) + FOOTER_META_SIZE + BLOCK_SIZE
    ensures FooterLen(c, n) >= BLOCK_SIZE && FooterLen(c, n) / BLOCK_SIZE * BLOCK_SIZE == FooterLen(c, n)
  {
    var need := n * EntryLen(c) + FOOTER_META_SIZE;
    var k := Ceil(need, BLOCK_SIZE);
    CeilIff(need, BLOCK_SIZE, k);
    CeilIff(need, BLOCK_SIZE, 0);
    CeilIff(need, BLOCK_SIZE, k - 1);
  }

  function MetaOf(c: Codec, t: Table, total: nat, syncId: nat): Meta {
    Meta(|t.index|, FooterLen(c, |t.index|) / BLOCK_SIZE, total, RECORD_BLOCK_SIZE, syncId)
  }

  lemma {:induction false} IndexSize(c: Codec, es: seq<IndexEntry>)
    requires Lossless(c)
    ensures |IndexBytes(c, es)| == |es| * EntryLen(c)
  {
    if es != [] {
      IndexSize(c, es[..|es| - 1]);
      EntrySize(c, es[|es| - 1]);
    }
  }

  lemma EntrySize(c: Codec, e: IndexEntry)
    requires Lossless(c)
    ensures |EntryBytes(c, e)| == EntryLen(c)
  {
  }

  /** `build_footer`. */
  function FooterBytes(c: Codec, mc: MetaCodec, t: Table, m: Meta): Bytes {
    var index := IndexBytes(c, t.index);
    var n := FooterLen(c, |t.index|) - FOOTER_META_SIZE - |index|;
    index + seq(if n > 0 then n else 0, _ => 0) + mc.enc(m)
  }

  function BlocksBytes(blocks: seq<Bytes>): Bytes {
    if blocks == [] then [] else BlocksBytes(blocks[..|blocks| - 1]) + blocks[|blocks| - 1]
  }

  /** All bytes of the table's log. */
  function LogBytes(c: Codec, mc: MetaCodec, t: Table, m: Meta): Bytes {
    BlocksBytes(t.blocks) + FooterBytes(c, mc, t, m)
  }

  lemma {:induction false} BlockOfLog(blocks: seq<Bytes>, i: nat)
    requires i < |blocks| && forall j :: 0 <= j < |blocks| ==> |blocks[j]| == RECORD_BLOCK_SIZE
    ensures |BlocksBytes(blocks)| == |blocks| * RECORD_BLOCK_SIZE
    ensures (i + 1) * RECORD_BLOCK_SIZE <= |blocks| * RECORD_BLOCK_SIZE
    ensures BlocksBytes(blocks)[i * RECORD_BLOCK_SIZE..(i + 1) * RECORD_BLOCK_SIZE] == blocks[i]
    decreases |blocks|
  {
    var n := |blocks| - 1;
    if n > 0 {
      BlockOfLog(blocks[..n], if i < n then i else 0);
    } else {
      assert blocks[..n] == [];
    }
    var front := BlocksBytes(blocks[..n]);
    if i < n {
      assert (front + blocks[n])[i * RECORD_BLOCK_SIZE..(i + 1) * RECORD_BLOCK_SIZE] == front[i * RECORD_BLOCK_SIZE..(i + 1) * RECORD_BLOCK_SIZE];
    }
  }

  lemma {:induction false} EntryOfIndex(c: Codec, es: seq<IndexEntry>, i: nat)
    requires Lossless(c) && i < |es|
    ensures |IndexBytes(c, es)| == |es| * EntryLen(c)
    ensures IndexBytes(c, es)[i * EntryLen(c)..(i + 1) * EntryLen(c)] == EntryBytes(c, es[i])
    decreases |es|
  {
    hide EntryBytes, EntryLen, Lossless;
    var n, len := |es| - 1, EntryLen(c);
    IndexSize(c, es);
    IndexSize(c, es[..n]);
    EntrySize(c, es[n]);
    var front, last := IndexBytes(c, es[..n]), EntryBytes(c, es[n]);
    assert (i + 1) * len == i * len + len && (n + 1) * len == n * len + len;
    MulLe(0, i, len);
    if i < n {
      EntryOfIndex(c, es[..n], i);
      MulLe(i + 1, n, len);
      SliceFront(front, last, i * len, (i + 1) * len);
    } else {
      assert (front + last)[|front|..] == last;
    }
  }

  lemma SliceFront(a: Bytes, b: Bytes, i: nat, j: nat)
    requires i <= j <= |a|
    ensures (a + b)[i..j] == a[i..j]
  {
  }

  lemma DecodeEntry(c: Codec, e: IndexEntry)
    requires Lossless(c) && e.pos < Pow256(BID_SIZE)
    ensures |EntryBytes(c, e)| == EntryLen(c)
    ensures FromLe(EntryBytes(c, e)[..BID_SIZE]) == e.pos
    ensures c.decKey(EntryBytes(c, e)[BID_SIZE..BID_SIZE + c.kSize]) == e.first
    ensures c.decKey(EntryBytes(c, e)[EntryLen(c) - c.kSize..EntryLen(c)]) == e.last
  {
    var b := EntryBytes(c, e);
    assert b[..BID_SIZE] == ToLe(e.pos, BID_SIZE);
    assert b[BID_SIZE..BID_SIZE + c.kSize] == c.encKey(e.first);
    assert b[EntryLen(c) - c.kSize..EntryLen(c)] == c.encKey(e.last);
    LeRoundTrip(e.pos, BID_SIZE);
  }

  /** A built table. Its index takes less than 2^16 blocks, as its length is kept in 16 bits. */
  ghost predicate Storable(c: Codec, t: Table, m: Meta) {
    && |t.blocks| == |t.index| > 0 && m == MetaOf(c, t, m.totalRecords, m.syncId) && m.indexNblocks < 0x1_0000
    && (forall i :: 0 <= i < |t.blocks| ==> |t.blocks[i]| == RECORD_BLOCK_SIZE)
    && (forall i :: 0 <= i < |t.index| ==> t.index[i].pos == i * RECORD_BLOCK_NBLOCKS && t.index[i].pos < Pow256(BID_SIZE))
  }

  /** Where the parts of the log are. */
  lemma LogParts(c: Codec, mc: MetaCodec, t: Table, m: Meta)
    requires Lossless(c) && MetaCodecOk(mc) && Storable(c, t, m)
    ensures var log := LogBytes(c, mc, t, m);
            var flen := FooterLen(c, |t.index|);
            && |log| == |t.blocks| * RECORD_BLOCK_SIZE + flen && flen >= BLOCK_SIZE
            && flen == m.indexNblocks * BLOCK_SIZE
            && log[|log| - FOOTER_META_SIZE..] == mc.enc(m)
            && log[|log| - flen..] == FooterBytes(c, mc, t, m)
            && log[..|t.blocks| * RECORD_BLOCK_SIZE] == BlocksBytes(t.blocks)
  {
    hide FooterBytes, BlocksBytes, FooterLen, EntryLen, Lossless, MetaCodecOk, Pow256;
    BlockOfLog(t.blocks, 0);
    FooterRoom(c, |t.index|);
    FooterParts(c, mc, t, m);
    var log, blocks, footer := LogBytes(c, mc, t, m), BlocksBytes(t.blocks), FooterBytes(c, mc, t, m);
    assert log[|blocks|..] == footer;
    assert log[|log| - FOOTER_META_SIZE..] == footer[|footer| - FOOTER_META_SIZE..];
  }

  lemma FooterParts(c: Codec, mc: MetaCodec, t: Table, m: Meta)
    requires Lossless(c) && MetaCodecOk(mc)
    ensures var footer := FooterBytes(c, mc, t, m);
            && |footer| == FooterLen(c, |t.index|) >= FOOTER_META_SIZE
            && footer[|footer| - FOOTER_META_SIZE..] == mc.enc(m)
  {
    hide IndexBytes, EntryLen, FooterLen, Lossless;
    IndexSize(c, t.index);
    FooterRoom(c, |t.index|);
    assert |mc.enc(m)| == FOOTER_META_SIZE;
  }

  lemma EntryOfLog(c: Codec, mc: MetaCodec, t: Table, m: Meta, i: nat)
    requires Lossless(c) && MetaCodecOk(mc) && Storable(c, t, m) && i < |t.index|
    ensures var f := FooterBytes(c, mc, t, m);
            && (i + 1) * EntryLen(c) <= |f|
            && f[i * EntryLen(c)..(i + 1) * EntryLen(c)] == EntryBytes(c, t.index[i])
  {
    hide IndexBytes, EntryBytes, EntryLen, FooterLen, Lossless, Pow256;
    EntryOfIndex(c, t.index, i);
    var len := EntryLen(c);
    MulLe(i + 1, |t.index|, len);
    MulLe(0, i, len);
    assert (i + 1) * len == i * len + len;
    var f, index := FooterBytes(c, mc, t, m), IndexBytes(c, t.index);
    assert f[..|index|] == index;
    assert f[i * len..(i + 1) * len] == f[..|index|][i * len..(i + 1) * len];
  }

  /** `from_log`: the index and blocks come back, cut to the stored count, so all of them if and only if
      there are less than 2^16. */
  method FromLog(c: Codec, mc: MetaCodec, log: Bytes, ghost t: Table, ghost m: Meta) returns (r: Table, meta: Meta)
    requires Lossless(c) && MetaCodecOk(mc) && Storable(c, t, m) && log == LogBytes(c, mc, t, m)
    ensures meta == Cut(m) && meta.numIndex <= |t.index|
    ensures r == Table(t.blocks[..meta.numIndex], t.index[..meta.numIndex])
    ensures r == t <==> |t.index| < 0x1_0000
  {
    hide LogBytes, FooterBytes, BlocksBytes, IndexBytes, EntryBytes, FooterLen, Lossless, Pow256, EntryLen, Cut;
    LogParts(c, mc, t, m);
    CutIndex(m);
    var last := log[|log| - BLOCK_SIZE..];
    assert last[BLOCK_SIZE - FOOTER_META_SIZE..] == log[|log| - FOOTER_META_SIZE..];
    meta := mc.dec(last[BLOCK_SIZE - FOOTER_META_SIZE..]);
    var footer := log[|log| - meta.indexNblocks * BLOCK_SIZE..];
    r := ReadTable(c, log, footer, meta.numIndex, mc, t, m);
    assert |t.index| < 0x1_0000 ==> t.index[..meta.numIndex] == t.index && t.blocks[..meta.numIndex] == t.blocks;
  }

  lemma CutIndex(m: Meta)
    ensures Cut(m).numIndex <= m.numIndex && (Cut(m).numIndex == m.numIndex <==> m.numIndex < 0x1_0000)
    ensures m.indexNblocks < 0x1_0000 ==> Cut(m).indexNblocks == m.indexNblocks
  {
  }

  /** The loop over the index entries. */
  method ReadTable(c: Codec, log: Bytes, footer: Bytes, n: nat, ghost mc: MetaCodec, ghost t: Table, ghost m: Meta) returns (r: Table)
    requires Lossless(c) && MetaCodecOk(mc) && Storable(c, t, m) && n <= |t.index|
    requires footer == FooterBytes(c, mc, t, m)
    requires |t.blocks| * RECORD_BLOCK_SIZE <= |log| && log[..|t.blocks| * RECORD_BLOCK_SIZE] == BlocksBytes(t.blocks)
    ensures r == Table(t.blocks[..n], t.index[..n])
  {
    hide FooterBytes, BlocksBytes, EntryBytes, FooterLen, Lossless, Pow256, EntryLen, MetaCodecOk;
    var index: seq<IndexEntry>, blocks: seq<Bytes> := [], [];
    var i, len := 0, EntryLen(c);
    while i < n
      invariant 0 <= i <= n && index == t.index[..i] && blocks == t.blocks[..i]
    {
      EntryOfLog(c, mc, t, m, i);
      ReadBlockAt(log, t.blocks, i);
      MulLe(0, i, len);
      MulLe(i, i + 1, len);
      var e := ReadEntry(c, footer[i * len..(i + 1) * len], t.index[i]);
      blocks := blocks + [log[e.pos * BLOCK_SIZE..e.pos * BLOCK_SIZE + RECORD_BLOCK_SIZE]];
      index := index + [e];
      i := i + 1;
    }
    r := Table(blocks, index);
  }

  method ReadEntry(c: Codec, buf: Bytes, ghost e: IndexEntry) returns (r: IndexEntry)
    requires Lossless(c) && e.pos < Pow256(BID_SIZE) && buf == EntryBytes(c, e)
    ensures r == e
  {
    DecodeEntry(c, e);
    r := IndexEntry(FromLe(buf[..BID_SIZE]), c.decKey(buf[BID_SIZE..BID_SIZE + c.kSize]),
                    c.decKey(buf[EntryLen(c) - c.kSize..EntryLen(c)]));
  }

  lemma ReadBlockAt(log: Bytes, blocks: seq<Bytes>, i: nat)
    requires i < |blocks| && |blocks| * RECORD_BLOCK_SIZE <= |log|
    requires forall j :: 0 <= j < |blocks| ==> |blocks[j]| == RECORD_BLOCK_SIZE
    requires log[..|blocks| * RECORD_BLOCK_SIZE] == BlocksBytes(blocks)
    ensures var pos := i * RECORD_BLOCK_NBLOCKS;
            pos * BLOCK_SIZE + RECORD_BLOCK_SIZE <= |log| && log[pos * BLOCK_SIZE..pos * BLOCK_SIZE + RECORD_BLOCK_SIZE] == blocks[i]
  {
    hide BlocksBytes;
    BlockOfLog(blocks, i);
    var from := i * RECORD_BLOCK_SIZE;
    assert (i + 1) * RECORD_BLOCK_SIZE == from + RECORD_BLOCK_SIZE;
    assert log[from..from + RECORD_BLOCK_SIZE] == log[..|blocks| * RECORD_BLOCK_SIZE][from..from + RECORD_BLOCK_SIZE];
  }

  /** What the builder makes can be stored. */
  lemma BuiltStorable(c: Codec, t: Table, gs: seq<seq<Record>>, rs: seq<Record>, m: Meta)
    requires Stores(c, t, gs, rs) && rs != []
    requires m == MetaOf(c, t, |rs|, m.syncId) && m.indexNblocks < 0x1_0000
    ensures Storable(c, t, m)
  {
    IndexSmall(c, |t.index|);
    forall i | 0 <= i < |t.blocks|
      ensures |t.blocks[i]| == RECORD_BLOCK_SIZE && t.index[i].pos == i * RECORD_BLOCK_NBLOCKS && t.index[i].pos < Pow256(BID_SIZE)
    {
      assert Holds(c, t.blocks[i], t.index[i], gs[i], i);
      BigPow();
    }
  }

  lemma BigPow()
    ensures Pow256(BID_SIZE) >= 0x1_0000_0000_0000_0000
  {
    assert Pow256(2) == 256 * Pow256(1) == 65536;
    assert Pow256(4) == 256 * Pow256(3) && Pow256(3) == 256 * Pow256(2);
    assert Pow256(6) == 256 * Pow256(5) && Pow256(5) == 256 * Pow256(4);
    assert Pow256(8) == 256 * Pow256(7) && Pow256(7) == 256 * Pow256(6);
  }

  lemma IndexSmall(c: Codec, n: nat)
    requires FooterLen(c, n) / BLOCK_SIZE < 0x1_0000
    ensures n < 0x1000_0000
  {
    FooterRoom(c, n);
    MulLe(BID_SIZE, EntryLen(c), n);
    assert EntryLen(c) * n == n * EntryLen(c);
  }

  /** The records take less than 2^16 record blocks and index blocks. */
  ghost predicate CountsFit(c: Codec, rs: seq<Record>) {
    |Groups(c, rs)| < 0x1_0000 && FooterLen(c, |Groups(c, rs)|) / BLOCK_SIZE < 0x1_0000
  }

  /** No table of the disk comes near the limit: as many records as a table may have, with 40-byte values, take
      at most 1554 record blocks and 10 index blocks. */
  lemma DiskCountsFit(c: Codec, rs: seq<Record>)
    requires c.kSize == 8 && c.vSize == 40 && |rs| <= SSTABLE_CAPACITY
    ensures |Groups(c, rs)| <= 1554 && FooterLen(c, |Groups(c, rs)|) <= 10 * BLOCK_SIZE
    ensures CountsFit(c, rs)
  {
    hide Groups, FooterLen;
    GroupsBound(c, rs);
    DiskFooter(c, |Groups(c, rs)|);
  }

  lemma DiskFooter(c: Codec, n: nat)
    requires c.kSize == 8 && n <= 1554
    ensures FooterLen(c, n) <= 10 * BLOCK_SIZE
  {
    CeilIff(n * EntryLen(c) + FOOTER_META_SIZE, BLOCK_SIZE, 10);
  }

  /** The limit itself is real: single values need 2674 * 2^16 records for it. */
  lemma LongTable(c: Codec, rs: seq<Record>)
    requires c.kSize == 8 && c.vSize == 40 && |rs| >= 2674 * 0x1_0000
    requires forall i :: 0 <= i < |rs| ==> !rs[i].value.SyncedAndUnsynced?
    ensures |Groups(c, rs)| >= 0x1_0000
  {
    hide Split, OffsetOf;
    SinglesSplit(c, rs, |rs|);
  }

  /** Built, written to a log and opened again, a table still scans to the records it was built from and
      answers every lookup. Only a build can fail. */
  method Reopen(c: Codec, mc: MetaCodec, rs: seq<Record>, syncId: nat, key: Key)
    returns (ok: bool, all: seq<Record>, found: Option<Value>, meta: Meta)
    requires Lossless(c) && MetaCodecOk(mc) && rs != [] && Sorted(rs) && CountsFit(c, rs) && syncId < 0x1_0000_0000_0000_0000
    ensures ok <==> NoOverrun(c, rs, 0, 0)
    ensures ok ==> all == rs && meta.syncId == syncId
    ensures ok ==> found == var e := Lookup(rs, key); if e.Some? then Some(Newest(e.value)) else None
  {
    hide Lossless, LogBytes, FooterLen, Lookup, Sorted, Storable, NoOverrun, Holds, Groups;
    var built := BuildBlocks(c, rs);
    if built.None? { return false, [], None, Meta(0, 0, 0, 0, 0); }
    var t := built.value;
    ghost var gs := Groups(c, rs);
    var m := MetaOf(c, t, |rs|, syncId);
    BuiltStorable(c, t, gs, rs, m);
    var log := LogBytes(c, mc, t, m);
    var r: Table;
    r, meta := FromLog(c, mc, log, t, m);
    var drops;
    all, drops := ScanAll(c, r, false, false, gs, rs);
    PlainScan(rs);
    found := AccessPoint(c, r, key, gs, rs);
    ok := true;
  }
}
