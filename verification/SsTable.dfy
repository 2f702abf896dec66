/** The bytes of a table (sstable.rs): records packed into record blocks, one index entry per block, and
    a footer. */
module SsTables {
  import opened Common
  import opened Arithmetic
  import opened Records
  import opened Encoding
  import opened Levels
  import Compaction

  const BID_SIZE: nat := 8
  const RECORD_BLOCK_NBLOCKS: nat := 32
  const RECORD_BLOCK_SIZE: nat := RECORD_BLOCK_NBLOCKS * BLOCK_SIZE

  /** Plain-old-data encodings of keys and values. */
  datatype Codec = Codec(kSize: nat, vSize: nat, encKey: Key -> Bytes, decKey: Bytes -> Key, encValue: Value -> Bytes, decValue: Bytes -> Value)

  /** Keys and values are decoded as encoded. The source sizes records as if keys took 8 bytes; longer keys
      must make up for it with the value. */
  ghost predicate Lossless(c: Codec) {
    && (forall k :: |c.encKey(k)| == c.kSize && c.decKey(c.encKey(k)) == k)
    && (forall v :: |c.encValue(v)| == c.vSize && c.decValue(c.encValue(v)) == v)
    && c.kSize <= BID_SIZE + c.vSize && c.kSize + MaxRecordSize(c) <= RECORD_BLOCK_SIZE
  }

  function MinRecordSize(c: Codec): nat {
    BID_SIZE + 1 + c.vSize
  }

  function MaxRecordSize(c: Codec): nat {
    BID_SIZE + 1 + 2 * c.vSize
  }

  function FlagOf(e: ValueEx): int {
    match e
    case Synced(_) => 7
    case Unsynced(_) => 11
    case SyncedAndUnsynced(_, _) => 19
  }

  function ValueBytes(c: Codec, e: ValueEx): Bytes {
    match e
    case Synced(v) => c.encValue(v)
    case Unsynced(v) => c.encValue(v)
    case SyncedAndUnsynced(sv, usv) => c.encValue(sv) + c.encValue(usv)
  }

  function RecordBytes(c: Codec, r: Record): Bytes {
    c.encKey(r.key) + [FlagOf(r.value)] + ValueBytes(c, r.value)
  }

  function Body(c: Codec, rs: seq<Record>): Bytes {
    if rs == [] then [] else Body(c, rs[..|rs| - 1]) + RecordBytes(c, rs[|rs| - 1])
  }

  /** A record block: the records, then zeros. */
  function BlockBytes(c: Codec, rs: seq<Record>): Bytes
    requires |Body(c, rs)| <= RECORD_BLOCK_SIZE
  {
    Body(c, rs) + seq(RECORD_BLOCK_SIZE - |Body(c, rs)|, _ => 0)
  }

  function ActualSize(c: Codec, r: Record): nat {
    c.kSize + 1 + if r.value.SyncedAndUnsynced? then 2 * c.vSize else c.vSize
  }

  lemma RecordSize(c: Codec, r: Record)
    requires Lossless(c)
    ensures |RecordBytes(c, r)| == ActualSize(c, r) > 0
  {
  }

  /** The layout of a record: key, flag, then the synced value in front of the unsynced one. */
  lemma RecordLayout(c: Codec, r: Record)
    requires Lossless(c)
    ensures var b := RecordBytes(c, r);
            && |b| > c.kSize && b[..c.kSize] == c.encKey(r.key)
            && match r.value
               case Synced(v) => b[c.kSize] == 7 && b[c.kSize + 1..] == c.encValue(v)
               case Unsynced(v) => b[c.kSize] == 11 && b[c.kSize + 1..] == c.encValue(v)
               case SyncedAndUnsynced(sv, usv) => b[c.kSize] == 19 && b[c.kSize + 1..] == c.encValue(sv) + c.encValue(usv)
  {
  }

  lemma {:induction false} BodyConcat(c: Codec, rs: seq<Record>, ts: seq<Record>)
    ensures Body(c, rs + ts) == Body(c, rs) + Body(c, ts)
  {
    hide RecordBytes;
    if ts == [] {
      assert rs + ts == rs;
    } else {
      assert (rs + ts)[..|rs + ts| - 1] == rs + ts[..|ts| - 1];
      BodyConcat(c, rs, ts[..|ts| - 1]);
    }
  }

  lemma BodySnoc(c: Codec, rs: seq<Record>, r: Record)
    ensures Body(c, rs + [r]) == Body(c, rs) + RecordBytes(c, r)
  {
    assert (rs + [r])[..|rs|] == rs;
  }

  // ---- Reading a block ------------------------------------------------------------------------------------

  /** Where the `n`-th record of a block is. */
  lemma RecordAt(c: Codec, rs: seq<Record>, n: nat)
    requires |Body(c, rs)| <= RECORD_BLOCK_SIZE && n < |rs|
    ensures var o := |Body(c, rs[..n])|;
            var b := RecordBytes(c, rs[n]);
            && o + |b| <= |Body(c, rs)| && BlockBytes(c, rs)[o..o + |b|] == b
            && |Body(c, rs[..n + 1])| == o + |b|
  {
    hide RecordBytes, Body;
    BodySnoc(c, rs[..n], rs[n]);
    assert rs[..n] + [rs[n]] == rs[..n + 1];
    assert rs == rs[..n + 1] + rs[n + 1..];
    BodyConcat(c, rs[..n + 1], rs[n + 1..]);
    var o, b := |Body(c, rs[..n])|, RecordBytes(c, rs[n]);
    var rest := Body(c, rs[n + 1..]) + seq(RECORD_BLOCK_SIZE - |Body(c, rs)|, _ => 0);
    assert BlockBytes(c, rs) == Body(c, rs[..n]) + b + rest;
  }

  /** Decoding a record at `o`. */
  lemma DecodeAt(c: Codec, block: Bytes, o: nat, r: Record)
    requires Lossless(c) && o + |RecordBytes(c, r)| <= |block| && block[o..o + |RecordBytes(c, r)|] == RecordBytes(c, r)
    ensures |RecordBytes(c, r)| == ActualSize(c, r)
    ensures c.decKey(block[o..o + c.kSize]) == r.key && block[o + c.kSize] == FlagOf(r.value)
    ensures var v := o + c.kSize + 1;
            match r.value
            case Synced(w) => c.decValue(block[v..v + c.vSize]) == w
            case Unsynced(w) => c.decValue(block[v..v + c.vSize]) == w
            case SyncedAndUnsynced(sw, usw) =>
              c.decValue(block[v..v + c.vSize]) == sw && c.decValue(block[v + c.vSize..v + 2 * c.vSize]) == usw
  {
    var b := RecordBytes(c, r);
    RecordSize(c, r);
    assert b[..c.kSize] == c.encKey(r.key);
    SliceOf(block, b, o, 0, c.kSize);
    assert block[o..o + |b|][c.kSize] == b[c.kSize] == FlagOf(r.value);
    var v := c.kSize + 1;
    SliceOf(block, b, o, v, v + c.vSize);
    match r.value
    case Synced(w) => assert b[v..v + c.vSize] == c.encValue(w);
    case Unsynced(w) => assert b[v..v + c.vSize] == c.encValue(w);
    case SyncedAndUnsynced(sw, usw) =>
      SliceOf(block, b, o, v + c.vSize, v + 2 * c.vSize);
      assert b[v..v + c.vSize] == c.encValue(sw) && b[v + c.vSize..v + 2 * c.vSize] == c.encValue(usw);
  }

  /** Behind the last record the flag byte, if there is room for one, is not a record's. */
  lemma EndOfBlock(c: Codec, rs: seq<Record>)
    requires |Body(c, rs)| <= RECORD_BLOCK_SIZE
    ensures |BlockBytes(c, rs)| == RECORD_BLOCK_SIZE
    ensures |Body(c, rs)| + c.kSize < RECORD_BLOCK_SIZE ==> BlockBytes(c, rs)[|Body(c, rs)| + c.kSize] == 0
    ensures Body(c, rs) <= BlockBytes(c, rs) && forall i :: |Body(c, rs)| <= i < RECORD_BLOCK_SIZE ==> BlockBytes(c, rs)[i] == 0
  {
  }

  // ---- What a scan yields ------------------------------------------------------------------------------------

  /** What a scan makes of an entry: promoted when all records are known synced, else stripped of unsynced
      values when those are to be discarded. */
  function Yield(e: ValueEx, allSynced: bool, discard: bool): Option<ValueEx> {
    if allSynced || !discard then Some(Promote(e, allSynced).0)
    else if e.Unsynced? then None
    else Some(Synced(SyncedPart(e).value))
  }

  function Loss(e: ValueEx, allSynced: bool, discard: bool): Option<Value> {
    if allSynced || !discard then Promote(e, allSynced).1
    else if e.Synced? then None
    else Some(Newest(e))
  }

  function YieldOf(r: Record, allSynced: bool, discard: bool): seq<Record> {
    var e := Yield(r.value, allSynced, discard);
    if e.Some? then [Record(r.key, e.value)] else []
  }

  function Yields(rs: seq<Record>, allSynced: bool, discard: bool): seq<Record> {
    if rs == [] then []
    else Yields(rs[..|rs| - 1], allSynced, discard) + YieldOf(rs[|rs| - 1], allSynced, discard)
  }

  function Losses(rs: seq<Record>, allSynced: bool, discard: bool): seq<Drop> {
    if rs == [] then []
    else
      var r := rs[|rs| - 1];
      Losses(rs[..|rs| - 1], allSynced, discard) + OptionDrop(r.key, Loss(r.value, allSynced, discard))
  }

  lemma {:induction false} YieldsConcat(rs: seq<Record>, ts: seq<Record>, allSynced: bool, discard: bool)
    ensures Yields(rs + ts, allSynced, discard) == Yields(rs, allSynced, discard) + Yields(ts, allSynced, discard)
    ensures Losses(rs + ts, allSynced, discard) == Losses(rs, allSynced, discard) + Losses(ts, allSynced, discard)
  {
    hide YieldOf, Yield, Loss, OptionDrop;
    if ts == [] {
      assert rs + ts == rs;
    } else {
      assert (rs + ts)[..|rs + ts| - 1] == rs + ts[..|ts| - 1];
      YieldsConcat(rs, ts[..|ts| - 1], allSynced, discard);
    }
  }

  lemma LookupOne(r: Record, k: Key)
    ensures Lookup([r], k) == if r.key == k then Some(r.value) else None
  {
    assert LookupFrom([r], 1, k) == None;
  }

  lemma LastKey(rs: seq<Record>, k: Key)
    requires Sorted(rs) && rs != []
    ensures Lookup(rs[..|rs| - 1], k).Some? ==> rs[|rs| - 1].key != k
  {
    var n := |rs| - 1;
    LookupMember(rs[..n], k);
    if Lookup(rs[..n], k).Some? {
      var m :| 0 <= m < n && rs[..n][m].key == k;
      assert rs[m].key < rs[n].key;
    }
  }

  lemma {:induction false} YieldsLookup(rs: seq<Record>, allSynced: bool, discard: bool, k: Key)
    requires Sorted(rs)
    ensures var e := Lookup(rs, k);
            Lookup(Yields(rs, allSynced, discard), k) == if e.Some? then Yield(e.value, allSynced, discard) else None
  {
    hide Yield;
    if rs != [] {
      var n := |rs| - 1;
      YieldsLookup(rs[..n], allSynced, discard, k);
      var e := Yield(rs[n].value, allSynced, discard);
      if e.Some? { LookupOne(Record(rs[n].key, e.value), k); }
      LookupConcat(Yields(rs[..n], allSynced, discard), YieldOf(rs[n], allSynced, discard), k);
      assert rs[..n] + [rs[n]] == rs;
      LookupConcat(rs[..n], [rs[n]], k);
      LookupOne(rs[n], k);
      LastKey(rs, k);
    }
  }

  /** A discarding scan keeps exactly the synced values. */
  lemma DiscardKeeps(rs: seq<Record>, k: Key)
    requires Sorted(rs)
    ensures var e := Lookup(rs, k);
            Lookup(Yields(rs, false, true), k) ==
            if e.None? || SyncedPart(e.value).None? then None else Some(Synced(SyncedPart(e.value).value))
  {
    YieldsLookup(rs, false, true, k);
  }

  /** A scan, discarding or not, drops exactly the values that it does not yield. */
  lemma {:induction false} YieldsConserve(rs: seq<Record>, allSynced: bool, discard: bool, k: Key, v: Value)
    requires Sorted(rs)
    ensures Compaction.UsesOpt(Lookup(rs, k), v) ==
            Compaction.UsesOpt(Lookup(Yields(rs, allSynced, discard), k), v) + Drops(Losses(rs, allSynced, discard), k, v)
  {
    YieldsLookup(rs, allSynced, discard, k);
    LossesCount(rs, allSynced, discard, k, v);
  }

  lemma {:induction false} LossesCount(rs: seq<Record>, allSynced: bool, discard: bool, k: Key, v: Value)
    requires Sorted(rs)
    ensures var e := Lookup(rs, k);
            Drops(Losses(rs, allSynced, discard), k, v) ==
            if e.Some? then OptionUses(Loss(e.value, allSynced, discard), v) else 0
  {
    hide Loss;
    if rs != [] {
      var n := |rs| - 1;
      LossesCount(rs[..n], allSynced, discard, k, v);
      var d := Loss(rs[n].value, allSynced, discard);
      DropsConcat(Losses(rs[..n], allSynced, discard), OptionDrop(rs[n].key, d), k, v);
      OptionDrops(rs[n].key, d, k, v);
      assert rs[..n] + [rs[n]] == rs;
      LookupConcat(rs[..n], [rs[n]], k);
      LookupOne(rs[n], k);
      LastKey(rs, k);
    }
  }

  /** Without discarding, the bytes yield what the scan of the record list does. */
  lemma YieldsScan(rs: seq<Record>, allSynced: bool, discard: bool)
    requires allSynced || !discard
    ensures Yields(rs, allSynced, discard) == Scan(rs, allSynced)
    ensures Losses(rs, allSynced, discard) == ScanDrops(rs, allSynced, |rs|)
  {
    YieldsAll(rs, allSynced, discard);
    LossesAll(rs, allSynced, discard);
  }

  lemma {:induction false} YieldsAll(rs: seq<Record>, allSynced: bool, discard: bool)
    requires allSynced || !discard
    ensures Yields(rs, allSynced, discard) == Scan(rs, allSynced)
  {
    if rs != [] {
      var n := |rs| - 1;
      YieldsAll(rs[..n], allSynced, discard);
      assert Scan(rs, allSynced) == Scan(rs[..n], allSynced) + [Scan(rs, allSynced)[n]];
    }
  }

  lemma {:induction false} LossesAll(rs: seq<Record>, allSynced: bool, discard: bool)
    requires allSynced || !discard
    ensures Losses(rs, allSynced, discard) == ScanDrops(rs, allSynced, |rs|)
  {
    if rs != [] {
      var n := |rs| - 1;
      LossesAll(rs[..n], allSynced, discard);
      ScanDropsPrefix(rs, allSynced, n);
    }
  }

  lemma {:induction false} ScanDropsPrefix(rs: seq<Record>, allSynced: bool, n: nat)
    requires n <= |rs|
    ensures ScanDrops(rs[..n], allSynced, n) == ScanDrops(rs, allSynced, n)
  {
    ScanDropsPrefixUpTo(rs, allSynced, n, n);
  }

  lemma {:induction false} ScanDropsPrefixUpTo(rs: seq<Record>, allSynced: bool, n: nat, i: nat)
    requires i <= n <= |rs|
    ensures ScanDrops(rs[..n], allSynced, i) == ScanDrops(rs, allSynced, i)
  {
    if i > 0 { ScanDropsPrefixUpTo(rs, allSynced, n, i - 1); }
  }

  /** Every record starts where the reader still looks for one. */
  ghost predicate Roomy(c: Codec, g: seq<Record>) {
    forall n :: 0 <= n < |g| ==> |Body(c, g[..n])| + MinRecordSize(c) <= RECORD_BLOCK_SIZE
  }

  /** `BlockScanIter` until it ends: what the block's records yield and what is dropped meanwhile. */
  method ScanBlock(c: Codec, block: Bytes, allSynced: bool, discard: bool, ghost g: seq<Record>)
    returns (rs: seq<Record>, drops: seq<Drop>)
    requires Lossless(c) && |Body(c, g)| <= RECORD_BLOCK_SIZE && Roomy(c, g) && block == BlockBytes(c, g)
    ensures rs == Yields(g, allSynced, discard) && drops == Losses(g, allSynced, discard)
  {
    hide Body, BlockBytes, RecordBytes, Lossless, Roomy, Yield, Loss, Yields, Losses, YieldOf, OptionDrop;
    rs, drops := [], [];
    var offset := 0;
    ghost var n := 0;
    StartOfBlock(c, g);
    NothingYielded(allSynced, discard);
    EndOfBlock(c, g);
    FlagInBlock(c);
    while offset + MinRecordSize(c) <= RECORD_BLOCK_SIZE
      invariant 0 <= n <= |g| && offset == |Body(c, g[..n])|
      invariant rs == Yields(g[..n], allSynced, discard) && drops == Losses(g[..n], allSynced, discard)
      decreases |g| - n
    {
      var flag := block[offset + c.kSize];
      NextRecord(c, block, g, n, offset);
      if flag != 7 && flag != 11 && flag != 19 {
        assert g[..n] == g;
        return;
      }
      var key := c.decKey(block[offset..offset + c.kSize]);
      var v := offset + c.kSize + 1;
      var value: ValueEx;
      if flag == 19 {
        value := SyncedAndUnsynced(c.decValue(block[v..v + c.vSize]), c.decValue(block[v + c.vSize..v + 2 * c.vSize]));
        offset := v + 2 * c.vSize;
      } else {
        var w := c.decValue(block[v..v + c.vSize]);
        value := if flag == 7 then Synced(w) else Unsynced(w);
        offset := v + c.vSize;
      }
      YieldsNext(g, n, allSynced, discard);
      assert g[n] == Record(key, value);
      rs := rs + YieldOf(Record(key, value), allSynced, discard);
      drops := drops + OptionDrop(key, Loss(value, allSynced, discard));
      n := n + 1;
    }
    NoRoomLeft(c, g, n);
  }

  lemma FlagInBlock(c: Codec)
    requires Lossless(c)
    ensures c.kSize + 1 <= MinRecordSize(c)
  {
  }

  lemma StartOfBlock(c: Codec, g: seq<Record>)
    ensures Body(c, []) == [] && g[..0] == []
  {
  }

  /** What the scan finds at a record boundary. */
  lemma NextRecord(c: Codec, block: Bytes, g: seq<Record>, n: nat, o: nat)
    requires Lossless(c) && |Body(c, g)| <= RECORD_BLOCK_SIZE && block == BlockBytes(c, g)
    requires n <= |g| && o == |Body(c, g[..n])| && o + MinRecordSize(c) <= RECORD_BLOCK_SIZE
    ensures |block| == RECORD_BLOCK_SIZE
    ensures n == |g| ==> block[o + c.kSize] == 0
    ensures n < |g| ==>
              && block[o + c.kSize] == FlagOf(g[n].value) && c.decKey(block[o..o + c.kSize]) == g[n].key
              && |Body(c, g[..n + 1])| == o + ActualSize(c, g[n]) <= RECORD_BLOCK_SIZE
              && var v := o + c.kSize + 1;
                 match g[n].value
                 case Synced(w) => c.decValue(block[v..v + c.vSize]) == w
                 case Unsynced(w) => c.decValue(block[v..v + c.vSize]) == w
                 case SyncedAndUnsynced(sw, usw) =>
                   c.decValue(block[v..v + c.vSize]) == sw && c.decValue(block[v + c.vSize..v + 2 * c.vSize]) == usw
  {
    hide Body, BlockBytes, RecordBytes;
    EndOfBlock(c, g);
    if n == |g| {
      assert g[..n] == g;
    } else {
      RecordAt(c, g, n);
      DecodeAt(c, block, o, g[n]);
    }
  }

  lemma NoRoomLeft(c: Codec, g: seq<Record>, n: nat)
    requires Roomy(c, g) && n <= |g|
    requires |Body(c, g[..n])| + MinRecordSize(c) > RECORD_BLOCK_SIZE
    ensures n == |g| && g[..n] == g
  {
  }

  // ---- Building the record blocks ----------------------------------------------------------------------

  datatype IndexEntry = IndexEntry(pos: nat, first: Key, last: Key)

  datatype Table = Table(blocks: seq<Bytes>, index: seq<IndexEntry>)

  /** What the builder adds to its offset for a record: a record with two values counts its key twice. */
  function CountedSize(c: Codec, r: Record): nat {
    c.kSize + if r.value.SyncedAndUnsynced? then MaxRecordSize(c) else 1 + c.vSize
  }

  /** From record `i` on, starting at offset `inner` of a block, no record is counted beyond the end of its
      block; there the source's remaining capacity would be negative. */
  predicate NoOverrun(c: Codec, rs: seq<Record>, i: nat, inner: nat)
    decreases |rs| - i
  {
    i >= |rs| ||
    var o := inner + CountedSize(c, rs[i]);
    o <= RECORD_BLOCK_SIZE && NoOverrun(c, rs, i + 1, if RECORD_BLOCK_SIZE - o >= MaxRecordSize(c) then o else 0)
  }

  /** The builder's offset before record `i`. */
  function OffsetOf(c: Codec, rs: seq<Record>, i: nat): nat
    requires i <= |rs|
  {
    if i == 0 then 0
    else
      var o := OffsetOf(c, rs, i - 1) + CountedSize(c, rs[i - 1]);
      if RECORD_BLOCK_SIZE - o >= MaxRecordSize(c) then o else 0
  }

  /** Building succeeds if and only if every record with two values starts with room for the largest record
      and one more key. */
  lemma NoOverrunIff(c: Codec, rs: seq<Record>)
    requires Lossless(c)
    ensures NoOverrun(c, rs, 0, 0) <==>
            forall i :: 0 <= i < |rs| && rs[i].value.SyncedAndUnsynced? ==>
              RECORD_BLOCK_SIZE - OffsetOf(c, rs, i) >= MaxRecordSize(c) + c.kSize
  {
    NoOverrunFrom(c, rs, 0);
  }

  lemma {:induction false} NoOverrunFrom(c: Codec, rs: seq<Record>, i: nat)
    requires Lossless(c) && i <= |rs|
    requires i < |rs| ==> OffsetOf(c, rs, i) == 0 || RECORD_BLOCK_SIZE - OffsetOf(c, rs, i) >= MaxRecordSize(c)
    ensures NoOverrun(c, rs, i, OffsetOf(c, rs, i)) <==>
            forall j :: i <= j < |rs| && rs[j].value.SyncedAndUnsynced? ==>
              RECORD_BLOCK_SIZE - OffsetOf(c, rs, j) >= MaxRecordSize(c) + c.kSize
    decreases |rs| - i
  {
    if i < |rs| {
      var o := OffsetOf(c, rs, i) + CountedSize(c, rs[i]);
      NoOverrunFrom(c, rs, i + 1);
      assert OffsetOf(c, rs, i + 1) == if RECORD_BLOCK_SIZE - o >= MaxRecordSize(c) then o else 0;
      assert rs[i].value.SyncedAndUnsynced? ==>
          (o <= RECORD_BLOCK_SIZE <==> RECORD_BLOCK_SIZE - OffsetOf(c, rs, i) >= MaxRecordSize(c) + c.kSize);
    }
  }

  /** A list without such records can always be built. */
  lemma SinglesFit(c: Codec, rs: seq<Record>)
    requires Lossless(c) && forall i :: 0 <= i < |rs| ==> !rs[i].value.SyncedAndUnsynced?
    ensures NoOverrun(c, rs, 0, 0)
  {
    NoOverrunIff(c, rs);
  }

  /** With the disk's 40-byte values an overrun is within reach: 2673 records with one value each leave 95
      bytes, enough for any record but not for the count of one with two values. */
  lemma OverrunReachable(c: Codec, rs: seq<Record>)
    requires c.kSize == 8 && c.vSize == 40 && |rs| > 2673 && rs[2673].value.SyncedAndUnsynced?
    requires forall i :: 0 <= i < 2673 ==> !rs[i].value.SyncedAndUnsynced?
    ensures !NoOverrun(c, rs, 0, 0)
  {
    CountTo(c, rs, 2673);
  }

  lemma {:induction false} CountTo(c: Codec, rs: seq<Record>, n: nat)
    requires c.kSize == 8 && c.vSize == 40 && n <= 2673 && n <= |rs|
    requires forall i :: 0 <= i < n ==> !rs[i].value.SyncedAndUnsynced?
    ensures NoOverrun(c, rs, 0, 0) == NoOverrun(c, rs, n, 49 * n)
  {
    if n > 0 { CountTo(c, rs, n - 1); }
  }

  function Joined(gs: seq<seq<Record>>): seq<Record> {
    if gs == [] then [] else Joined(gs[..|gs| - 1]) + gs[|gs| - 1]
  }

  lemma JoinedSnoc(gs: seq<seq<Record>>, g: seq<Record>)
    ensures Joined(gs + [g]) == Joined(gs) + g
  {
    assert (gs + [g])[..|gs|] == gs;
  }

  /** A block and its index entry for one group of records. */
  ghost predicate Holds(c: Codec, block: Bytes, e: IndexEntry, g: seq<Record>, i: nat) {
    && g != [] && |Body(c, g)| <= RECORD_BLOCK_SIZE && Roomy(c, g) && block == BlockBytes(c, g)
    && e == IndexEntry(i * RECORD_BLOCK_NBLOCKS, g[0].key, g[|g| - 1].key)
  }

  /** The table stores the records, group by group. */
  ghost predicate Stores(c: Codec, t: Table, gs: seq<seq<Record>>, rs: seq<Record>) {
    && |t.blocks| == |t.index| == |gs| && Joined(gs) == rs
    && forall i :: 0 <= i < |gs| ==> Holds(c, t.blocks[i], t.index[i], gs[i], i)
  }

  /** The first `i` records by block: those in closed blocks, and those in the block being filled. */
  function Split(c: Codec, rs: seq<Record>, i: nat): (seq<seq<Record>>, seq<Record>)
    requires i <= |rs|
  {
    if i == 0 then ([], [])
    else
      var (gs, g) := Split(c, rs, i - 1);
      if OffsetOf(c, rs, i) == 0 then (gs + [g + [rs[i - 1]]], []) else (gs, g + [rs[i - 1]])
  }

  /** The records by block: a block is closed as soon as it might not take another record. */
  function Groups(c: Codec, rs: seq<Record>): seq<seq<Record>> {
    var (gs, g) := Split(c, rs, |rs|);
    if g == [] then gs else gs + [g]
  }

  /** How many blocks a table takes. */
  lemma GroupsBound(c: Codec, rs: seq<Record>)
    requires MaxRecordSize(c) <= RECORD_BLOCK_SIZE
    ensures (|Groups(c, rs)| - 1) * (RECORD_BLOCK_SIZE - MaxRecordSize(c) + 1) <= |rs| * (c.kSize + MaxRecordSize(c))
  {
    SplitBound(c, rs, |rs|);
    var n, a := |Split(c, rs, |rs|).0|, RECORD_BLOCK_SIZE - MaxRecordSize(c) + 1;
    assert (n - 1) * a == n * a - a;
  }

  lemma {:induction false} SplitBound(c: Codec, rs: seq<Record>, i: nat)
    requires MaxRecordSize(c) <= RECORD_BLOCK_SIZE && i <= |rs|
    ensures |Split(c, rs, i).0| * (RECORD_BLOCK_SIZE - MaxRecordSize(c) + 1) + OffsetOf(c, rs, i) <= i * (c.kSize + MaxRecordSize(c))
  {
    if i > 0 {
      hide *;
      SplitBound(c, rs, i - 1);
      SplitStep(c, rs, i);
      BoundStep(|Split(c, rs, i - 1).0|, |Split(c, rs, i).0|, OffsetOf(c, rs, i - 1), OffsetOf(c, rs, i),
                RECORD_BLOCK_SIZE - MaxRecordSize(c) + 1, c.kSize + MaxRecordSize(c), i);
    }
  }

  lemma BoundStep(n: nat, n': nat, o: nat, o': nat, a: nat, b: nat, i: nat)
    requires i > 0 && n * a + o <= (i - 1) * b
    requires (n' == n && o' <= o + b) || (n' == n + 1 && o' == 0 && a <= o + b)
    ensures n' * a + o' <= i * b
  {
    assert (n + 1) * a == n * a + a;
    assert i * b == (i - 1) * b + b;
  }

  /** A record either advances the offset or closes a block that is full enough. */
  lemma SplitStep(c: Codec, rs: seq<Record>, i: nat)
    requires 0 < i <= |rs|
    ensures var n, n' := |Split(c, rs, i - 1).0|, |Split(c, rs, i).0|;
            var o, o' := OffsetOf(c, rs, i - 1), OffsetOf(c, rs, i);
            var b := c.kSize + MaxRecordSize(c);
            || (n' == n && o' <= o + b)
            || (n' == n + 1 && o' == 0 && RECORD_BLOCK_SIZE - MaxRecordSize(c) + 1 <= o + b)
  {
  }

  /** `build_record_blocks`. It fails, by an underflow, exactly when some record overruns its block in the
      builder's count. */
  method BuildBlocks(c: Codec, rs: seq<Record>) returns (r: Option<Table>)
    requires Lossless(c)
    ensures r.Some? <==> NoOverrun(c, rs, 0, 0)
    ensures r.Some? ==> Stores(c, r.value, Groups(c, rs), rs)
  {
    hide *;
    var t := Table([], []);
    ghost var gs: seq<seq<Record>> := [];
    ghost var g: seq<Record> := [];
    var buf: Bytes, inner: nat, first, last := [], 0, 0, 0;
    NothingBuilt(c, rs);
    var i := 0;
    while i < |rs|
      invariant 0 <= i <= |rs| && Building(c, rs, i, t, gs, g, buf, first, last, inner)
    {
      BuildOn(c, rs, i, t, gs, g, buf, first, last, inner);
      var key := rs[i].key;
      if inner == 0 { first := key; }
      last := key;
      buf := buf + RecordBytes(c, rs[i]);
      inner := inner + CountedSize(c, rs[i]);
      g := g + [rs[i]];
      if inner > RECORD_BLOCK_SIZE { return None; }
      if RECORD_BLOCK_SIZE - inner < MaxRecordSize(c) {
        t := AddBlock(t, buf, first, last);
        gs, g := gs + [g], [];
        buf, inner := [], 0;
      }
      i := i + 1;
    }
    BuildEnd(c, rs, t, gs, g, buf, first, last, inner);
    if buf != [] { t := AddBlock(t, buf, first, last); }
    r := Some(t);
  }

  /** The builder before record `i`. */
  ghost predicate Building(c: Codec, rs: seq<Record>, i: nat, t: Table, gs: seq<seq<Record>>, g: seq<Record>, buf: Bytes, first: Key, last: Key, inner: nat) {
    && i <= |rs| && inner == OffsetOf(c, rs, i) && (gs, g) == Split(c, rs, i)
    && NoOverrun(c, rs, 0, 0) == NoOverrun(c, rs, i, inner)
    && Stores(c, t, gs, Joined(gs)) && Joined(gs) + g == rs[..i]
    && Filling(c, buf, g, first, last, inner)
  }

  /** The builder's count at the next record. */
  lemma CountOn(c: Codec, rs: seq<Record>, i: nat)
    requires i < |rs|
    ensures var (gs, g) := Split(c, rs, i);
            var o := OffsetOf(c, rs, i) + CountedSize(c, rs[i]);
            && o > 0
            && (o > RECORD_BLOCK_SIZE ==> !NoOverrun(c, rs, i, OffsetOf(c, rs, i)))
            && (o <= RECORD_BLOCK_SIZE ==> NoOverrun(c, rs, i, OffsetOf(c, rs, i)) == NoOverrun(c, rs, i + 1, OffsetOf(c, rs, i + 1)))
            && if RECORD_BLOCK_SIZE - o >= MaxRecordSize(c)
               then OffsetOf(c, rs, i + 1) == o && Split(c, rs, i + 1) == (gs, g + [rs[i]])
               else OffsetOf(c, rs, i + 1) == 0 && Split(c, rs, i + 1) == (gs + [g + [rs[i]]], [])
  {
  }

  lemma BuildOn(c: Codec, rs: seq<Record>, i: nat, t: Table, gs: seq<seq<Record>>, g: seq<Record>, buf: Bytes, first: Key, last: Key, inner: nat)
    requires Lossless(c) && i < |rs| && Building(c, rs, i, t, gs, g, buf, first, last, inner)
    ensures var first', o := if inner == 0 then rs[i].key else first, inner + CountedSize(c, rs[i]);
            var buf', g' := buf + RecordBytes(c, rs[i]), g + [rs[i]];
            if o > RECORD_BLOCK_SIZE then !NoOverrun(c, rs, 0, 0)
            else if RECORD_BLOCK_SIZE - o < MaxRecordSize(c) then
              Building(c, rs, i + 1, AddBlock(t, buf', first', rs[i].key), gs + [g'], [], [], first', rs[i].key, 0)
            else Building(c, rs, i + 1, t, gs, g', buf', first', rs[i].key, o)
  {
    hide Body, BlockBytes, RecordBytes, Lossless, Joined, Roomy, Stores, AddBlock, OffsetOf, Split, NoOverrun, CountedSize;
    CountOn(c, rs, i);
    var first', o := if inner == 0 then rs[i].key else first, inner + CountedSize(c, rs[i]);
    var buf', g' := buf + RecordBytes(c, rs[i]), g + [rs[i]];
    assert rs[..i + 1] == rs[..i] + [rs[i]];
    assert Joined(gs) + g' == Joined(gs) + g + [rs[i]];
    FillOne(c, buf, g, inner, rs[i], first', rs[i].key);
    if o <= RECORD_BLOCK_SIZE && RECORD_BLOCK_SIZE - o < MaxRecordSize(c) {
      CloseBlock(c, t, gs, g', buf', first', rs[i].key, o);
      JoinedSnoc(gs, g');
      NothingBuilt(c, rs);
      assert Joined(gs + [g']) + [] == Joined(gs + [g']);
    }
  }

  lemma BuildEnd(c: Codec, rs: seq<Record>, t: Table, gs: seq<seq<Record>>, g: seq<Record>, buf: Bytes, first: Key, last: Key, inner: nat)
    requires Lossless(c) && Building(c, rs, |rs|, t, gs, g, buf, first, last, inner)
    ensures NoOverrun(c, rs, 0, 0)
    ensures Stores(c, if buf != [] then AddBlock(t, buf, first, last) else t, Groups(c, rs), rs)
  {
    hide Body, BlockBytes, RecordBytes, Lossless, Joined, Roomy, Stores, AddBlock, Split, OffsetOf;
    assert rs[..|rs|] == rs;
    EmptyBody(c, g);
    if buf != [] {
      LastBlock(c, t, gs, g, buf, first, last, inner);
      JoinedSnoc(gs, g);
    } else {
      assert Joined(gs) + [] == Joined(gs);
    }
  }

  /** The block being filled. */
  ghost predicate Filling(c: Codec, buf: Bytes, g: seq<Record>, first: Key, last: Key, inner: nat) {
    && buf == Body(c, g) && |buf| <= inner <= RECORD_BLOCK_SIZE && Roomy(c, g)
    && (g == [] <==> inner == 0)
    && (g != [] ==> first == g[0].key && last == g[|g| - 1].key && RECORD_BLOCK_SIZE - inner >= MaxRecordSize(c))
  }

  lemma NothingBuilt(c: Codec, rs: seq<Record>)
    ensures Joined([]) == [] && Joined([]) + [] == rs[..0] && Body(c, []) == [] && Roomy(c, [])
    ensures Building(c, rs, 0, Table([], []), [], [], [], 0, 0, 0)
  {
  }

  lemma FillOne(c: Codec, buf: Bytes, g: seq<Record>, inner: nat, r: Record, first: Key, last: Key)
    requires Lossless(c) && buf == Body(c, g) && |buf| <= inner && Roomy(c, g)
    requires g != [] ==> RECORD_BLOCK_SIZE - inner >= MaxRecordSize(c)
    requires (g == [] <==> inner == 0) && last == r.key && (g == [] ==> first == r.key) && (g != [] ==> first == g[0].key)
    ensures var g' := g + [r];
            && buf + RecordBytes(c, r) == Body(c, g') && |Body(c, g')| <= inner + CountedSize(c, r)
            && CountedSize(c, r) > 0 && Roomy(c, g') && first == g'[0].key && last == g'[|g'| - 1].key
  {
    hide Body, RecordBytes;
    BodySnoc(c, g, r);
    RecordSize(c, r);
    StartOfBlock(c, g);
    var g' := g + [r];
    forall n | 0 <= n < |g'| ensures |Body(c, g'[..n])| + MinRecordSize(c) <= RECORD_BLOCK_SIZE {
      if n < |g| { assert g'[..n] == g[..n]; } else { assert g'[..n] == g; }
    }
  }

  function AddBlock(t: Table, buf: Bytes, first: Key, last: Key): Table {
    Table(t.blocks + [buf + seq(if |buf| < RECORD_BLOCK_SIZE then RECORD_BLOCK_SIZE - |buf| else 0, _ => 0)],
          t.index + [IndexEntry(|t.index| * RECORD_BLOCK_NBLOCKS, first, last)])
  }

  lemma CloseBlock(c: Codec, t: Table, gs: seq<seq<Record>>, g: seq<Record>, buf: Bytes, first: Key, last: Key, inner: nat)
    requires Stores(c, t, gs, Joined(gs)) && g != []
    requires buf == Body(c, g) && |buf| <= inner <= RECORD_BLOCK_SIZE && Roomy(c, g) && first == g[0].key && last == g[|g| - 1].key
    ensures Stores(c, AddBlock(t, buf, first, last), gs + [g], Joined(gs + [g]))
  {
    hide Body, Joined;
    var t' := AddBlock(t, buf, first, last);
    forall i | 0 <= i < |gs + [g]| ensures Holds(c, t'.blocks[i], t'.index[i], (gs + [g])[i], i) {
      if i < |gs| { assert Holds(c, t.blocks[i], t.index[i], gs[i], i); }
    }
  }

  lemma LastBlock(c: Codec, t: Table, gs: seq<seq<Record>>, g: seq<Record>, buf: Bytes, first: Key, last: Key, inner: nat)
    requires Stores(c, t, gs, Joined(gs)) && Filling(c, buf, g, first, last, inner) && buf != []
    ensures Stores(c, AddBlock(t, buf, first, last), gs + [g], Joined(gs + [g]))
  {
    CloseBlock(c, t, gs, g, buf, first, last, inner);
  }

  lemma EmptyBody(c: Codec, g: seq<Record>)
    requires Lossless(c)
    ensures g == [] || Body(c, g) != []
  {
    if g != [] { RecordSize(c, g[|g| - 1]); }
  }

  // ---- Reading the table -----------------------------------------------------------------------------------

  /** The first block behind block 0 that yields nothing. */
  function StopFrom(gs: seq<seq<Record>>, i: nat, allSynced: bool, discard: bool): (n: nat)
    requires i <= |gs|
    ensures i <= n <= |gs|
    decreases |gs| - i
  {
    if i == |gs| || Yields(gs[i], allSynced, discard) == [] then i else StopFrom(gs, i + 1, allSynced, discard)
  }

  /** The groups a table iterator goes through: it ends at a block, other than the first, that yields
      nothing. */
  function Visited(gs: seq<seq<Record>>, allSynced: bool, discard: bool): seq<seq<Record>> {
    if gs == [] then [] else gs[..StopFrom(gs, 1, allSynced, discard)]
  }

  /** The groups it reads, the one where it ends included. */
  function Reached(gs: seq<seq<Record>>, allSynced: bool, discard: bool): seq<seq<Record>> {
    if gs == [] then []
    else
      var n := StopFrom(gs, 1, allSynced, discard);
      if n < |gs| then gs[..n + 1] else gs
  }

  /** `SstIter` over a table. Unless unsynced records are discarded, every record is yielded as `Scan` says. */
  method ScanAll(c: Codec, t: Table, allSynced: bool, discard: bool, ghost gs: seq<seq<Record>>, ghost rs: seq<Record>)
    returns (out: seq<Record>, drops: seq<Drop>)
    requires Lossless(c) && Stores(c, t, gs, rs)
    ensures out == Yields(Joined(Visited(gs, allSynced, discard)), allSynced, discard)
    ensures drops == Losses(Joined(Reached(gs, allSynced, discard)), allSynced, discard)
    ensures allSynced || !discard ==> out == Scan(rs, allSynced) && drops == ScanDrops(rs, allSynced, |rs|)
  {
    hide Body, BlockBytes, Lossless, Joined, Roomy, Yields, Losses;
    out, drops := [], [];
    NothingBuilt(c, rs);
    NothingYielded(allSynced, discard);
    if allSynced || !discard { AllVisited(gs, rs, allSynced, discard); }
    var n := 0;
    while n < |t.blocks|
      invariant 0 <= n <= |t.blocks| && out == Yields(Joined(gs[..n]), allSynced, discard)
      invariant drops == Losses(Joined(gs[..n]), allSynced, discard)
      invariant n > 0 ==> StopFrom(gs, 1, allSynced, discard) == StopFrom(gs, n, allSynced, discard)
    {
      assert Holds(c, t.blocks[n], t.index[n], gs[n], n);
      var part, lost := ScanBlock(c, t.blocks[n], allSynced, discard, gs[n]);
      JoinedSnoc(gs[..n], gs[n]);
      YieldsConcat(Joined(gs[..n]), gs[n], allSynced, discard);
      assert gs[..n] + [gs[n]] == gs[..n + 1];
      if n > 0 && part == [] {
        drops := drops + lost;
        return;
      }
      out, drops := out + part, drops + lost;
      n := n + 1;
    }
    assert gs[..n] == gs;
  }

  lemma YieldsNext(rs: seq<Record>, n: nat, allSynced: bool, discard: bool)
    requires n < |rs|
    ensures Yields(rs[..n + 1], allSynced, discard) == Yields(rs[..n], allSynced, discard) + YieldOf(rs[n], allSynced, discard)
    ensures Losses(rs[..n + 1], allSynced, discard) ==
            Losses(rs[..n], allSynced, discard) + OptionDrop(rs[n].key, Loss(rs[n].value, allSynced, discard))
  {
    assert rs[..n + 1][..n] == rs[..n];
  }

  lemma NothingYielded(allSynced: bool, discard: bool)
    ensures Yields([], allSynced, discard) == [] && Losses([], allSynced, discard) == []
  {
  }

  lemma AllVisited(gs: seq<seq<Record>>, rs: seq<Record>, allSynced: bool, discard: bool)
    requires (allSynced || !discard) && Joined(gs) == rs && forall i :: 0 <= i < |gs| ==> gs[i] != []
    ensures Visited(gs, allSynced, discard) == gs && (gs != [] ==> StopFrom(gs, 1, allSynced, discard) == |gs|)
    ensures Yields(rs, allSynced, discard) == Scan(rs, allSynced)
    ensures Losses(rs, allSynced, discard) == ScanDrops(rs, allSynced, |rs|)
  {
    YieldsScan(rs, allSynced, discard);
    if gs != [] { NoStop(gs, 1, allSynced, discard); }
  }

  lemma {:induction false} NoStop(gs: seq<seq<Record>>, i: nat, allSynced: bool, discard: bool)
    requires (allSynced || !discard) && i <= |gs| && forall j :: 0 <= j < |gs| ==> gs[j] != []
    ensures StopFrom(gs, i, allSynced, discard) == |gs|
    decreases |gs| - i
  {
    if i < |gs| {
      YieldsScan(gs[i], allSynced, discard);
      NoStop(gs, i + 1, allSynced, discard);
    }
  }

  /** Whatever a table iterator reads, it yields or drops, values of the block where it ends included. */
  lemma ScanConserves(gs: seq<seq<Record>>, allSynced: bool, discard: bool, k: Key, v: Value)
    requires Sorted(Joined(gs))
    ensures var read := Joined(Reached(gs, allSynced, discard));
            var out := Yields(Joined(Visited(gs, allSynced, discard)), allSynced, discard);
            && read <= Joined(gs)
            && Compaction.UsesOpt(Lookup(read, k), v) ==
               Compaction.UsesOpt(Lookup(out, k), v) + Drops(Losses(read, allSynced, discard), k, v)
  {
    hide Yields, Losses, Lookup;
    var read := Joined(Reached(gs, allSynced, discard));
    var rest := gs[|Reached(gs, allSynced, discard)|..];
    assert Reached(gs, allSynced, discard) + rest == gs;
    JoinedConcat(Reached(gs, allSynced, discard), rest);
    assert Sorted(read) by { assert forall i :: 0 <= i < |read| ==> Joined(gs)[i] == read[i]; }
    ReachedYields(gs, allSynced, discard);
    YieldsConserve(read, allSynced, discard, k, v);
  }

  lemma ReachedYields(gs: seq<seq<Record>>, allSynced: bool, discard: bool)
    ensures Yields(Joined(Reached(gs, allSynced, discard)), allSynced, discard) ==
            Yields(Joined(Visited(gs, allSynced, discard)), allSynced, discard)
  {
    hide Yields, Losses;
    if gs != [] {
      var n := StopFrom(gs, 1, allSynced, discard);
      StopYieldsNothing(gs, 1, allSynced, discard);
      if n < |gs| {
        assert gs[..n + 1] == gs[..n] + [gs[n]];
        JoinedSnoc(gs[..n], gs[n]);
        YieldsConcat(Joined(gs[..n]), gs[n], allSynced, discard);
      } else {
        assert gs[..n] == gs;
      }
    }
  }

  lemma {:induction false} StopYieldsNothing(gs: seq<seq<Record>>, i: nat, allSynced: bool, discard: bool)
    requires i <= |gs|
    ensures var n := StopFrom(gs, i, allSynced, discard); n < |gs| ==> Yields(gs[n], allSynced, discard) == []
    decreases |gs| - i
  {
    if i < |gs| { StopYieldsNothing(gs, i + 1, allSynced, discard); }
  }

  predicate AllUnsynced(rs: seq<Record>) {
    forall i :: 0 <= i < |rs| ==> rs[i].value.Unsynced?
  }

  /** A discarding scan yields every synced value if and only if, behind the first block, a block without
      synced values is followed by such blocks only. */
  lemma DiscardingScan(gs: seq<seq<Record>>)
    ensures Yields(Joined(Visited(gs, false, true)), false, true) == Yields(Joined(gs), false, true)
            <==> forall i, j :: 1 <= i < j < |gs| && AllUnsynced(gs[i]) ==> AllUnsynced(gs[j])
  {
    if gs != [] {
      var n := StopFrom(gs, 1, false, true);
      JoinedConcat(gs[..n], gs[n..]);
      assert gs[..n] + gs[n..] == gs;
      YieldsConcat(Joined(gs[..n]), Joined(gs[n..]), false, true);
      YieldsNothing(Joined(gs[n..]));
      JoinedUnsynced(gs[n..]);
      StopsAt(gs, 1);
    }
  }

  lemma {:induction false} YieldsNothing(rs: seq<Record>)
    ensures Yields(rs, false, true) == [] <==> AllUnsynced(rs)
  {
    if rs != [] { YieldsNothing(rs[..|rs| - 1]); }
  }

  lemma {:induction false} JoinedUnsynced(gs: seq<seq<Record>>)
    ensures AllUnsynced(Joined(gs)) <==> forall i :: 0 <= i < |gs| ==> AllUnsynced(gs[i])
  {
    if gs != [] {
      var n := |gs| - 1;
      JoinedUnsynced(gs[..n]);
      var a := Joined(gs[..n]);
      assert AllUnsynced(a + gs[n]) <==> AllUnsynced(a) && AllUnsynced(gs[n]) by {
        assert (a + gs[n])[..|a|] == a && (a + gs[n])[|a|..] == gs[n];
      }
    }
  }

  lemma {:induction false} StopsAt(gs: seq<seq<Record>>, i: nat)
    requires i <= |gs|
    ensures var n := StopFrom(gs, i, false, true);
            (n < |gs| ==> AllUnsynced(gs[n])) && forall j :: i <= j < n ==> !AllUnsynced(gs[j])
    decreases |gs| - i
  {
    if i < |gs| {
      YieldsNothing(gs[i]);
      StopsAt(gs, i + 1);
    }
  }

  /** The first `n` stretches of 2674 records. */
  function Stretches(rs: seq<Record>, n: nat): (r: seq<seq<Record>>)
    requires 2674 * n <= |rs|
    ensures |r| == n && forall j :: 0 <= j < n ==> r[j] == rs[2674 * j..2674 * (j + 1)]
  {
    if n == 0 then [] else Stretches(rs, n - 1) + [rs[2674 * (n - 1)..2674 * n]]
  }

  /** Records with one value each, 40 bytes long, fill blocks of 2674. */
  lemma {:induction false} SinglesSplit(c: Codec, rs: seq<Record>, i: nat)
    requires c.kSize == 8 && c.vSize == 40 && i <= |rs|
    requires forall j :: 0 <= j < |rs| ==> !rs[j].value.SyncedAndUnsynced?
    ensures OffsetOf(c, rs, i) == 49 * (i % 2674)
    ensures Split(c, rs, i) == (Stretches(rs, i / 2674), rs[i - i % 2674..i])
  {
    if i > 0 {
      SinglesSplit(c, rs, i - 1);
      var m := i - 1 - (i - 1) % 2674;
      assert rs[m..i - 1] + [rs[i - 1]] == rs[m..i];
      if i % 2674 == 0 {
        assert i / 2674 == (i - 1) / 2674 + 1 && m == 2674 * (i / 2674 - 1) && i == 2674 * (i / 2674);
        assert rs[i..i] == [];
      } else {
        assert i / 2674 == (i - 1) / 2674 && i - i % 2674 == m;
      }
    }
  }

  lemma TwoFullBlocks(c: Codec, rs: seq<Record>)
    requires c.kSize == 8 && c.vSize == 40 && |rs| >= 5348
    requires forall i :: 0 <= i < |rs| ==> !rs[i].value.SyncedAndUnsynced?
    ensures var gs := Groups(c, rs); |gs| >= 2 && gs[0] == rs[0..2674] && gs[1] == rs[2674..5348]
  {
    hide OffsetOf, Split;
    SinglesSplit(c, rs, |rs|);
  }

  /** A scan that ends at the second block. */
  lemma EndsEarly(gs: seq<seq<Record>>)
    requires |gs| >= 2 && AllUnsynced(gs[1])
    ensures Joined(Visited(gs, false, true)) == gs[0]
  {
    hide Yields;
    YieldsNothing(gs[1]);
    assert Visited(gs, false, true) == [] + [gs[0]];
    JoinedSnoc([], gs[0]);
  }

  lemma SyncedBehind(rs: seq<Record>, n: nat, i: nat)
    requires n <= i < |rs| && rs[i].value.Synced?
    ensures Yields(rs[..n], false, true) != Yields(rs, false, true)
  {
    hide Yields;
    assert rs[..n] + rs[n..] == rs && rs[n..][i - n] == rs[i];
    YieldsConcat(rs[..n], rs[n..], false, true);
    YieldsNothing(rs[n..]);
  }

  /** A discarding scan that loses values: whatever such a list holds behind two full blocks, the second of
      them unsynced, is left out. */
  method LosingScan(c: Codec, rs: seq<Record>) returns (out: seq<Record>, drops: seq<Drop>)
    requires Lossless(c) && c.kSize == 8 && c.vSize == 40 && |rs| > 5348
    requires forall i :: 0 <= i < |rs| ==> !rs[i].value.SyncedAndUnsynced?
    requires AllUnsynced(rs[2674..5348])
    ensures out == Yields(rs[..2674], false, true)
    ensures rs[5348].value.Synced? ==> out != Yields(rs, false, true)
  {
    hide *;
    SinglesFit(c, rs);
    var r := BuildBlocks(c, rs);
    TwoFullBlocks(c, rs);
    ghost var gs := Groups(c, rs);
    EndsEarly(gs);
    out, drops := ScanAll(c, r.value, false, true, gs, rs);
    assert rs[0..2674] == rs[..2674];
    if rs[5348].value.Synced? { SyncedBehind(rs, 2674, 5348); }
  }

  lemma {:induction false} JoinedConcat(gs: seq<seq<Record>>, hs: seq<seq<Record>>)
    ensures Joined(gs + hs) == Joined(gs) + Joined(hs)
  {
    if hs == [] {
      assert gs + hs == gs;
    } else {
      assert (gs + hs)[..|gs + hs| - 1] == gs + hs[..|hs| - 1];
      JoinedConcat(gs, hs[..|hs| - 1]);
    }
  }

  /** Plain scans give back the records. */
  lemma PlainScan(rs: seq<Record>)
    ensures Scan(rs, false) == rs
  {
  }

  lemma {:induction false} JoinedAt(gs: seq<seq<Record>>, i: nat)
    requires i < |gs|
    ensures Joined(gs) == Joined(gs[..i]) + gs[i] + Joined(gs[i + 1..])
    decreases |gs|
  {
    var n := |gs| - 1;
    if i < n {
      JoinedAt(gs[..n], i);
      assert gs[..n][..i] == gs[..i] && gs[..n][i + 1..] == gs[i + 1..n];
      assert gs[i + 1..][..n - i - 1] == gs[i + 1..n];
    } else {
      assert gs[i + 1..] == [];
    }
  }

  /** The group whose index range has the key holds its record, if the table does. */
  lemma GroupLookup(rs: seq<Record>, gs: seq<seq<Record>>, i: nat, k: Key)
    requires Sorted(rs) && Joined(gs) == rs && i < |gs| && gs[i] != []
    requires gs[i][0].key <= k <= gs[i][|gs[i]| - 1].key
    ensures Lookup(rs, k) == Lookup(gs[i], k)
  {
    JoinedAt(gs, i);
    var a, g, b := Joined(gs[..i]), gs[i], Joined(gs[i + 1..]);
    LookupConcat(a + g, b, k);
    LookupConcat(a, g, k);
    LookupMember(a, k);
    LookupMember(b, k);
    assert forall n :: 0 <= n < |a| ==> rs[n] == a[n];
    assert forall n :: 0 <= n < |g| ==> rs[|a| + n] == g[n];
    assert forall n :: 0 <= n < |b| ==> rs[|a| + |g| + n] == b[n];
    assert rs[|a|] == g[0] && rs[|a| + |g| - 1] == g[|g| - 1];
    forall n | 0 <= n < |a| ensures a[n].key < k { assert rs[n].key < rs[|a|].key; }
    forall n | 0 <= n < |b| ensures b[n].key > k { assert rs[|a| + |g| + n].key > rs[|a| + |g| - 1].key; }
  }

  /** A key in no group's range has no record. */
  lemma {:induction false} NoGroup(gs: seq<seq<Record>>, k: Key)
    requires Sorted(Joined(gs))
    requires forall i :: 0 <= i < |gs| ==> gs[i] != [] && !(gs[i][0].key <= k <= gs[i][|gs[i]| - 1].key)
    ensures Lookup(Joined(gs), k) == None
  {
    if gs != [] {
      var n := |gs| - 1;
      var a, g := Joined(gs[..n]), gs[n];
      assert Sorted(a) by { assert forall i :: 0 <= i < |a| ==> Joined(gs)[i] == a[i]; }
      NoGroup(gs[..n], k);
      LookupConcat(a, g, k);
      LookupMember(g, k);
      forall i | 0 <= i < |g| ensures g[0].key <= g[i].key <= g[|g| - 1].key {
        assert Joined(gs)[|a|] == g[0] && Joined(gs)[|a| + i] == g[i] && Joined(gs)[|a| + |g| - 1] == g[|g| - 1];
      }
    }
  }

  /** `access_point`: the first index entry whose range has the key names the block to search. */
  method AccessPoint(c: Codec, t: Table, key: Key, ghost gs: seq<seq<Record>>, ghost rs: seq<Record>) returns (r: Option<Value>)
    requires Lossless(c) && Stores(c, t, gs, rs) && Sorted(rs)
    ensures r == var e := Lookup(rs, key); if e.Some? then Some(Newest(e.value)) else None
  {
    hide Body, BlockBytes, Lossless, Joined, Lookup, Sorted, Roomy;
    var n := 0;
    while n < |t.index|
      invariant 0 <= n <= |t.index|
      invariant forall i :: 0 <= i < n ==> gs[i] != [] && !(gs[i][0].key <= key <= gs[i][|gs[i]| - 1].key)
    {
      assert Holds(c, t.blocks[n], t.index[n], gs[n], n);
      if t.index[n].first <= key <= t.index[n].last {
        GroupLookup(rs, gs, n, key);
        r := QueryBlock(c, t.blocks[t.index[n].pos / RECORD_BLOCK_NBLOCKS], key, gs[n]);
        return;
      }
      n := n + 1;
    }
    NoGroup(gs, key);
    r := None;
  }

  /** `BlockQueryIter` for one key: the newest value of the first record with that key. */
  method QueryBlock(c: Codec, block: Bytes, key: Key, ghost g: seq<Record>) returns (r: Option<Value>)
    requires Lossless(c) && |Body(c, g)| <= RECORD_BLOCK_SIZE && Roomy(c, g) && block == BlockBytes(c, g)
    ensures r == var e := Lookup(g, key); if e.Some? then Some(Newest(e.value)) else None
  {
    hide Body, BlockBytes, RecordBytes, Lossless, Roomy;
    var offset := 0;
    ghost var n := 0;
    StartOfBlock(c, g);
    EndOfBlock(c, g);
    FlagInBlock(c);
    while offset + MinRecordSize(c) <= RECORD_BLOCK_SIZE
      invariant 0 <= n <= |g| && offset == |Body(c, g[..n])|
      invariant Lookup(g, key) == LookupFrom(g, n, key)
      decreases |g| - n
    {
      NextRecord(c, block, g, n, offset);
      var k := c.decKey(block[offset..offset + c.kSize]);
      var flag := block[offset + c.kSize];
      if flag != 7 && flag != 11 && flag != 19 { return None; }
      var v := offset + c.kSize + 1;
      if flag == 19 {
        if k == key { return Some(c.decValue(block[v + c.vSize..v + 2 * c.vSize])); }
        offset := v + 2 * c.vSize;
      } else {
        if k == key { return Some(c.decValue(block[v..v + c.vSize])); }
        offset := v + c.vSize;
      }
      n := n + 1;
    }
    NoRoomLeft(c, g, n);
    r := None;
  }
}
