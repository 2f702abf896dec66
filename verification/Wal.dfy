/** The write-ahead log of wal.rs: records and sync IDs as tagged bytes, padded with zeros to whole
    blocks whenever the buffer is flushed. */
module Wals {
  import opened Common
  import opened Arithmetic
  import opened Encoding

  const BUF_CAP: nat := 1024 * BLOCK_SIZE
  const MAX_RECORD_SIZE: nat := 49
  const MIN_RECORD_SIZE: nat := 9
  const RECORD_FLAG := 13
  const SYNC_FLAG := 23
  const SYNC_ID_SIZE: nat := 8
  const SYNC_ID_LIMIT: nat := 0x1_0000_0000_0000_0000

  lemma SyncIdFits()
    ensures Pow256(SYNC_ID_SIZE) == SYNC_ID_LIMIT
  {
    assert Pow256(2) == 256 * Pow256(1) == 65536;
    assert Pow256(4) == 256 * Pow256(3) && Pow256(3) == 256 * Pow256(2);
    assert Pow256(6) == 256 * Pow256(5) && Pow256(5) == 256 * Pow256(4);
    assert Pow256(8) == 256 * Pow256(7) && Pow256(7) == 256 * Pow256(6);
  }

  // ---- The byte stream ------------------------------------------------------------------------------------

  /** What a WAL is made of: records, sync IDs and padding bytes. */
  datatype Token = Record(key: Bytes, value: Bytes) | Sync(id: nat) | Skip(byte: int)

  predicate Sized(t: Token, kSize: nat, vSize: nat) {
    match t
    case Record(k, v) => |k| == kSize && |v| == vSize
    case Sync(id) => id < SYNC_ID_LIMIT
    case Skip(b) => b != RECORD_FLAG && b != SYNC_FLAG
  }

  function TokenBytes(t: Token): (r: Bytes)
    ensures |r| >= 1
  {
    match t
    case Record(k, v) => [RECORD_FLAG] + k + v
    case Sync(id) => [SYNC_FLAG] + ToLe(id, SYNC_ID_SIZE)
    case Skip(b) => [b]
  }

  /** The layout of tokens. */
  lemma TokenLayout(t: Token)
    ensures match t
            case Record(k, v) => TokenBytes(t) == [13] + k + v
            case Sync(id) => |TokenBytes(t)| == 9 && TokenBytes(t)[0] == 23 && (id < Pow256(8) ==> FromLe(TokenBytes(t)[1..]) == id)
            case Skip(b) => TokenBytes(t) == [b]
  {
    if t.Sync? && t.id < Pow256(8) {
      LeRoundTrip(t.id, SYNC_ID_SIZE);
      assert TokenBytes(t)[1..] == ToLe(t.id, SYNC_ID_SIZE);
    }
  }

  function StreamBytes(ts: seq<Token>): Bytes {
    if ts == [] then [] else StreamBytes(ts[..|ts| - 1]) + TokenBytes(ts[|ts| - 1])
  }

  lemma {:induction false} StreamConcat(ts: seq<Token>, us: seq<Token>)
    ensures StreamBytes(ts + us) == StreamBytes(ts) + StreamBytes(us)
  {
    hide TokenBytes;
    if us == [] {
      assert ts + us == ts;
    } else {
      assert (ts + us)[..|ts + us| - 1] == ts + us[..|us| - 1];
      StreamConcat(ts, us[..|us| - 1]);
    }
  }

  lemma {:induction false} ZeroBytes(n: nat)
    ensures StreamBytes(seq(n, _ => Skip(0))) == seq(n, _ => 0)
  {
    if n > 0 {
      ZeroBytes(n - 1);
      assert seq(n, _ => Skip(0))[..n - 1] == seq(n - 1, _ => Skip(0));
      assert seq(n, _ => 0) == seq(n - 1, _ => 0) + [0];
    }
  }

  /** The records of a stream, and the last sync ID with the number of records before it. */
  datatype Summary = Summary(records: seq<(Bytes, Bytes)>, sync: Option<(int, int)>)

  function Next(s: Summary, t: Token): Summary {
    match t
    case Record(k, v) => s.(records := s.records + [(k, v)])
    case Sync(id) => s.(sync := Some((id, |s.records|)))
    case Skip(_) => s
  }

  function Summarize(ts: seq<Token>): Summary {
    if ts == [] then Summary([], None) else Next(Summarize(ts[..|ts| - 1]), ts[|ts| - 1])
  }

  lemma SummarizeSnoc(ts: seq<Token>, t: Token)
    ensures Summarize(ts + [t]) == Next(Summarize(ts), t)
  {
    assert (ts + [t])[..|ts|] == ts;
  }

  lemma {:induction false} SummarizeZeros(ts: seq<Token>, n: nat)
    ensures Summarize(ts + seq(n, _ => Skip(0))) == Summarize(ts)
  {
    if n == 0 {
      assert ts + seq(n, _ => Skip(0)) == ts;
    } else {
      SummarizeZeros(ts, n - 1);
      assert ts + seq(n, _ => Skip(0)) == (ts + seq(n - 1, _ => Skip(0))) + [Skip(0)];
      SummarizeSnoc(ts + seq(n - 1, _ => Skip(0)), Skip(0));
    }
  }

  lemma {:induction false} SyncedBound(ts: seq<Token>)
    ensures Summarize(ts).sync.Some? ==> 0 <= Summarize(ts).sync.value.1 <= |Summarize(ts).records|
  {
    if ts != [] { SyncedBound(ts[..|ts| - 1]); }
  }

  /** The records before the last sync ID, and that ID. */
  function Synced(ts: seq<Token>): (seq<(Bytes, Bytes)>, int) {
    SyncedBound(ts);
    var s := Summarize(ts);
    if s.sync.None? then ([], 0) else (s.records[..s.sync.value.1], s.sync.value.0)
  }

  lemma {:induction false} StreamFrom(ts: seq<Token>, n: nat)
    requires n < |ts|
    ensures StreamBytes(ts[..n + 1]) == StreamBytes(ts[..n]) + TokenBytes(ts[n])
    ensures StreamBytes(ts[..n + 1]) <= StreamBytes(ts)
  {
    assert ts[..n + 1][..n] == ts[..n];
    assert ts == ts[..n + 1] + ts[n + 1..];
    StreamConcat(ts[..n + 1], ts[n + 1..]);
  }

  /** Where the parser is: `n` tokens were read, which end at `offset`. */
  lemma TokenAt(bytes: Bytes, ts: seq<Token>, n: nat, offset: nat)
    requires bytes == StreamBytes(ts) && n < |ts| && offset == |StreamBytes(ts[..n])|
    ensures offset + |TokenBytes(ts[n])| <= |bytes|
    ensures bytes[offset..offset + |TokenBytes(ts[n])|] == TokenBytes(ts[n])
    ensures |StreamBytes(ts[..n + 1])| == offset + |TokenBytes(ts[n])|
  {
    hide TokenBytes, StreamBytes;
    StreamFrom(ts, n);
    var front, b := StreamBytes(ts[..n]), TokenBytes(ts[n]);
    assert bytes[..offset + |b|] == front + b;
    assert bytes[offset..offset + |b|] == bytes[..offset + |b|][offset..];
  }

  lemma TokenSize(t: Token, kSize: nat, vSize: nat)
    requires Sized(t, kSize, vSize) && kSize + vSize >= 8
    ensures t.Skip? || |TokenBytes(t)| >= MIN_RECORD_SIZE
  {
  }

  /** The rest of a stream too short for a record or a sync ID is padding. */
  lemma {:induction false} OnlyZeros(ts: seq<Token>, n: nat, kSize: nat, vSize: nat)
    requires n <= |ts| && kSize + vSize >= 8
    requires forall i :: 0 <= i < |ts| ==> Sized(ts[i], kSize, vSize)
    requires |StreamBytes(ts)| < |StreamBytes(ts[..n])| + MIN_RECORD_SIZE
    ensures Summarize(ts) == Summarize(ts[..n])
    decreases |ts| - n
  {
    hide TokenBytes, StreamBytes, Summarize;
    if n == |ts| {
      assert ts[..n] == ts;
    } else {
      TokenAt(StreamBytes(ts), ts, n, |StreamBytes(ts[..n])|);
      TokenSize(ts[n], kSize, vSize);
      OnlyZeros(ts, n + 1, kSize, vSize);
      assert ts[..n + 1] == ts[..n] + [ts[n]];
      SummarizeSnoc(ts[..n], ts[n]);
    }
  }

  /** The bytes are those of a stream of records, sync IDs and padding. */
  ghost predicate Encodes(bytes: Bytes, ts: seq<Token>, kSize: nat, vSize: nat) {
    && bytes == StreamBytes(ts) && kSize + vSize >= 8
    && forall i :: 0 <= i < |ts| ==> Sized(ts[i], kSize, vSize)
  }

  /** `collect_synced_records_and_sync_id`. Nothing comes back for an empty log, which has no buffer, and
      for bytes that end inside a record or sync ID, where the source panics. A log written as a stream gives
      exactly the records before its last sync ID, and that ID. */
  method Collect(bytes: Bytes, kSize: nat, vSize: nat, ghost ts: seq<Token>) returns (r: Option<(seq<(Bytes, Bytes)>, int)>)
    ensures |bytes| < MIN_RECORD_SIZE ==> r == None
    ensures |bytes| >= MIN_RECORD_SIZE && Encodes(bytes, ts, kSize, vSize) ==> r == Some(Synced(ts))
  {
    hide TokenBytes, StreamBytes, Summarize, FromLe, Synced, Sized, Encodes;
    if |bytes| < MIN_RECORD_SIZE { return None; }
    var records: seq<(Bytes, Bytes)> := [];
    var maxSyncId: Option<int> := None;
    var syncedLen, offset := 0, 0;
    ghost var n := 0;
    Beginning(ts);
    while offset <= |bytes| - MIN_RECORD_SIZE
      invariant 0 <= offset && 0 <= syncedLen <= |records|
      invariant Encodes(bytes, ts, kSize, vSize) ==> ParsedTo(ts, n, offset, records, maxSyncId, syncedLen)
      decreases |bytes| - offset
    {
      if Encodes(bytes, ts, kSize, vSize) { ParserAt(bytes, ts, n, offset, kSize, vSize); }
      var flag := bytes[offset];
      offset := offset + 1;
      if flag == RECORD_FLAG {
        if offset + kSize + vSize > |bytes| { return None; }
        records := records + [(bytes[offset..offset + kSize], bytes[offset + kSize..offset + kSize + vSize])];
        offset := offset + kSize + vSize;
      } else if flag == SYNC_FLAG {
        var id := FromLe(bytes[offset..offset + SYNC_ID_SIZE]);
        offset := offset + SYNC_ID_SIZE;
        maxSyncId, syncedLen := Some(id), |records|;
      }
      n := n + 1;
    }
    if Encodes(bytes, ts, kSize, vSize) { ParserDone(bytes, ts, n, offset, kSize, vSize, records, maxSyncId, syncedLen); }
    r := Some(if maxSyncId.None? then ([], 0) else (records[..syncedLen], maxSyncId.value));
  }

  /** The first `n` tokens end at `offset` and were summed up. */
  ghost predicate ParsedTo(ts: seq<Token>, n: int, offset: int, records: seq<(Bytes, Bytes)>, maxSyncId: Option<int>, syncedLen: int) {
    && 0 <= n <= |ts| && offset == |StreamBytes(ts[..n])|
    && Summarize(ts[..n]) == SummaryOf(records, maxSyncId, syncedLen)
  }

  lemma ParserDone(bytes: Bytes, ts: seq<Token>, n: nat, offset: nat, kSize: nat, vSize: nat,
                   records: seq<(Bytes, Bytes)>, maxSyncId: Option<int>, syncedLen: int)
    requires Encodes(bytes, ts, kSize, vSize) && ParsedTo(ts, n, offset, records, maxSyncId, syncedLen)
    requires offset > |bytes| - MIN_RECORD_SIZE
    ensures maxSyncId.Some? ==> 0 <= syncedLen <= |records|
    ensures Synced(ts) == if maxSyncId.None? then ([], 0) else (records[..syncedLen], maxSyncId.value)
  {
    hide TokenBytes, StreamBytes, Summarize, Synced, Sized;
    OnlyZeros(ts, n, kSize, vSize);
    SyncedOf(ts, records, maxSyncId, syncedLen);
  }

  function SummaryOf(records: seq<(Bytes, Bytes)>, maxSyncId: Option<int>, syncedLen: int): Summary {
    Summary(records, if maxSyncId.None? then None else Some((maxSyncId.value, syncedLen)))
  }

  lemma Beginning(ts: seq<Token>)
    ensures StreamBytes(ts[..0]) == [] && Summarize(ts[..0]) == Summary([], None)
  {
  }

  lemma SyncedOf(ts: seq<Token>, records: seq<(Bytes, Bytes)>, maxSyncId: Option<int>, syncedLen: int)
    requires Summarize(ts) == SummaryOf(records, maxSyncId, syncedLen)
    ensures maxSyncId.Some? ==> 0 <= syncedLen <= |records|
    ensures Synced(ts) == if maxSyncId.None? then ([], 0) else (records[..syncedLen], maxSyncId.value)
  {
    SyncedBound(ts);
  }

  /** What the parser finds at a token boundary, and where it goes from there. */
  lemma ParserAt(bytes: Bytes, ts: seq<Token>, n: nat, offset: nat, kSize: nat, vSize: nat)
    requires Encodes(bytes, ts, kSize, vSize) && n <= |ts| && offset == |StreamBytes(ts[..n])| && offset < |bytes|
    ensures n < |ts|
    ensures Summarize(ts[..n + 1]) == Next(Summarize(ts[..n]), ts[n])
    ensures |StreamBytes(ts[..n + 1])| == offset + |TokenBytes(ts[n])| <= |bytes|
    ensures bytes[offset] == RECORD_FLAG ==>
              && |TokenBytes(ts[n])| == 1 + kSize + vSize
              && ts[n] == Record(bytes[offset + 1..offset + 1 + kSize], bytes[offset + 1 + kSize..offset + 1 + kSize + vSize])
    ensures bytes[offset] == SYNC_FLAG ==>
              && |TokenBytes(ts[n])| == 1 + SYNC_ID_SIZE && ts[n].Sync?
              && ts[n].id == FromLe(bytes[offset + 1..offset + 1 + SYNC_ID_SIZE])
    ensures bytes[offset] != RECORD_FLAG && bytes[offset] != SYNC_FLAG ==> ts[n].Skip? && |TokenBytes(ts[n])| == 1
  {
    hide TokenBytes, StreamBytes, Summarize, FromLe, Sized;
    assert ts[..|ts|] == ts;
    TokenAt(bytes, ts, n, offset);
    assert ts[..n + 1] == ts[..n] + [ts[n]];
    SummarizeSnoc(ts[..n], ts[n]);
    ReadToken(bytes, ts[n], offset, kSize, vSize);
  }

  /** The first byte of a token tells its kind, the others its contents. */
  lemma ReadToken(bytes: Bytes, t: Token, offset: nat, kSize: nat, vSize: nat)
    requires Sized(t, kSize, vSize) && offset + |TokenBytes(t)| <= |bytes|
    requires bytes[offset..offset + |TokenBytes(t)|] == TokenBytes(t)
    ensures t.Record? <==> bytes[offset] == RECORD_FLAG
    ensures t.Sync? <==> bytes[offset] == SYNC_FLAG
    ensures t.Record? ==> |TokenBytes(t)| == 1 + kSize + vSize
                          && t.key == bytes[offset + 1..offset + 1 + kSize]
                          && t.value == bytes[offset + 1 + kSize..offset + 1 + kSize + vSize]
    ensures t.Sync? ==> |TokenBytes(t)| == 1 + SYNC_ID_SIZE
                        && FromLe(bytes[offset + 1..offset + 1 + SYNC_ID_SIZE]) == t.id
    ensures t.Skip? ==> |TokenBytes(t)| == 1
  {
    var b := TokenBytes(t);
    assert b[0] == bytes[offset];
    match t
    case Record(k, v) =>
      assert k == b[1..1 + kSize] && v == b[1 + kSize..1 + kSize + vSize];
      SliceOf(bytes, b, offset, 1, 1 + kSize);
      SliceOf(bytes, b, offset, 1 + kSize, 1 + kSize + vSize);
    case Sync(id) =>
      assert ToLe(id, SYNC_ID_SIZE) == b[1..1 + SYNC_ID_SIZE];
      SliceOf(bytes, b, offset, 1, 1 + SYNC_ID_SIZE);
      SyncIdFits();
      LeRoundTrip(id, SYNC_ID_SIZE);
    case Skip(_) =>
  }

  // ---- Appending --------------------------------------------------------------------------------------------

  ghost predicate AllSized(ts: seq<Token>, kSize: nat, vSize: nat) {
    forall i :: 0 <= i < |ts| ==> Sized(ts[i], kSize, vSize)
  }

  class WalAppendTx {
    const kSize: nat
    const vSize: nat
    /** Bytes of the current WAL up to the last committed transaction. */
    var log: Bytes
    /** Bytes the open transaction has appended, if there is one. */
    var txBytes: Option<Bytes>
    var syncId: nat
    var recordBuf: Bytes
    ghost var logTokens: seq<Token>
    ghost var txTokens: seq<Token>
    /** Records appended to this WAL, how many of them before the last sync ID, and how many of them
        the committed log holds, under which sync ID. */
    ghost var appended: seq<(Bytes, Bytes)>
    ghost var synced: nat
    ghost var durable: nat
    ghost var durableId: nat

    ghost predicate Valid()
      reads this
    {
      && kSize + vSize >= 8 && syncId < SYNC_ID_LIMIT && durable <= synced <= |appended|
      && log == StreamBytes(logTokens) && |log| % BLOCK_SIZE == 0
      && AllSized(logTokens, kSize, vSize) && AllSized(txTokens, kSize, vSize)
      && (txBytes.None? ==> recordBuf == [] && txTokens == [] && durable == |appended| && durableId == syncId)
      && (txBytes.Some? ==>
            && txBytes.value + recordBuf == StreamBytes(txTokens) && |txBytes.value| % BLOCK_SIZE == 0
            && Summarize(logTokens + txTokens) == Summary(appended, Some((syncId, synced))))
      && (log == [] ==> durable == 0)
      && (log != [] ==> Summarize(logTokens) == Summary(appended[..durable], Some((durableId, durable))))
    }

    constructor (kSize: nat, vSize: nat, syncId: nat)
      requires kSize + vSize >= 8 && syncId < SYNC_ID_LIMIT
      ensures Valid() && appended == [] && log == [] && txBytes == None && this.kSize == kSize && this.vSize == vSize
      ensures this.syncId == syncId
    {
      this.kSize, this.vSize, this.syncId := kSize, vSize, syncId;
      log, txBytes, recordBuf := [], None, [];
      logTokens, txTokens, appended, synced, durable, durableId := [], [], [], 0, 0, syncId;
    }

    /** Whenever the open transaction is lost, reading the log returns the records before the last
        committed sync, and its ID. */
    lemma Survives()
      requires Valid() && log != []
      ensures Synced(logTokens) == (appended[..durable], durableId)
    {
      hide Summarize;
      SyncedBound(logTokens);
      assert appended[..durable][..durable] == appended[..durable];
    }

    /** Reading the committed log back. */
    method ReadBack() returns (records: seq<(Bytes, Bytes)>, id: int)
      requires Valid() && log != []
      ensures records == appended[..durable] && id == durableId
    {
      hide Summarize, StreamBytes, Synced;
      Survives();
      var r := Collect(log, kSize, vSize, logTokens);
      records, id := r.value.0, r.value.1;
    }

    /** `prepare`: a transaction begins by repeating the current sync ID. */
    method Prepare()
      requires Valid() && txBytes.None?
      modifies this`txBytes, this`recordBuf, this`txTokens
      ensures Valid() && txBytes == Some([]) && txTokens == [Sync(syncId)] && recordBuf == TokenBytes(Sync(syncId))
    {
      hide Summarize, StreamBytes, ToLe;
      PreparedStream(logTokens, syncId);
      FreshWal();
      assert log == [] ==> logTokens == [] by { if logTokens != [] { StreamNonEmpty(logTokens); } }
      txBytes := Some([]);
      txTokens := [Sync(syncId)];
      recordBuf := [SYNC_FLAG] + ToLe(syncId, SYNC_ID_SIZE);
      assert txBytes.value + recordBuf == recordBuf;
      assert appended[..|appended|] == appended;
    }

    /** `append`: the record joins the WAL; it becomes durable with the next sync. */
    method Append(key: Bytes, value: Bytes)
      requires Valid() && |key| == kSize && |value| == vSize
      modifies this`txBytes, this`recordBuf, this`txTokens, this`appended
      ensures Valid() && txBytes.Some? && appended == old(appended) + [(key, value)]
      ensures var filled := (if old(txBytes).None? then TokenBytes(Sync(syncId)) else old(recordBuf)) + TokenBytes(Record(key, value));
              if |filled| > BUF_CAP - MAX_RECORD_SIZE then recordBuf == []
              else recordBuf == filled && txBytes == if old(txBytes).None? then Some([]) else old(txBytes)
    {
      if txBytes.None? { Prepare(); }
      Push(Record(key, value));
      if |recordBuf| > BUF_CAP - MAX_RECORD_SIZE { FlushBuf(); }
    }

    method Push(t: Token)
      requires Valid() && txBytes.Some? && t.Record? && Sized(t, kSize, vSize)
      modifies this`recordBuf, this`txTokens, this`appended
      ensures Valid() && appended == old(appended) + [(t.key, t.value)] && recordBuf == old(recordBuf) + TokenBytes(t)
    {
      hide StreamBytes, Summarize, TokenBytes;
      StreamSnoc(txTokens, t);
      SummarizeSnoc(logTokens + txTokens, t);
      assert logTokens + (txTokens + [t]) == logTokens + txTokens + [t];
      assert (appended + [(t.key, t.value)])[..durable] == appended[..durable];
      assert txBytes.value + (recordBuf + TokenBytes(t)) == txBytes.value + recordBuf + TokenBytes(t);
      recordBuf := recordBuf + TokenBytes(t);
      txTokens := txTokens + [t];
      appended := appended + [(t.key, t.value)];
    }

    /** Aligns the buffer with zeros and appends it to the log within the transaction. */
    method FlushBuf()
      requires Valid() && txBytes.Some?
      modifies this`txBytes, this`recordBuf, this`txTokens
      ensures Valid() && txBytes.Some? && recordBuf == [] && txBytes.value == StreamBytes(txTokens)
      ensures old(txTokens) <= txTokens && old(txBytes).value + old(recordBuf) <= txBytes.value
      ensures |txBytes.value| < |old(txBytes).value| + |old(recordBuf)| + BLOCK_SIZE
      ensures forall i :: |old(txBytes).value| + |old(recordBuf)| <= i < |txBytes.value| ==> txBytes.value[i] == 0
    {
      hide StreamBytes, Summarize, TokenBytes, Ceil;
      var pad := Ceil(|recordBuf|, BLOCK_SIZE) * BLOCK_SIZE - |recordBuf|;
      Aligned(|recordBuf|);
      PaddedStream(logTokens, txTokens, pad);
      var zeros := seq(pad, _ => 0);
      assert txBytes.value + (recordBuf + zeros) == txBytes.value + recordBuf + zeros;
      AlignedSum(|txBytes.value|, |recordBuf + zeros|);
      txBytes := Some(txBytes.value + (recordBuf + zeros));
      recordBuf := [];
      txTokens := txTokens + seq(pad, _ => Skip(0));
    }

    /** `sync`: from now on, reading the committed log returns every record appended so far. */
    method SyncWal(id: nat)
      requires Valid() && id < SYNC_ID_LIMIT
      modifies this
      ensures Valid() && appended == old(appended) && txBytes == None
      ensures log != [] && durable == |appended| && durableId == syncId == id
      ensures Synced(logTokens) == (appended, id)
      ensures var open := if old(txBytes).None? then TokenBytes(Sync(old(syncId))) else old(txBytes).value + old(recordBuf);
              var all := old(log) + (open + TokenBytes(Sync(id)));
              all <= log && |log| < |all| + BLOCK_SIZE
    {
      hide StreamBytes, Summarize, TokenBytes, Synced, AllSized;
      if txBytes.None? { Prepare(); }
      PushSync(id);
      FlushBuf();
      CommitLog();
      assert appended[..durable] == appended;
      Survives();
    }

    method PushSync(id: nat)
      requires Valid() && txBytes.Some? && id < SYNC_ID_LIMIT
      modifies this`recordBuf, this`txTokens, this`syncId, this`synced
      ensures Valid() && synced == |appended| && syncId == id && txTokens != []
      ensures recordBuf == old(recordBuf) + TokenBytes(Sync(id))
    {
      hide StreamBytes, Summarize, TokenBytes;
      var t := Sync(id);
      StreamSnoc(txTokens, t);
      SummarizeSnoc(logTokens + txTokens, t);
      assert logTokens + (txTokens + [t]) == logTokens + txTokens + [t];
      assert txBytes.value + (recordBuf + TokenBytes(t)) == txBytes.value + recordBuf + TokenBytes(t);
      recordBuf := recordBuf + TokenBytes(t);
      txTokens := txTokens + [t];
      syncId, synced := id, |appended|;
    }

    /** The transaction commits; everything appended was synced. */
    method CommitLog()
      requires Valid() && txBytes.Some? && recordBuf == [] && txTokens != [] && synced == |appended|
      modifies this`log, this`txBytes, this`logTokens, this`txTokens, this`durable, this`durableId
      ensures Valid() && txBytes == None && log != [] && durable == |appended| && durableId == syncId
      ensures log == old(log) + old(txBytes).value
    {
      hide Summarize, TokenBytes;
      StreamConcat(logTokens, txTokens);
      StreamNonEmpty(txTokens);
      AlignedSum(|log|, |txBytes.value|);
      assert txBytes.value + [] == txBytes.value;
      assert appended[..|appended|] == appended;
      assert logTokens + txTokens + [] == logTokens + txTokens;
      log, txBytes := log + txBytes.value, None;
      logTokens, txTokens := logTokens + txTokens, [];
      durable, durableId := |appended|, syncId;
    }

    /** `commit`: hands out the finished WAL and forgets about it. Reading it returns the records before
        the last sync only. */
    method Seal() returns (sealedLog: Bytes, ghost ts: seq<Token>)
      requires Valid() && txBytes.Some?
      modifies this
      ensures Valid() && appended == [] && log == [] && txBytes == None && syncId == old(syncId)
      ensures old(log) + old(txBytes).value + old(recordBuf) <= sealedLog
      ensures |sealedLog| < |old(log)| + |old(txBytes).value| + |old(recordBuf)| + BLOCK_SIZE
      ensures sealedLog == StreamBytes(ts) && |sealedLog| % BLOCK_SIZE == 0 && AllSized(ts, kSize, vSize)
      ensures Synced(ts) == (old(appended)[..old(synced)], old(syncId))
    {
      hide Summarize, TokenBytes, StreamBytes;
      if recordBuf != [] { FlushBuf(); }
      FreshWal();
      StreamConcat(logTokens, txTokens);
      AlignedSum(|log|, |txBytes.value|);
      SyncedBound(logTokens + txTokens);
      assert txBytes.value + [] == txBytes.value;
      sealedLog, ts := log + txBytes.value, logTokens + txTokens;
      log, txBytes, logTokens, txTokens := [], None, [], [];
      appended, synced, durable, durableId := [], 0, 0, syncId;
    }
  }

  lemma FreshWal()
    ensures StreamBytes([]) == [] && Summarize([]) == Summary([], None)
  {
  }

  lemma StreamSnoc(ts: seq<Token>, t: Token)
    ensures StreamBytes(ts + [t]) == StreamBytes(ts) + TokenBytes(t)
  {
    assert (ts + [t])[..|ts|] == ts;
  }

  lemma StreamNonEmpty(ts: seq<Token>)
    requires ts != []
    ensures StreamBytes(ts) != []
  {
  }

  lemma PreparedStream(logTokens: seq<Token>, id: nat)
    ensures StreamBytes([Sync(id)]) == TokenBytes(Sync(id))
    ensures Summarize(logTokens + [Sync(id)]) == Next(Summarize(logTokens), Sync(id))
  {
    StreamSnoc([], Sync(id));
    assert [] + [Sync(id)] == [Sync(id)];
    SummarizeSnoc(logTokens, Sync(id));
  }

  lemma PaddedStream(logTokens: seq<Token>, txTokens: seq<Token>, pad: nat)
    ensures StreamBytes(txTokens + seq(pad, _ => Skip(0))) == StreamBytes(txTokens) + seq(pad, _ => 0)
    ensures Summarize(logTokens + (txTokens + seq(pad, _ => Skip(0)))) == Summarize(logTokens + txTokens)
  {
    StreamConcat(txTokens, seq(pad, _ => Skip(0)));
    ZeroBytes(pad);
    SummarizeZeros(logTokens + txTokens, pad);
    assert logTokens + (txTokens + seq(pad, _ => Skip(0))) == logTokens + txTokens + seq(pad, _ => Skip(0));
  }

  lemma Aligned(n: nat)
    ensures n <= Ceil(n, BLOCK_SIZE) * BLOCK_SIZE < n + BLOCK_SIZE && Ceil(n, BLOCK_SIZE) * BLOCK_SIZE % BLOCK_SIZE == 0
  {
    CeilIff(n, BLOCK_SIZE, Ceil(n, BLOCK_SIZE));
    CeilIff(n, BLOCK_SIZE, Ceil(n, BLOCK_SIZE) - 1);
  }

  lemma AlignedSum(a: nat, b: nat)
    requires a % BLOCK_SIZE == 0 && b % BLOCK_SIZE == 0
    ensures (a + b) % BLOCK_SIZE == 0
  {
  }
}
