/** The on-disk state of an edit journal (journal.rs, crypto_chain.rs, crypto_blob.rs) and what a
    recovery reads out of it. Authenticated encryption is ideal: the MAC of a snapshot blob is an
    injective function of blob key, version and plaintext, and chain blocks, sealed under random IVs,
    get MACs that never repeat and do not precede the MAC they are chained to. */
module JournalSpec {
  import opened Common

  datatype Snapshot<S> = Snapshot(state: S, recoverFrom: nat)

  datatype BlobMac<S> = BlobMac(blob: int, version: nat, snapshot: Snapshot<S>)

  /** A snapshot blob on disk; a torn write leaves it unreadable. */
  datatype Blob<S> = Readable(version: nat, snapshot: Snapshot<S>) | Unreadable

  datatype Record<E, S> = Version(mac: BlobMac<S>) | Edits(group: seq<E>)

  datatype ChainBlock<E, S> = ChainBlock(preMac: int, mac: int, payload: seq<Record<E, S>>)

  type Ring<E, S> = seq<Option<ChainBlock<E, S>>>

  datatype Disk<E, S> = Disk(blobs: seq<Blob<S>>, ring: Ring<E, S>)

  // ---- Replaying edits -------------------------------------------------------------------------------

  /** `EditGroup::apply_to`. */
  function Apply<E, S>(apply: (S, E) -> S, s: S, g: seq<E>): S {
    if g == [] then s else apply(Apply(apply, s, g[..|g| - 1]), g[|g| - 1])
  }

  /** The edits one after the other, the front one first. */
  function ApplyFrom<E, S>(apply: (S, E) -> S, s: S, g: seq<E>): S {
    if g == [] then s else ApplyFrom(apply, apply(s, g[0]), g[1..])
  }

  lemma {:induction false} ApplyConcat<E, S>(apply: (S, E) -> S, s: S, g: seq<E>, h: seq<E>)
    ensures Apply(apply, s, g + h) == Apply(apply, Apply(apply, s, g), h)
  {
    if h == [] {
      assert g + h == g;
    } else {
      assert (g + h)[..|g + h| - 1] == g + h[..|h| - 1];
      ApplyConcat(apply, s, g, h[..|h| - 1]);
    }
  }

  /** A group is applied from its first edit to its last. */
  lemma {:induction false} AppliesInOrder<E, S>(apply: (S, E) -> S, s: S, g: seq<E>)
    ensures Apply(apply, s, g) == ApplyFrom(apply, s, g)
  {
    if g != [] {
      ApplyConcat(apply, s, [g[0]], g[1..]);
      assert [g[0]] + g[1..] == g && [g[0]][..0] == [];
      AppliesInOrder(apply, apply(s, g[0]), g[1..]);
    }
  }

  function Joined<E>(gs: seq<seq<E>>): seq<E> {
    if gs == [] then [] else gs[0] + Joined(gs[1..])
  }

  /** Replaying groups applies all their edits, in order of commitment. */
  lemma {:induction false} ReplaysInOrder<E, S>(apply: (S, E) -> S, s: S, gs: seq<seq<E>>)
    ensures Replay(apply, s, gs) == ApplyFrom(apply, s, Joined(gs))
  {
    if gs != [] {
      var g := gs[0];
      ReplayConcat(apply, s, [g], gs[1..]);
      assert [g] + gs[1..] == gs && [g][..0] == [];
      ReplaysInOrder(apply, Apply(apply, s, g), gs[1..]);
      ApplyConcat(apply, s, g, Joined(gs[1..]));
      AppliesInOrder(apply, Apply(apply, s, g), Joined(gs[1..]));
      AppliesInOrder(apply, s, g + Joined(gs[1..]));
    }
  }

  /** The state that a list of committed groups stands for. */
  function Replay<E, S>(apply: (S, E) -> S, s: S, gs: seq<seq<E>>): S {
    if gs == [] then s else Apply(apply, Replay(apply, s, gs[..|gs| - 1]), gs[|gs| - 1])
  }

  lemma {:induction false} ReplayConcat<E, S>(apply: (S, E) -> S, s: S, gs: seq<seq<E>>, hs: seq<seq<E>>)
    ensures Replay(apply, s, gs + hs) == Replay(apply, Replay(apply, s, gs), hs)
  {
    if hs == [] {
      assert gs + hs == gs;
    } else {
      assert (gs + hs)[..|gs + hs| - 1] == gs + hs[..|hs| - 1];
      ReplayConcat(apply, s, gs, hs[..|hs| - 1]);
    }
  }

  /** The edit groups among some records. */
  function Groups<E, S>(rs: seq<Record<E, S>>): seq<seq<E>> {
    if rs == [] then [] else Groups(rs[..|rs| - 1]) + (match rs[|rs| - 1] case Version(_) => [] case Edits(g) => [g])
  }

  lemma {:induction false} GroupsConcat<E, S>(rs: seq<Record<E, S>>, ts: seq<Record<E, S>>)
    ensures Groups(rs + ts) == Groups(rs) + Groups(ts)
  {
    if ts == [] {
      assert rs + ts == rs;
    } else {
      assert (rs + ts)[..|rs + ts| - 1] == rs + ts[..|ts| - 1];
      GroupsConcat(rs, ts[..|ts| - 1]);
    }
  }

  function Flatten<E, S>(blocks: seq<ChainBlock<E, S>>): seq<Record<E, S>> {
    if blocks == [] then [] else Flatten(blocks[..|blocks| - 1]) + blocks[|blocks| - 1].payload
  }

  lemma FlattenSnoc<E, S>(blocks: seq<ChainBlock<E, S>>, b: ChainBlock<E, S>)
    ensures Flatten(blocks + [b]) == Flatten(blocks) + b.payload
  {
    assert (blocks + [b])[..|blocks|] == blocks;
  }

  /** One record during recovery: edits count only once the latest snapshot's MAC was seen. */
  function ScanStep<E, S(==)>(apply: (S, E) -> S, mac: BlobMac<S>, st: (S, bool), r: Record<E, S>): (S, bool) {
    match r
    case Version(m) => (st.0, st.1 || m == mac)
    case Edits(g) => (if st.1 then Apply(apply, st.0, g) else st.0, st.1)
  }

  function Scan<E, S(==)>(apply: (S, E) -> S, mac: BlobMac<S>, st: (S, bool), rs: seq<Record<E, S>>): (S, bool) {
    if rs == [] then st else ScanStep(apply, mac, Scan(apply, mac, st, rs[..|rs| - 1]), rs[|rs| - 1])
  }

  lemma {:induction false} ScanConcat<E, S>(apply: (S, E) -> S, mac: BlobMac<S>, st: (S, bool), rs: seq<Record<E, S>>, ts: seq<Record<E, S>>)
    ensures Scan(apply, mac, st, rs + ts) == Scan(apply, mac, Scan(apply, mac, st, rs), ts)
  {
    if ts == [] {
      assert rs + ts == rs;
    } else {
      assert (rs + ts)[..|rs + ts| - 1] == rs + ts[..|ts| - 1];
      ScanConcat(apply, mac, st, rs, ts[..|ts| - 1]);
    }
  }

  ghost predicate AllEdits<E, S>(rs: seq<Record<E, S>>) {
    forall i :: 0 <= i < |rs| ==> rs[i].Edits?
  }

  /** Once the version was seen, recovery replays exactly the groups. */
  lemma {:induction false} ScanEdits<E, S>(apply: (S, E) -> S, mac: BlobMac<S>, s: S, rs: seq<Record<E, S>>)
    requires AllEdits(rs)
    ensures Scan(apply, mac, (s, true), rs) == (Replay(apply, s, Groups(rs)), true)
  {
    if rs != [] {
      var n := |rs| - 1;
      ScanEdits(apply, mac, s, rs[..n]);
      var gs := Groups(rs[..n]);
      assert (gs + [rs[n].group])[..|gs|] == gs;
    }
  }

  ghost predicate NoVersion<E, S>(mac: BlobMac<S>, rs: seq<Record<E, S>>) {
    forall i :: 0 <= i < |rs| ==> rs[i] != Version(mac)
  }

  /** Without the version no record has any effect. */
  lemma {:induction false} ScanStale<E, S>(apply: (S, E) -> S, mac: BlobMac<S>, s: S, rs: seq<Record<E, S>>)
    requires NoVersion(mac, rs)
    ensures Scan(apply, mac, (s, false), rs) == (s, false)
  {
    if rs != [] { ScanStale(apply, mac, s, rs[..|rs| - 1]); }
  }

  // ---- Reading the chain back ------------------------------------------------------------------------

  /** MACs rise along every link and stay below the next fresh one. */
  ghost predicate Rising<E, S>(ring: Ring<E, S>, top: int) {
    forall i :: 0 <= i < |ring| && ring[i].Some? ==> 0 <= ring[i].value.preMac < ring[i].value.mac <= top
  }

  /** `Recovery::next` at position `pos`: the block there, unless its link does not continue the chain.
      The link of the first block is not checked. */
  function NextBlock<E, S>(ring: Ring<E, S>, pos: nat, last: Option<int>): Option<ChainBlock<E, S>>
    requires |ring| > 0
  {
    var b := ring[pos % |ring|];
    if b.Some? && (last.None? || b.value.preMac == last.value) then b else None
  }

  /** The blocks a recovery accepts from `pos` on. */
  ghost function ChainFrom<E, S>(ring: Ring<E, S>, top: int, pos: nat, last: Option<int>): seq<ChainBlock<E, S>>
    requires |ring| > 0 && Rising(ring, top)
    decreases if last.None? then 1 else 0, if last.None? then 0 else top - last.value
  {
    var b := NextBlock(ring, pos, last);
    if b.None? then [] else [b.value] + ChainFrom(ring, top, pos + 1, Some(b.value.mac))
  }

  ghost predicate Linked<E, S>(blocks: seq<ChainBlock<E, S>>) {
    forall i :: 0 < i < |blocks| ==> blocks[i].preMac == blocks[i - 1].mac
  }

  /** `blocks` sit in the ring from position `start` on and the last of them is the newest block. */
  ghost predicate Holds<E, S>(ring: Ring<E, S>, top: int, start: nat, blocks: seq<ChainBlock<E, S>>) {
    && |ring| > 0 && Rising(ring, top) && |blocks| > 0
    && Linked(blocks) && blocks[|blocks| - 1].mac == top
    && forall i :: 0 <= i < |blocks| ==> InSlot(ring, start, i, blocks[i])
  }

  ghost predicate InSlot<E, S>(ring: Ring<E, S>, start: nat, i: nat, b: ChainBlock<E, S>)
    requires |ring| > 0
  {
    ring[(start + i) % |ring|] == Some(b)
  }

  /** Recovery from `start` accepts exactly the live blocks: whatever older block follows in the ring
      cannot be chained to the newest one. */
  lemma {:induction false} ReadsBack<E, S>(ring: Ring<E, S>, top: int, start: nat, blocks: seq<ChainBlock<E, S>>, i: nat)
    requires Holds(ring, top, start, blocks) && i <= |blocks|
    ensures ChainFrom(ring, top, start + i, if i == 0 then None else Some(blocks[i - 1].mac)) == blocks[i..]
    decreases |blocks| - i
  {
    if i < |blocks| {
      assert InSlot(ring, start, i, blocks[i]);
      ReadsBack(ring, top, start, blocks, i + 1);
      assert blocks[i..] == [blocks[i]] + blocks[i + 1..];
    }
  }

  /** No block in the ring carries the version. */
  ghost predicate Silent<E, S>(ring: Ring<E, S>, mac: BlobMac<S>) {
    forall i :: 0 <= i < |ring| && ring[i].Some? ==> NoVersion(mac, ring[i].value.payload)
  }

  /** Accepted blocks come from the ring. */
  lemma {:induction false} ReadFromRing<E, S>(ring: Ring<E, S>, top: int, pos: nat, last: Option<int>, mac: BlobMac<S>)
    requires |ring| > 0 && Rising(ring, top)
    requires Silent(ring, mac)
    ensures NoVersion(mac, Flatten(ChainFrom(ring, top, pos, last)))
    decreases if last.None? then 1 else 0, if last.None? then 0 else top - last.value
  {
    var b := NextBlock(ring, pos, last);
    if b.Some? {
      var rest := ChainFrom(ring, top, pos + 1, Some(b.value.mac));
      ReadFromRing(ring, top, pos + 1, Some(b.value.mac), mac);
      FlattenCons(b.value, rest);
    }
  }

  lemma {:induction false} FlattenCons<E, S>(b: ChainBlock<E, S>, blocks: seq<ChainBlock<E, S>>)
    ensures Flatten([b] + blocks) == b.payload + Flatten(blocks)
  {
    if blocks == [] {
      assert [b] + blocks == [b];
      FlattenSnoc([], b);
      assert [] + [b] == [b];
    } else {
      var n := |blocks| - 1;
      assert ([b] + blocks)[..n + 1] == [b] + blocks[..n];
      FlattenCons(b, blocks[..n]);
    }
  }

  // ---- Choosing the snapshot -------------------------------------------------------------------------

  /** `SnapshotManager::recover`, first half: an unreadable blob is rewritten from the other one, at the
      other one's version but under its own key. */
  function Repair<S>(blobs: seq<Blob<S>>): Option<seq<Blob<S>>>
    requires |blobs| == 2
  {
    if blobs[0].Readable? && blobs[1].Readable? then Some(blobs)
    else if blobs[0].Readable? then Some([blobs[0], blobs[0]])
    else if blobs[1].Readable? then Some([blobs[1], blobs[1]])
    else None
  }

  /** Second half: equal versions mean blob 0, and blob 1 may be one ahead. */
  function LatestIndex<S>(blobs: seq<Blob<S>>): Option<int>
    requires |blobs| == 2 && blobs[0].Readable? && blobs[1].Readable?
  {
    if blobs[0].version == blobs[1].version then Some(0)
    else if blobs[0].version + 1 == blobs[1].version then Some(1)
    else None
  }

  function MacOf<S>(blobs: seq<Blob<S>>, i: int): BlobMac<S>
    requires 0 <= i < |blobs| && blobs[i].Readable?
  {
    BlobMac(i, blobs[i].version, blobs[i].snapshot)
  }

  /** The snapshot a recovery starts from and the MAC it then looks for. */
  function Latest<S>(blobs: seq<Blob<S>>): Option<BlobMac<S>>
    requires |blobs| == 2
  {
    var bs := Repair(blobs);
    if bs.None? then None
    else
      var i := LatestIndex(bs.value);
      if i.None? then None else Some(MacOf(bs.value, i.value))
  }

  /** The state that `EditJournal::recover` arrives at. */
  ghost function Recovered<E, S>(apply: (S, E) -> S, d: Disk<E, S>, top: int): Option<S>
    requires |d.blobs| == 2 && |d.ring| > 0 && Rising(d.ring, top)
  {
    var m := Latest(d.blobs);
    if m.None? then None
    else
      var blocks := ChainFrom(d.ring, top, m.value.snapshot.recoverFrom, None);
      Some(Scan(apply, m.value, (m.value.snapshot.state, false), Flatten(blocks)).0)
  }

  /** Both blobs are readable and their versions name blob `latest`. */
  ghost predicate Alternating<S>(blobs: seq<Blob<S>>, latest: int) {
    && |blobs| == 2 && blobs[0].Readable? && blobs[1].Readable?
    && (latest == 0 || latest == 1)
    && blobs[0].version + latest == blobs[1].version
  }

  lemma LatestNamed<S>(blobs: seq<Blob<S>>, latest: int)
    requires Alternating(blobs, latest)
    ensures Latest(blobs) == Some(MacOf(blobs, latest))
  {
  }

  /** No snapshot is chosen exactly when both are unreadable or their versions do not follow each other. */
  lemma LatestFails<S>(blobs: seq<Blob<S>>)
    requires |blobs| == 2
    ensures Latest(blobs).None? <==>
            || (blobs[0].Unreadable? && blobs[1].Unreadable?)
            || (blobs[0].Readable? && blobs[1].Readable? && blobs[1].version - blobs[0].version !in {0, 1})
  {
  }

  /** After a torn snapshot write the other snapshot is found again; its MAC is the one known to the
      journal only if it is blob 0 that survived. */
  lemma LatestTorn<S>(blobs: seq<Blob<S>>, latest: int)
    requires Alternating(blobs, latest)
    ensures var m := Latest(blobs[1 - latest := Unreadable]);
            && m.Some? && m.value.blob == 0
            && m.value.version == blobs[latest].version && m.value.snapshot == blobs[latest].snapshot
  {
  }

  // ---- Recovery of the shapes a journal goes through -----------------------------------------------

  /** The live part of the chain: the version record of the latest snapshot, then edits. */
  ghost predicate Live<E, S>(mac: BlobMac<S>, blocks: seq<ChainBlock<E, S>>) {
    && |blocks| > 0 && blocks[0].payload == [Version(mac)]
    && forall i :: 0 < i < |blocks| ==> AllEdits(blocks[i].payload)
  }

  lemma {:induction false} EditsFlatten<E, S>(blocks: seq<ChainBlock<E, S>>)
    requires forall i :: 0 <= i < |blocks| ==> AllEdits(blocks[i].payload)
    ensures AllEdits(Flatten(blocks))
  {
    if blocks != [] { EditsFlatten(blocks[..|blocks| - 1]); }
  }

  /** A chain that starts with the snapshot's version is replayed on top of the snapshot. */
  lemma RecoversLive<E, S>(apply: (S, E) -> S, d: Disk<E, S>, top: int, m: BlobMac<S>, blocks: seq<ChainBlock<E, S>>)
    requires |d.blobs| == 2 && Latest(d.blobs) == Some(m)
    requires Holds(d.ring, top, m.snapshot.recoverFrom, blocks) && Live(m, blocks)
    ensures Recovered(apply, d, top) == Some(Replay(apply, m.snapshot.state, Groups(Flatten(blocks[1..]))))
  {
    ReadsBack(d.ring, top, m.snapshot.recoverFrom, blocks, 0);
    assert blocks[0..] == blocks && m.snapshot.recoverFrom + 0 == m.snapshot.recoverFrom;
    assert blocks == [blocks[0]] + blocks[1..];
    FlattenCons(blocks[0], blocks[1..]);
    EditsFlatten(blocks[1..]);
    var s := m.snapshot.state;
    ScanConcat(apply, m, (s, false), [Version(m)], Flatten(blocks[1..]));
    ScanVersion(apply, m, s);
    ScanEdits(apply, m, s, Flatten(blocks[1..]));
  }

  lemma ScanVersion<E, S>(apply: (S, E) -> S, m: BlobMac<S>, s: S)
    ensures Scan(apply, m, (s, false), [Version(m)]) == (s, true)
  {
    var rs: seq<Record<E, S>> := [Version(m)];
    assert rs[..0] == [];
    assert Scan(apply, m, (s, false), rs[..0]) == (s, false);
  }

  /** A ring that does not mention the snapshot adds nothing to it. */
  lemma RecoversStale<E, S>(apply: (S, E) -> S, d: Disk<E, S>, top: int, m: BlobMac<S>)
    requires |d.blobs| == 2 && Latest(d.blobs) == Some(m)
    requires |d.ring| > 0 && Rising(d.ring, top)
    requires Silent(d.ring, m)
    ensures Recovered(apply, d, top) == Some(m.snapshot.state)
  {
    ReadFromRing(d.ring, top, m.snapshot.recoverFrom, None, m);
    ScanStale(apply, m, m.snapshot.state, Flatten(ChainFrom(d.ring, top, m.snapshot.recoverFrom, None)));
  }

  // ---- Was the version seen? --------------------------------------------------------------------------

  ghost predicate Seen<E, S>(mac: BlobMac<S>, rs: seq<Record<E, S>>) {
    !NoVersion(mac, rs)
  }

  /** The version counts as seen exactly when some record carries it. */
  lemma {:induction false} ScanSeen<E, S>(apply: (S, E) -> S, mac: BlobMac<S>, st: (S, bool), rs: seq<Record<E, S>>)
    ensures Scan(apply, mac, st, rs).1 <==> st.1 || Seen(mac, rs)
  {
    if rs != [] {
      var n := |rs| - 1;
      ScanSeen(apply, mac, st, rs[..n]);
      assert NoVersion(mac, rs) <==> NoVersion(mac, rs[..n]) && rs[n] != Version(mac);
    }
  }

  /** A live chain shows its version, and all of it is accepted. */
  lemma LiveIsSeen<E, S>(ring: Ring<E, S>, top: int, m: BlobMac<S>, blocks: seq<ChainBlock<E, S>>)
    requires Holds(ring, top, m.snapshot.recoverFrom, blocks) && Live(m, blocks)
    ensures ChainFrom(ring, top, m.snapshot.recoverFrom, None) == blocks && Seen(m, Flatten(blocks))
  {
    ReadsBack(ring, top, m.snapshot.recoverFrom, blocks, 0);
    assert blocks[0..] == blocks && m.snapshot.recoverFrom + 0 == m.snapshot.recoverFrom;
    assert blocks == [blocks[0]] + blocks[1..];
    FlattenCons(blocks[0], blocks[1..]);
    assert Flatten(blocks)[0] == Version(m);
  }

  /** A snapshot that the ring does not mention stays unseen. */
  lemma StaleIsUnseen<E, S>(ring: Ring<E, S>, top: int, m: BlobMac<S>)
    requires |ring| > 0 && Rising(ring, top)
    requires Silent(ring, m)
    ensures !Seen(m, Flatten(ChainFrom(ring, top, m.snapshot.recoverFrom, None)))
  {
    ReadFromRing(ring, top, m.snapshot.recoverFrom, None, m);
  }
}
