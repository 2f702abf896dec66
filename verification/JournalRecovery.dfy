/** `EditJournal::recover`, and what a recovered journal is worth: whether the next block it appends
    will survive the next crash. */
module JournalRecovery {
  import opened Common
  import opened JournalSpec
  import opened CryptoChains
  import opened Journals

  /** The journal that recovery opens: its state, and the chain range and MACs to append after. */
  datatype Opened<S> = Opened(state: S, seen: bool, from: nat, macs: seq<int>)

  method Recover<E, S(==)>(apply: (S, E) -> S, d: Disk<E, S>, ghost top: int) returns (r: Option<Opened<S>>)
    requires |d.blobs| == 2 && |d.ring| > 0 && Rising(d.ring, top)
    ensures r.None? <==> Recovered(apply, d, top).None?
    ensures r.Some? ==> Recovered(apply, d, top) == Some(r.value.state)
    ensures r.Some? ==> ReadBy(d, top, r.value)
  {
    var m := Latest(d.blobs);
    if m.None? { return None; }
    hide Scan, Flatten, NoVersion, Latest, Rising;
    var from := m.value.snapshot.recoverFrom;
    var st := (m.value.snapshot.state, false);
    var macs: seq<int> := [];
    var b := NextBlock(d.ring, from, None);
    ghost var start := st;
    ghost var all := ChainFrom(d.ring, top, from, None);
    ghost var read: seq<ChainBlock<E, S>> := [];
    ReadNone(apply, m.value, start);
    while b.Some?
      invariant |macs| == |read| && forall i :: 0 <= i < |macs| ==> macs[i] == read[i].mac
      invariant b == NextBlock(d.ring, from + |macs|, LastOf(macs))
      invariant all == read + ChainFrom(d.ring, top, from + |macs|, LastOf(macs))
      invariant st == Scan(apply, m.value, start, Flatten(read))
      decreases if macs == [] then 1 else 0, if macs == [] then 0 else top - macs[|macs| - 1]
    {
      st := ScanBlock(apply, m.value, st, b.value.payload);
      ReadOne(apply, m.value, start, d.ring, top, from, macs, read, all, b.value);
      read := read + [b.value];
      macs := macs + [b.value.mac];
      b := NextBlock(d.ring, from + |macs|, LastOf(macs));
    }
    assert read == all;
    ScanSeen(apply, m.value, start, Flatten(all));
    r := Some(Opened(st.0, st.1, from, macs));
  }

  lemma ReadNone<E, S>(apply: (S, E) -> S, m: BlobMac<S>, st: (S, bool))
    ensures Scan(apply, m, st, Flatten([])) == st
  {
  }

  /** One turn of the recovery loop. */
  lemma ReadOne<E, S>(apply: (S, E) -> S, m: BlobMac<S>, st: (S, bool), ring: Ring<E, S>, top: int, from: nat,
                      macs: seq<int>, read: seq<ChainBlock<E, S>>, all: seq<ChainBlock<E, S>>, b: ChainBlock<E, S>)
    requires |ring| > 0 && Rising(ring, top) && |macs| == |read|
    requires NextBlock(ring, from + |macs|, LastOf(macs)) == Some(b)
    requires all == read + ChainFrom(ring, top, from + |macs|, LastOf(macs))
    ensures all == read + [b] + ChainFrom(ring, top, from + |macs + [b.mac]|, LastOf(macs + [b.mac]))
    ensures Scan(apply, m, st, Flatten(read + [b])) == Scan(apply, m, Scan(apply, m, st, Flatten(read)), b.payload)
    ensures b.mac <= top && (macs != [] ==> macs[|macs| - 1] < b.mac)
  {
    FlattenSnoc(read, b);
    ScanConcat(apply, m, st, Flatten(read), b.payload);
    var rest := ChainFrom(ring, top, from + |macs| + 1, Some(b.mac));
    assert read + ([b] + rest) == read + [b] + rest;
  }

  method ScanBlock<E, S(==)>(apply: (S, E) -> S, mac: BlobMac<S>, st: (S, bool), rs: seq<Record<E, S>>) returns (r: (S, bool))
    ensures r == Scan(apply, mac, st, rs)
  {
    r := st;
    var i := 0;
    while i < |rs|
      invariant 0 <= i <= |rs| && r == Scan(apply, mac, st, rs[..i])
    {
      assert rs[..i + 1][..i] == rs[..i];
      r := ScanStep(apply, mac, r, rs[i]);
      i := i + 1;
    }
    assert rs[..i] == rs;
  }

  function LastOf(macs: seq<int>): Option<int> {
    if macs == [] then None else Some(macs[|macs| - 1])
  }

  /** The opened chain is what the disk offers, and the version was seen or not. */
  ghost predicate ReadBy<E, S>(d: Disk<E, S>, top: int, o: Opened<S>)
    requires |d.blobs| == 2 && |d.ring| > 0 && Rising(d.ring, top)
  {
    var m := Latest(d.blobs);
    && m.Some? && o.from == m.value.snapshot.recoverFrom
    && var all := ChainFrom(d.ring, top, o.from, None);
       && |o.macs| == |all| && (forall i :: 0 <= i < |all| ==> o.macs[i] == all[i].mac)
       && (o.seen <==> Seen(m.value, Flatten(all)))
  }

  // ---- Appending to a recovered journal ----------------------------------------------------------------

  ghost predicate Increasing<E, S>(blocks: seq<ChainBlock<E, S>>) {
    forall i, j :: 0 <= i < j < |blocks| ==> blocks[i].mac < blocks[j].mac
  }

  /** Accepted blocks are the linked contents of consecutive slots. */
  lemma {:induction false} Accepted<E, S>(ring: Ring<E, S>, top: int, pos: nat, last: Option<int>)
    requires |ring| > 0 && Rising(ring, top)
    ensures var bs := ChainFrom(ring, top, pos, last);
            && (forall i :: 0 <= i < |bs| ==> InSlot(ring, pos, i, bs[i]))
            && Linked(bs) && Increasing(bs)
            && (|bs| > 0 && last.Some? ==> bs[0].preMac == last.value)
    decreases if last.None? then 1 else 0, if last.None? then 0 else top - last.value
  {
    var b := NextBlock(ring, pos, last);
    if b.Some? {
      Accepted(ring, top, pos + 1, Some(b.value.mac));
      var rest := ChainFrom(ring, top, pos + 1, Some(b.value.mac));
      var bs := [b.value] + rest;
      assert ChainFrom(ring, top, pos, last) == bs;
      forall i | 0 <= i < |bs| ensures InSlot(ring, pos, i, bs[i]) {
        if i > 0 { assert InSlot(ring, pos + 1, i - 1, rest[i - 1]); }
      }
      if |rest| > 0 { assert InSlot(ring, pos + 1, 0, rest[0]); }
    }
  }

  lemma NotOneLap<E, S>(ring: Ring<E, S>, pos: nat, i: nat, b: ChainBlock<E, S>, c: ChainBlock<E, S>)
    requires |ring| > 0 && InSlot(ring, pos, 0, b) && InSlot(ring, pos, i, c) && b.mac < c.mac
    ensures i != |ring|
  {
    SameSlot(pos, |ring|);
  }

  /** Recovery never goes round the ring twice. */
  lemma AtMostOneLap<E, S>(ring: Ring<E, S>, top: int, pos: nat)
    requires |ring| > 0 && Rising(ring, top)
    ensures |ChainFrom(ring, top, pos, None)| <= |ring|
  {
    Accepted(ring, top, pos, None);
    var bs := ChainFrom(ring, top, pos, None);
    if |bs| > |ring| { NotOneLap(ring, pos, |ring|, bs[0], bs[|ring|]); }
  }

  /** The ring after blocks were written from position `pos` on. */
  ghost function AppendAll<E, S>(ring: Ring<E, S>, pos: nat, cs: seq<ChainBlock<E, S>>): (r: Ring<E, S>)
    requires |ring| > 0
    ensures |r| == |ring|
  {
    if cs == [] then ring
    else AppendAll(ring, pos, cs[..|cs| - 1])[(pos + |cs| - 1) % |ring| := Some(cs[|cs| - 1])]
  }

  ghost function EndMac<E, S>(top: int, cs: seq<ChainBlock<E, S>>): int {
    if cs == [] then top else cs[|cs| - 1].mac
  }

  /** Blocks of edits, chained behind `bs` under fresh MACs. */
  ghost predicate Follow<E, S>(bs: seq<ChainBlock<E, S>>, top: int, cs: seq<ChainBlock<E, S>>) {
    && top >= 0 && Linked(cs) && Increasing(cs)
    && (cs != [] ==> cs[0].preMac == if bs == [] then 0 else bs[|bs| - 1].mac)
    && forall i :: 0 <= i < |cs| ==> cs[i].mac > top && AllEdits(cs[i].payload)
  }

  lemma FollowPrefix<E, S>(bs: seq<ChainBlock<E, S>>, top: int, cs: seq<ChainBlock<E, S>>)
    requires Follow(bs, top, cs) && cs != []
    ensures Follow(bs, top, cs[..|cs| - 1]) && EndMac(top, cs[..|cs| - 1]) < cs[|cs| - 1].mac
  {
  }

  /** Every slot holds an older block or one of the appended blocks of edits. */
  ghost predicate Mixed<E, S>(ring: Ring<E, S>, top: int) {
    forall i :: 0 <= i < |ring| && ring[i].Some? && ring[i].value.mac > top ==> AllEdits(ring[i].value.payload)
  }

  lemma {:induction false} AppendAllRing<E, S>(ring: Ring<E, S>, top: int, pos: nat, bs: seq<ChainBlock<E, S>>, cs: seq<ChainBlock<E, S>>)
    requires |ring| > 0 && Rising(ring, top) && Follow(bs, top, cs)
    requires forall i :: 0 <= i < |bs| ==> 0 <= bs[i].mac <= top
    ensures Rising(AppendAll(ring, pos, cs), EndMac(top, cs)) && Mixed(AppendAll(ring, pos, cs), top)
    decreases |cs|
  {
    if cs != [] {
      FollowPrefix(bs, top, cs);
      AppendAllRing(ring, top, pos, bs, cs[..|cs| - 1]);
    }
  }

  /** With room for all of them, old and new blocks are in consecutive slots. */
  lemma {:induction false} AppendAllSlots<E, S>(ring: Ring<E, S>, from: nat, bs: seq<ChainBlock<E, S>>, cs: seq<ChainBlock<E, S>>)
    requires |ring| > 0 && |bs| + |cs| <= |ring|
    requires forall i :: 0 <= i < |bs| ==> InSlot(ring, from, i, bs[i])
    ensures forall i :: 0 <= i < |bs| + |cs| ==> InSlot(AppendAll(ring, from + |bs|, cs), from, i, (bs + cs)[i])
    decreases |cs|
  {
    if cs != [] {
      var k := |cs| - 1;
      AppendAllSlots(ring, from, bs, cs[..k]);
      var r := AppendAll(ring, from + |bs|, cs);
      forall i | 0 <= i < |bs| + |cs| ensures InSlot(r, from, i, (bs + cs)[i]) {
        if i < |bs| + k {
          assert InSlot(AppendAll(ring, from + |bs|, cs[..k]), from, i, (bs + cs[..k])[i]);
          DifferentSlots(from + i, from + |bs| + k, |ring|);
        }
      }
    }
  }

  /** A slot written at least once holds an appended block. */
  lemma {:induction false} AppendAllTaken<E, S>(ring: Ring<E, S>, pos: nat, cs: seq<ChainBlock<E, S>>, j: nat, top: int)
    requires |ring| > 0 && j < |cs| && forall i :: 0 <= i < |cs| ==> cs[i].mac > top
    ensures var b := AppendAll(ring, pos, cs)[(pos + j) % |ring|]; b.Some? && b.value.mac > top
    decreases |cs|
  {
    if j < |cs| - 1 { AppendAllTaken(ring, pos, cs[..|cs| - 1], j, top); }
  }

  /** Behind an appended block only appended blocks are accepted. */
  lemma {:induction false} OnlyEdits<E, S>(ring: Ring<E, S>, end: int, top: int, pos: nat, last: Option<int>)
    requires |ring| > 0 && Rising(ring, end) && Mixed(ring, top)
    requires if last.Some? then last.value > top else ring[pos % |ring|].Some? && ring[pos % |ring|].value.mac > top
    ensures AllEdits(Flatten(ChainFrom(ring, end, pos, last)))
    decreases if last.None? then 1 else 0, if last.None? then 0 else end - last.value
  {
    var b := NextBlock(ring, pos, last);
    if b.Some? {
      var rest := ChainFrom(ring, end, pos + 1, Some(b.value.mac));
      OnlyEdits(ring, end, top, pos + 1, Some(b.value.mac));
      FlattenCons(b.value, rest);
    }
  }

  /** What recovery finds after the appends. */
  lemma AppendedRead<E, S>(ring: Ring<E, S>, top: int, from: nat, cs: seq<ChainBlock<E, S>>)
    requires |ring| > 0 && Rising(ring, top) && Follow(ChainFrom(ring, top, from, None), top, cs)
    ensures var bs := ChainFrom(ring, top, from, None);
            var r := AppendAll(ring, from + |bs|, cs);
            && Rising(r, EndMac(top, cs))
            && (|bs| + |cs| <= |ring| ==> ChainFrom(r, EndMac(top, cs), from, None) == bs + cs)
            && (|bs| + |cs| > |ring| ==> AllEdits(Flatten(ChainFrom(r, EndMac(top, cs), from, None))))
  {
    var bs := ChainFrom(ring, top, from, None);
    var r, end := AppendAll(ring, from + |bs|, cs), EndMac(top, cs);
    Accepted(ring, top, from, None);
    forall i | 0 <= i < |bs| ensures 0 <= bs[i].mac <= top { assert InSlot(ring, from, i, bs[i]); }
    AppendAllRing(ring, top, from + |bs|, bs, cs);
    if cs == [] {
      assert bs + cs == bs;
      AtMostOneLap(ring, top, from);
    } else if |bs| + |cs| <= |ring| {
      AppendAllSlots(ring, from, bs, cs);
      LinkedJoin(bs, cs);
      ReadsBack(r, end, from, bs + cs, 0);
      assert (bs + cs)[0..] == bs + cs && from + 0 == from;
    } else {
      AtMostOneLap(ring, top, from);
      AppendAllTaken(ring, from + |bs|, cs, |ring| - |bs|, top);
      SameSlot(from, |ring|);
      OnlyEdits(r, end, top, from, None);
    }
  }

  lemma LinkedJoin<E, S>(bs: seq<ChainBlock<E, S>>, cs: seq<ChainBlock<E, S>>)
    requires Linked(bs) && Linked(cs) && (bs != [] && cs != [] ==> cs[0].preMac == bs[|bs| - 1].mac)
    ensures Linked(bs + cs)
  {
  }

  /** The edits a recovered journal appends survive the next crash exactly while recovery had seen the
      snapshot's version record and the ring has room for them. Otherwise the next recovery falls back to
      the snapshot. */
  lemma NextAppends<E, S>(apply: (S, E) -> S, d: Disk<E, S>, top: int, m: BlobMac<S>, cs: seq<ChainBlock<E, S>>)
    requires |d.blobs| == 2 && |d.ring| > 0 && Rising(d.ring, top) && Latest(d.blobs) == Some(m)
    requires Follow(ChainFrom(d.ring, top, m.snapshot.recoverFrom, None), top, cs)
    ensures var bs := ChainFrom(d.ring, top, m.snapshot.recoverFrom, None);
            var r := AppendAll(d.ring, m.snapshot.recoverFrom + |bs|, cs);
            && Rising(r, EndMac(top, cs))
            && Recovered(apply, d.(ring := r), EndMac(top, cs)) ==
               Some(if Seen(m, Flatten(bs)) && |bs| + |cs| <= |d.ring|
                    then Replay(apply, Recovered(apply, d, top).value, Groups(Flatten(cs)))
                    else m.snapshot.state)
  {
    hide ChainFrom, Holds, Latest, Flatten, Scan, Replay, Groups, NoVersion, AllEdits, Linked;
    var from := m.snapshot.recoverFrom;
    var bs := ChainFrom(d.ring, top, from, None);
    var r := AppendAll(d.ring, from + |bs|, cs);
    AppendedRead(d.ring, top, from, cs);
    if |bs| + |cs| <= |d.ring| {
      FlattenConcat(bs, cs);
      FollowEdits(bs, top, cs);
      AppendedScan(apply, m, Flatten(bs), Flatten(cs));
    } else {
      EditsStale(apply, m, Flatten(ChainFrom(r, EndMac(top, cs), from, None)));
    }
  }

  lemma {:induction false} FlattenConcat<E, S>(bs: seq<ChainBlock<E, S>>, cs: seq<ChainBlock<E, S>>)
    ensures Flatten(bs + cs) == Flatten(bs) + Flatten(cs)
  {
    if cs == [] {
      assert bs + cs == bs;
    } else {
      assert (bs + cs)[..|bs + cs| - 1] == bs + cs[..|cs| - 1];
      FlattenConcat(bs, cs[..|cs| - 1]);
    }
  }

  lemma FollowEdits<E, S>(bs: seq<ChainBlock<E, S>>, top: int, cs: seq<ChainBlock<E, S>>)
    requires Follow(bs, top, cs)
    ensures AllEdits(Flatten(cs))
  {
    EditsFlatten(cs);
  }

  lemma EditsStale<E, S>(apply: (S, E) -> S, m: BlobMac<S>, rs: seq<Record<E, S>>)
    requires AllEdits(rs)
    ensures Scan(apply, m, (m.snapshot.state, false), rs).0 == m.snapshot.state
  {
    ScanStale(apply, m, m.snapshot.state, rs);
  }

  lemma AppendedScan<E, S>(apply: (S, E) -> S, m: BlobMac<S>, rs: seq<Record<E, S>>, edits: seq<Record<E, S>>)
    requires AllEdits(edits)
    ensures var s := m.snapshot.state;
            Scan(apply, m, (s, false), rs + edits).0 ==
            if Seen(m, rs) then Replay(apply, Scan(apply, m, (s, false), rs).0, Groups(edits)) else s
  {
    var s := m.snapshot.state;
    ScanConcat(apply, m, (s, false), rs, edits);
    ScanSeen(apply, m, (s, false), rs);
    if Seen(m, rs) {
      ScanEdits(apply, m, Scan(apply, m, (s, false), rs).0, edits);
    } else {
      ScanStale(apply, m, s, rs);
      ScanStale(apply, m, s, edits);
    }
  }

  /** Repairing an unreadable blob does not change what the next recovery chooses. */
  lemma RepairKeepsLatest<S>(blobs: seq<Blob<S>>)
    requires |blobs| == 2 && Repair(blobs).Some?
    ensures Latest(Repair(blobs).value) == Latest(blobs)
  {
  }

  // ---- Going on after a crash of a run --------------------------------------------------------------------

  /** The blocks that recovery from an image accepts. */
  ghost function Accepts<E, S>(c: Crash<E, S>): seq<ChainBlock<E, S>>
    requires Bootable(c.disk, c.top) && Latest(c.disk.blobs).Some?
  {
    ChainFrom(c.disk.ring, c.top, Latest(c.disk.blobs).value.snapshot.recoverFrom, None)
  }

  /** The disk of a journal that crashed with image `c`, recovered, and then appended `cs`. */
  ghost function Resumed<E, S>(c: Crash<E, S>, cs: seq<ChainBlock<E, S>>): Disk<E, S>
    requires Bootable(c.disk, c.top) && Latest(c.disk.blobs).Some?
  {
    Disk(Repair(c.disk.blobs).value,
         AppendAll(c.disk.ring, Latest(c.disk.blobs).value.snapshot.recoverFrom + |Accepts(c)|, cs))
  }

  /** For every image of a run: what the recovered journal appends survives a second crash if and only if
      the image shows the version record and the live chain leaves room. In particular everything appended
      after a crash right behind a snapshot write is lost, and so is everything since the snapshot once a
      recovered journal fills the ring. */
  lemma SecondCrash<E, S>(apply: (S, E) -> S, init: S, c: Crash<E, S>, cs: seq<ChainBlock<E, S>>)
    requires Survives(apply, init, c) && Follow(Accepts(c), c.top, cs)
    ensures var d := Resumed(c, cs);
            && Bootable(d, EndMac(c.top, cs))
            && Recovered(apply, d, EndMac(c.top, cs)) ==
               Some(Replay(apply, init, if ShowsVersion(c) && c.live + |cs| <= |c.disk.ring|
                                        then Kept(c) + Groups(Flatten(cs)) else c.base))
  {
    hide ChainFrom, Latest, Flatten, Scan, Replay, Groups, NoVersion, AllEdits, Linked, Repair, Rising, Recovered, Seen, Follow, EndMac;
    ResumedRecovers(apply, c, cs);
    EndMacUp(Accepts(c), c.top, cs);
    ReplayConcat(apply, init, c.durable, Groups(Flatten(cs)));
  }

  /** Everything appended after a crash between a snapshot and its version record is lost. */
  lemma LostBehindSnapshot<E, S>(apply: (S, E) -> S, init: S, c: Crash<E, S>, cs: seq<ChainBlock<E, S>>)
    requires Survives(apply, init, c) && c.moment.AfterSnapshot? && Follow(Accepts(c), c.top, cs)
    ensures Bootable(Resumed(c, cs), EndMac(c.top, cs))
    ensures Recovered(apply, Resumed(c, cs), EndMac(c.top, cs)) == Some(Replay(apply, init, c.durable))
  {
    hide ChainFrom, Latest, Replay, Recovered, Follow, EndMac, Resumed;
    SecondCrash(apply, init, c, cs);
  }

  /** One append after a crash with a full ring loses every group since the snapshot, recovered or not. */
  lemma LostBehindFullRing<E, S>(apply: (S, E) -> S, init: S, c: Crash<E, S>, cs: seq<ChainBlock<E, S>>)
    requires Survives(apply, init, c) && c.moment.AfterEdits? && c.live >= |c.disk.ring| && cs != []
    requires Follow(Accepts(c), c.top, cs)
    ensures Bootable(Resumed(c, cs), EndMac(c.top, cs)) && c.base < c.durable
    ensures Recovered(apply, Resumed(c, cs), EndMac(c.top, cs)) == Some(Replay(apply, init, c.base))
  {
    hide ChainFrom, Latest, Replay, Recovered, Follow, EndMac, Resumed;
    SecondCrash(apply, init, c, cs);
  }

  lemma ResumedRecovers<E, S>(apply: (S, E) -> S, c: Crash<E, S>, cs: seq<ChainBlock<E, S>>)
    requires Bootable(c.disk, c.top) && Latest(c.disk.blobs).Some? && Follow(Accepts(c), c.top, cs)
    ensures var d := Resumed(c, cs);
            var m := Latest(c.disk.blobs).value;
            && |d.blobs| == 2 && |d.ring| == |c.disk.ring| && Rising(d.ring, EndMac(c.top, cs))
            && Recovered(apply, d, EndMac(c.top, cs)) ==
               Some(if Seen(m, Flatten(Accepts(c))) && |Accepts(c)| + |cs| <= |c.disk.ring|
                    then Replay(apply, Recovered(apply, c.disk, c.top).value, Groups(Flatten(cs)))
                    else m.snapshot.state)
  {
    hide ChainFrom, Latest, Flatten, Scan, Replay, Groups, NoVersion, AllEdits, Linked, Repair, Rising, Recovered, Seen, Follow, EndMac, AppendAll;
    var m := Latest(c.disk.blobs).value;
    RepairedBlobs(c.disk.blobs);
    RepairKeepsLatest(c.disk.blobs);
    var e := c.disk.(blobs := Repair(c.disk.blobs).value);
    NextAppends(apply, e, c.top, m, cs);
    SameRecovery(apply, c.disk, e, c.top);
    assert Resumed(c, cs) == e.(ring := AppendAll(e.ring, m.snapshot.recoverFrom + |Accepts(c)|, cs));
  }

  lemma RepairedBlobs<S>(blobs: seq<Blob<S>>)
    requires |blobs| == 2 && Latest(blobs).Some?
    ensures Repair(blobs).Some? && |Repair(blobs).value| == 2
  {
  }

  lemma SameRecovery<E, S>(apply: (S, E) -> S, d: Disk<E, S>, e: Disk<E, S>, top: int)
    requires |d.blobs| == |e.blobs| == 2 && |d.ring| > 0 && Rising(d.ring, top)
    requires e.ring == d.ring && Latest(e.blobs) == Latest(d.blobs)
    ensures Recovered(apply, e, top) == Recovered(apply, d, top)
  {
  }

  lemma EndMacUp<E, S>(bs: seq<ChainBlock<E, S>>, top: int, cs: seq<ChainBlock<E, S>>)
    requires Follow(bs, top, cs)
    ensures EndMac(top, cs) >= 0
  {
  }
}
