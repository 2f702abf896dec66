/** The edit journal of journal.rs, formatted and then used. Every disk image that a crash could leave
    behind is remembered in the ghost field `crashes`. */
module Journals {
  import opened Common
  import opened JournalSpec
  import opened CryptoChains

  /** When a crash hits: behind a block of edits, inside the snapshot write to blob `target`, behind that
      write, or behind the version record that follows it. */
  datatype Moment = AfterEdits | TornSnapshot(target: int) | AfterSnapshot | AfterVersion

  /** A disk image, with the groups that were in chain blocks by then, those in the snapshot that recovery
      will choose, and the length of the live chain. */
  datatype Crash<E, S> =
    Crash(moment: Moment, disk: Disk<E, S>, top: int, durable: seq<seq<E>>, base: seq<seq<E>>, live: nat)

  ghost predicate Bootable<E, S>(d: Disk<E, S>, top: int) {
    |d.blobs| == 2 && |d.ring| > 0 && Rising(d.ring, top) && top >= 0
  }

  /** Recovery will find the version record of the snapshot it chooses. In an area of one block a block of
      edits overwrites it. A torn write to blob 0 makes recovery look for a MAC that was never recorded. */
  predicate ShowsVersion<E, S>(c: Crash<E, S>) {
    match c.moment
    case AfterEdits => |c.disk.ring| >= 2
    case TornSnapshot(target) => |c.disk.ring| >= 2 && target == 1
    case AfterSnapshot => false
    case AfterVersion => true
  }

  /** The groups that survive: all that reached a chain block, or else those of the snapshot. */
  function Kept<E, S>(c: Crash<E, S>): seq<seq<E>> {
    if ShowsVersion(c) then c.durable else c.base
  }

  /** The snapshot lags behind the chain until it is written. */
  ghost predicate Lags<E, S>(c: Crash<E, S>) {
    && (c.moment.TornSnapshot? ==> c.moment.target == 0 || c.moment.target == 1)
    && if c.moment.AfterEdits? || c.moment.TornSnapshot? then c.base < c.durable else c.base == c.durable
  }

  /** Recovery from the image yields exactly the groups in `Kept`. */
  ghost predicate Survives<E, S>(apply: (S, E) -> S, init: S, c: Crash<E, S>) {
    && Bootable(c.disk, c.top) && Lags(c) && Latest(c.disk.blobs).Some?
    && var m := Latest(c.disk.blobs).value;
       var blocks := ChainFrom(c.disk.ring, c.top, m.snapshot.recoverFrom, None);
       && m.snapshot.state == Replay(apply, init, c.base)
       && (Seen(m, Flatten(blocks)) <==> ShowsVersion(c)) && (ShowsVersion(c) ==> |blocks| == c.live)
       && Recovered(apply, c.disk, c.top) == Some(Replay(apply, init, Kept(c)))
  }

  /** Every group in a chain block survives if and only if no snapshot write to blob 0 was torn and the area
      has two blocks or the snapshot covers the chain. */
  lemma KeptAll<E, S>(apply: (S, E) -> S, init: S, c: Crash<E, S>)
    requires Survives(apply, init, c)
    ensures Kept(c) == c.durable <==>
            match c.moment
            case AfterEdits => |c.disk.ring| >= 2
            case TornSnapshot(target) => |c.disk.ring| >= 2 && target == 1
            case AfterSnapshot => true
            case AfterVersion => true
  {
    hide Recovered, ChainFrom, Replay, Latest, Flatten;
    if !ShowsVersion(c) && c.moment != AfterSnapshot { assert c.base != c.durable; }
  }

  // ---- Versions mentioned in the ring -----------------------------------------------------------------

  /** No version record is newer than the blob it names. */
  ghost predicate Dated<E, S>(rs: seq<Record<E, S>>, blobs: seq<Blob<S>>)
    requires |blobs| == 2 && blobs[0].Readable? && blobs[1].Readable?
  {
    forall i :: 0 <= i < |rs| && rs[i].Version? ==>
      0 <= rs[i].mac.blob < 2 && rs[i].mac.version <= blobs[rs[i].mac.blob].version
  }

  ghost predicate AllDated<E, S>(ring: Ring<E, S>, blobs: seq<Blob<S>>)
    requires |blobs| == 2 && blobs[0].Readable? && blobs[1].Readable?
  {
    forall i :: 0 <= i < |ring| && ring[i].Some? ==> Dated(ring[i].value.payload, blobs)
  }

  lemma Unmentioned<E, S>(ring: Ring<E, S>, blobs: seq<Blob<S>>, m: BlobMac<S>)
    requires |blobs| == 2 && blobs[0].Readable? && blobs[1].Readable?
    requires AllDated(ring, blobs) && 0 <= m.blob < 2 && m.version > blobs[m.blob].version
    ensures Silent(ring, m)
  {
    forall i | 0 <= i < |ring| && ring[i].Some? ensures NoVersion(m, ring[i].value.payload) {
      assert Dated(ring[i].value.payload, blobs);
    }
  }

  // ---- What crashes recover to --------------------------------------------------------------------------

  /** Committed groups are the snapshot's, then the chain's, then the buffered ones. */
  ghost predicate Accounts<E, S>(base: seq<seq<E>>, blocks: seq<ChainBlock<E, S>>, buf: seq<Record<E, S>>, committed: seq<seq<E>>)
    requires |blocks| > 0
  {
    committed == base + Groups(Flatten(blocks[1..])) + Groups(buf)
  }

  lemma LiveCrash<E, S>(apply: (S, E) -> S, init: S, c: Crash<E, S>, m: BlobMac<S>, blocks: seq<ChainBlock<E, S>>)
    requires Bootable(c.disk, c.top) && Lags(c) && ShowsVersion(c) && c.live == |blocks|
    requires Latest(c.disk.blobs) == Some(m) && m.snapshot.state == Replay(apply, init, c.base)
    requires Holds(c.disk.ring, c.top, m.snapshot.recoverFrom, blocks) && Live(m, blocks)
    requires Accounts(c.base, blocks, [], c.durable)
    ensures Survives(apply, init, c)
  {
    RecoversLive(apply, c.disk, c.top, m, blocks);
    LiveIsSeen(c.disk.ring, c.top, m, blocks);
    var gs := Groups(Flatten(blocks[1..]));
    ReplayConcat(apply, init, c.base, gs);
    assert c.durable == c.base + gs;
  }

  lemma SilentCrash<E, S>(apply: (S, E) -> S, init: S, c: Crash<E, S>, m: BlobMac<S>)
    requires Bootable(c.disk, c.top) && Lags(c) && !ShowsVersion(c)
    requires Latest(c.disk.blobs) == Some(m) && m.snapshot.state == Replay(apply, init, c.base)
    requires Silent(c.disk.ring, m)
    ensures Survives(apply, init, c)
  {
    RecoversStale(apply, c.disk, c.top, m);
    StaleIsUnseen(c.disk.ring, c.top, m);
  }

  /** The live chain is in the ring, or the ring's only slot holds edits. */
  ghost predicate Placed<E, S>(ring: Ring<E, S>, top: int, m: BlobMac<S>, blocks: seq<ChainBlock<E, S>>) {
    && Live(m, blocks)
    && if |ring| >= 2 then Holds(ring, top, m.snapshot.recoverFrom, blocks) else Silent(ring, m)
  }

  /** The image behind a block of edits. */
  lemma EditsCrash<E, S>(apply: (S, E) -> S, init: S, c: Crash<E, S>, latest: int, blocks: seq<ChainBlock<E, S>>)
    requires Bootable(c.disk, c.top) && c.moment.AfterEdits? && c.base < c.durable && c.live == |blocks|
    requires Alternating(c.disk.blobs, latest) && c.disk.blobs[latest].snapshot.state == Replay(apply, init, c.base)
    requires Placed(c.disk.ring, c.top, MacOf(c.disk.blobs, latest), blocks) && Accounts(c.base, blocks, [], c.durable)
    ensures Survives(apply, init, c)
  {
    LatestNamed(c.disk.blobs, latest);
    var m := MacOf(c.disk.blobs, latest);
    if |c.disk.ring| >= 2 { LiveCrash(apply, init, c, m, blocks); } else { SilentCrash(apply, init, c, m); }
  }

  /** The image of a torn snapshot write. */
  lemma TornCrash<E, S>(apply: (S, E) -> S, init: S, c: Crash<E, S>, d: Disk<E, S>, latest: int, blocks: seq<ChainBlock<E, S>>)
    requires Alternating(d.blobs, latest) && AllDated(d.ring, d.blobs)
    requires c.moment == TornSnapshot(1 - latest) && c.disk == d.(blobs := d.blobs[1 - latest := Unreadable])
    requires Bootable(c.disk, c.top) && c.base < c.durable && c.live == |blocks|
    requires d.blobs[latest].snapshot.state == Replay(apply, init, c.base)
    requires Placed(d.ring, c.top, MacOf(d.blobs, latest), blocks) && Accounts(c.base, blocks, [], c.durable)
    ensures Survives(apply, init, c)
  {
    LatestTorn(d.blobs, latest);
    var m := Latest(c.disk.blobs).value;
    if latest == 0 {
      assert m == MacOf(d.blobs, 0);
      if |d.ring| >= 2 { LiveCrash(apply, init, c, m, blocks); } else { SilentCrash(apply, init, c, m); }
    } else {
      Unmentioned(d.ring, d.blobs, m);
      SilentCrash(apply, init, c, m);
    }
  }

  /** The image right after a snapshot write: nothing in the ring mentions it yet. */
  lemma FreshCrash<E, S>(apply: (S, E) -> S, init: S, c: Crash<E, S>, d: Disk<E, S>, latest: int, sn: Snapshot<S>)
    requires Alternating(d.blobs, latest) && AllDated(d.ring, d.blobs)
    requires c.moment.AfterSnapshot? && Bootable(c.disk, c.top) && c.base == c.durable
    requires c.disk == d.(blobs := d.blobs[1 - latest := Readable(d.blobs[1 - latest].version + 1, sn)])
    requires sn.state == Replay(apply, init, c.durable)
    ensures Alternating(c.disk.blobs, 1 - latest) && Survives(apply, init, c)
  {
    LatestNamed(c.disk.blobs, 1 - latest);
    Unmentioned(d.ring, d.blobs, MacOf(c.disk.blobs, 1 - latest));
    SilentCrash(apply, init, c, MacOf(c.disk.blobs, 1 - latest));
  }

  /** The image behind a version record, alone in the live chain. */
  lemma VersionCrash<E, S>(apply: (S, E) -> S, init: S, c: Crash<E, S>, latest: int, last: ChainBlock<E, S>)
    requires Alternating(c.disk.blobs, latest) && c.disk.blobs[latest].snapshot.state == Replay(apply, init, c.durable)
    requires c.moment.AfterVersion? && c.base == c.durable && c.live == 1 && c.top >= 0
    requires Holds(c.disk.ring, c.top, c.disk.blobs[latest].snapshot.recoverFrom, [last])
    requires last.payload == [Version(MacOf(c.disk.blobs, latest))]
    ensures Survives(apply, init, c)
  {
    LatestNamed(c.disk.blobs, latest);
    assert [last][1..] == [];
    LiveCrash(apply, init, c, MacOf(c.disk.blobs, latest), [last]);
  }

  lemma AccountsCommit<E, S>(base: seq<seq<E>>, blocks: seq<ChainBlock<E, S>>, buf: seq<Record<E, S>>, committed: seq<seq<E>>, g: seq<E>)
    requires |blocks| > 0 && Accounts(base, blocks, buf, committed)
    ensures Accounts(base, blocks, buf + [Edits(g)], committed + [g])
  {
    assert (buf + [Edits(g)])[..|buf|] == buf;
    assert base + Groups(Flatten(blocks[1..])) + Groups(buf) + [g] == base + Groups(Flatten(blocks[1..])) + (Groups(buf) + [g]);
  }

  lemma AccountsAppend<E, S>(base: seq<seq<E>>, blocks: seq<ChainBlock<E, S>>, buf: seq<Record<E, S>>, committed: seq<seq<E>>, b: ChainBlock<E, S>)
    requires |blocks| > 0 && Accounts(base, blocks, buf, committed) && b.payload == buf
    ensures Accounts(base, blocks + [b], [], committed)
  {
    assert (blocks + [b])[1..] == blocks[1..] + [b];
    FlattenSnoc(blocks[1..], b);
    GroupsConcat(Flatten(blocks[1..]), buf);
    assert base + Groups(Flatten(blocks[1..])) + Groups(buf) == base + (Groups(Flatten(blocks[1..])) + Groups(buf)) + [];
  }

  /** Every block but the first holds at least one group. */
  lemma ChainGrows<E, S>(m: BlobMac<S>, base: seq<seq<E>>, blocks: seq<ChainBlock<E, S>>, committed: seq<seq<E>>)
    requires Live(m, blocks) && |blocks| > 1 && blocks[|blocks| - 1].payload != []
    requires Accounts(base, blocks, [], committed)
    ensures base < committed
  {
    var tail := blocks[1..];
    var last := tail[|tail| - 1];
    assert last == blocks[|blocks| - 1];
    FlattenSnoc(tail[..|tail| - 1], last);
    assert tail[..|tail| - 1] + [last] == tail;
    GroupsConcat(Flatten(tail[..|tail| - 1]), last.payload);
    GroupsOfEdits(last.payload);
  }

  lemma {:induction false} GroupsOfEdits<E, S>(rs: seq<Record<E, S>>)
    requires AllEdits(rs)
    ensures |Groups(rs)| == |rs|
  {
    if rs != [] { GroupsOfEdits(rs[..|rs| - 1]); }
  }

  // ---- The two snapshot blobs ---------------------------------------------------------------------------

  class SnapshotManager<S> {
    var blobs: seq<Blob<S>>
    var latest: int

    ghost predicate Valid()
      reads this
    {
      Alternating(blobs, latest)
    }

    constructor (init: S)
      ensures Valid() && latest == 0
      ensures blobs == [Readable(0, Snapshot(init, 0)), Readable(0, Snapshot(init, 0))]
    {
      blobs := [Readable(0, Snapshot(init, 0)), Readable(0, Snapshot(init, 0))];
      latest := 0;
    }

    function LatestMac(): BlobMac<S>
      requires Valid()
      reads this
    {
      MacOf(blobs, latest)
    }

    /** Overwrites the older blob; the versions then name it as the latest. */
    method Persist(sn: Snapshot<S>)
      requires Valid()
      modifies this
      ensures Valid() && latest == 1 - old(latest)
      ensures blobs == old(blobs)[latest := Readable(old(blobs)[latest].version + 1, sn)]
    {
      var index := (latest + 1) % 2;
      blobs := blobs[index := Readable(blobs[index].version + 1, sn)];
      latest := index;
    }
  }

  /** Two equal snapshots and a chain of one block that names the first of them. */
  method FormatChain<E, S>(nblocks: nat, init: S) returns (c: CryptoChain<E, S>, s: SnapshotManager<S>)
    requires nblocks > 0
    ensures fresh(c) && fresh(s) && c.Valid() && s.Valid()
    ensures |c.ring| == nblocks && c.start == 0 && |c.blocks| == 1 && s.latest == 0
    ensures Holds(c.ring, c.top, 0, c.blocks) && Live(MacOf(s.blobs, 0), c.blocks)
    ensures AllDated(c.ring, s.blobs) && s.blobs[0].snapshot == Snapshot(init, 0)
  {
    s := new SnapshotManager(init);
    c := new CryptoChain(nblocks);
    c.Append([Version(MacOf(s.blobs, 0))]);
  }

  const VERSION_LEN := 17

  /** Encoded length of a record: a tag byte and the MAC, or a tag byte and the group. */
  function RecordLen<E, S>(groupLen: seq<E> -> nat, r: Record<E, S>): nat {
    if r.Version? then VERSION_LEN else 1 + groupLen(r.group)
  }

  function Encoded<E, S>(groupLen: seq<E> -> nat, rs: seq<Record<E, S>>): nat {
    if rs == [] then 0 else Encoded(groupLen, rs[..|rs| - 1]) + RecordLen(groupLen, rs[|rs| - 1])
  }

  method ApplyGroup<E, S>(apply: (S, E) -> S, s: S, g: seq<E>) returns (r: S)
    ensures r == Apply(apply, s, g) == ApplyFrom(apply, s, g)
  {
    AppliesInOrder(apply, s, g);
    r := s;
    var i := 0;
    while i < |g|
      invariant 0 <= i <= |g| && r == Apply(apply, s, g[..i])
    {
      assert g[..i + 1][..i] == g[..i];
      r := apply(r, g[i]);
      i := i + 1;
    }
    assert g[..i] == g;
  }

  lemma BufferedOne<E, S>(apply: (S, E) -> S, groupLen: seq<E> -> nat, buf: seq<Record<E, S>>, init: S, committed: seq<seq<E>>, g: seq<E>)
    ensures Encoded(groupLen, buf + [Edits(g)]) == Encoded(groupLen, buf) + 1 + groupLen(g)
    ensures Replay(apply, init, committed + [g]) == Apply(apply, Replay(apply, init, committed), g)
  {
    assert (buf + [Edits(g)])[..|buf|] == buf;
    assert (committed + [g])[..|committed|] == committed;
  }

  // ---- The journal ---------------------------------------------------------------------------------------

  class EditJournal<E, S> {
    const apply: (S, E) -> S
    const groupLen: seq<E> -> nat
    /** Available bytes of a chain block. */
    const capacity: nat
    /** Blocks of the journal area, known to the compaction policy. */
    const total: nat
    const chain: CryptoChain<E, S>
    const snapshots: SnapshotManager<S>
    var state: S
    var used: nat
    var group: Option<seq<E>>
    var buf: seq<Record<E, S>>
    var cursor: nat
    ghost const init: S
    /** Groups committed since the journal was formatted, and those in the latest snapshot. */
    ghost var committed: seq<seq<E>>
    ghost var base: seq<seq<E>>
    ghost var crashes: seq<Crash<E, S>>

    ghost function Image(): Disk<E, S>
      reads chain, snapshots
    {
      Disk(snapshots.blobs, chain.ring)
    }

    /** What holds before and after each append: the live chain runs from the latest snapshot's
        `recoverFrom` and accounts, with the buffer, for every group committed since. */
    ghost predicate Core()
      reads this, chain, snapshots
    {
      && chain.Valid() && snapshots.Valid() && total == |chain.ring|
      && Live(snapshots.LatestMac(), chain.blocks)
      && chain.start == snapshots.LatestMac().snapshot.recoverFrom
      && snapshots.LatestMac().snapshot.state == Replay(apply, init, base)
      && AllDated(chain.ring, snapshots.blobs)
      && AllEdits(buf) && cursor == Encoded(groupLen, buf) <= capacity
      && Accounts(base, chain.blocks, buf, committed)
      && state == Replay(apply, init, committed)
      && AllSurvive()
    }

    ghost predicate AllSurvive()
      reads this
    {
      forall i :: 0 <= i < |crashes| ==>
        Survives(apply, init, crashes[i]) && crashes[i].durable <= committed && |crashes[i].disk.ring| == total
    }

    /** Between operations the compaction policy's count is the length of the live chain, which leaves a slot
        free or is the version record alone. */
    ghost predicate Valid()
      reads this, chain, snapshots
    {
      && Core() && used == |chain.blocks| && (used < total || used == 1)
      && VERSION_LEN <= capacity
    }

    /** `format`: two equal snapshots and a chain of one block that names the first of them. */
    constructor (nblocks: nat, init: S, apply: (S, E) -> S, groupLen: seq<E> -> nat, capacity: nat)
      requires nblocks > 0 && VERSION_LEN <= capacity
      ensures Valid() && committed == [] && base == [] && state == init && group == Some([]) && cursor == 0 && used == 1
      ensures this.init == init && this.apply == apply && this.groupLen == groupLen
      ensures fresh(chain) && fresh(snapshots) && total == nblocks && this.capacity == capacity
      ensures snapshots.latest == 0
      ensures |crashes| == 1 && crashes[0].disk == Image() && crashes[0].durable == [] && crashes[0].moment == AfterVersion
    {
      this.apply, this.groupLen, this.capacity, this.total := apply, groupLen, capacity, nblocks;
      this.init, state := init, init;
      var c, s := FormatChain<E, S>(nblocks, init);
      chain, snapshots := c, s;
      used, group, buf, cursor := 1, Some([]), [], 0;
      committed, base := [], [];
      ghost var crash := Crash(AfterVersion, Disk(s.blobs, c.ring), c.top, [], [], 1);
      crashes := [crash];
      new;
      hide *;
      Formatted();
      FormattedValid();
    }

    lemma Formatted()
      requires chain.Valid() && snapshots.Valid() && total == |chain.ring| && chain.start == 0 && |chain.blocks| == 1
      requires snapshots.latest == 0 && snapshots.blobs[0].snapshot == Snapshot(init, 0)
      requires Holds(chain.ring, chain.top, 0, chain.blocks) && Live(MacOf(snapshots.blobs, 0), chain.blocks)
      requires AllDated(chain.ring, snapshots.blobs) && state == init && buf == [] && cursor == 0 && committed == [] && base == []
      requires crashes == [Crash(AfterVersion, Disk(snapshots.blobs, chain.ring), chain.top, [], [], 1)]
      ensures Core()
    {
      hide Survives, Recovered, Latest, Rising, Linked, Holds, AllDated, Climbing, InSlot;
      assert chain.blocks[1..] == [];
      assert chain.blocks == [chain.blocks[0]];
      VersionCrash(apply, init, crashes[0], 0, chain.blocks[0]);
    }

    lemma FormattedValid()
      requires Core() && used == |chain.blocks| == 1 && VERSION_LEN <= capacity
      ensures Valid()
    {
    }

    ghost method Remember(c: Crash<E, S>)
      requires AllSurvive() && Survives(apply, init, c) && c.durable == committed && |c.disk.ring| == total
      modifies this`crashes
      ensures AllSurvive() && crashes == old(crashes) + [c]
    {
      crashes := crashes + [c];
    }

    method Add(e: E)
      requires Valid()
      modifies this`group
      ensures Valid() && group == Some((if old(group).Some? then old(group).value else []) + [e])
    {
      group := Some((if group.Some? then group.value else []) + [e]);
    }

    method Abort()
      requires Valid()
      modifies this`group
      ensures Valid() && group == if old(group).Some? then Some([]) else None
    {
      if group.Some? { group := Some([]); }
    }

    /** `commit`: the whole current group becomes committed, or, if it cannot fit into one block, the
        source panics. It touches the disk only when the write buffer is full. */
    method Commit() returns (ok: bool)
      requires Valid()
      modifies this, chain, snapshots
      ensures Valid() && group == None
      ensures ok <==> old(group).None? || old(group).value == [] || 1 + groupLen(old(group).value) <= capacity
      ensures committed == old(committed) + if ok && old(group).Some? && old(group).value != [] then [old(group).value] else []
      ensures state == if ok && old(group).Some? then ApplyFrom(apply, old(state), old(group).value) else old(state)
      ensures ok && old(group).Some? && old(group).value != [] ==>
                var len := 1 + groupLen(old(group).value);
                cursor == len + if old(cursor) + len <= capacity then old(cursor) else 0
      ensures ExtendsWith(old(crashes), old(committed))
      ensures old(group).Some? && old(group).value != [] && old(cursor) + 1 + groupLen(old(group).value) <= capacity ==>
                cursor > 0 && used == old(used) && base == old(base) && crashes == old(crashes) && snapshots.latest == old(snapshots.latest)
    {
      hide Survives, Recovered, Latest, Accounts, Groups, Flatten, Rising, Linked, Climbing, InSlot, Live, AllDated, Alternating;
      ok := true;
      if group.None? { return; }
      var g := group.value;
      group := None;
      if g == [] { return; }
      var len := 1 + groupLen(g);
      if cursor + len > capacity {
        AppendBuf();
        if cursor + len > capacity { return false; }
      }
      Buffer(g);
    }

    /** The record goes into the write buffer and its edits into the state. */
    method Buffer(g: seq<E>)
      requires Valid() && cursor + 1 + groupLen(g) <= capacity
      modifies this`buf, this`cursor, this`state, this`committed
      ensures Valid() && committed == old(committed) + [g] && cursor == old(cursor) + 1 + groupLen(g)
      ensures state == ApplyFrom(apply, old(state), g)
    {
      hide Survives, Recovered, Latest, Accounts, Groups, Flatten, Rising, Linked, Climbing, InSlot, AllDated, Alternating, Encoded, Replay;
      BufferedOne(apply, groupLen, buf, init, committed, g);
      AccountsCommit(base, chain.blocks, buf, committed, g);
      buf, cursor := buf + [Edits(g)], cursor + 1 + groupLen(g);
      state := ApplyGroup(apply, state, g);
      committed := committed + [g];
    }

    /** `flush`: afterwards the disk alone determines the state. */
    method Flush()
      requires Valid()
      modifies this`used, this`buf, this`cursor, this`base, this`crashes, chain, snapshots
      ensures Valid() && buf == [] && cursor == 0
      ensures Written(old(crashes), old(cursor) > 0, old(used) + 1 >= total, old(snapshots.latest), old(base))
      ensures ExtendsWith(old(crashes), committed)
      ensures Recovered(apply, Image(), chain.top) == Some(state)
    {
      AppendBuf();
      SettledRecovers();
    }

    /** The images of one append, and of the compaction that follows it when the policy's count is full. */
    ghost predicate Written(before: seq<Crash<E, S>>, any: bool, full: bool, latest: int, snapshotted: seq<seq<E>>)
      reads this, snapshots
    {
      var n := |before|;
      && before <= crashes
      && (!any ==> crashes == before && snapshots.latest == latest && base == snapshotted)
      && (any && !full ==>
            && |crashes| == n + 1 && crashes[n].moment == AfterEdits
            && snapshots.latest == latest && base == snapshotted)
      && (any && full ==>
            && |crashes| == n + 4 && crashes[n].moment == AfterEdits && crashes[n].live >= total && crashes[n + 1].moment == TornSnapshot(1 - latest)
            && crashes[n + 1].base == snapshotted && crashes[n + 2].moment == AfterSnapshot && crashes[n + 3].moment == AfterVersion
            && used == 1 && snapshots.latest == 1 - latest && base == committed)
    }

    /** `append_write_buf_to_journal`. */
    method AppendBuf()
      requires Valid()
      modifies this`used, this`buf, this`cursor, this`base, this`crashes, chain, snapshots
      ensures Valid() && buf == [] && cursor == 0
      ensures Written(old(crashes), old(cursor) > 0, old(used) + 1 >= total, old(snapshots.latest), old(base))
      ensures ExtendsWith(old(crashes), committed)
    {
      hide Survives, Recovered, Latest, Accounts, Groups, Flatten, Rising, Linked, Climbing, InSlot, Live, AllDated, Alternating;
      if cursor == 0 {
        assert buf == [];
        return;
      }
      AppendEdits();
      if used >= total {
        var compacted := Compact();
        used := used - compacted;
      }
    }

    /** One block of edits. With two slots or more it never overwrites the live chain. */
    method AppendEdits()
      requires Valid() && cursor > 0
      modifies this`used, this`buf, this`cursor, this`crashes, chain
      ensures Core() && buf == [] && cursor == 0 && used == |chain.blocks| == old(used) + 1 >= 2
      ensures base < committed && Placed(chain.ring, chain.top, snapshots.LatestMac(), chain.blocks)
      ensures |crashes| == |old(crashes)| + 1 && old(crashes) <= crashes
      ensures crashes[|old(crashes)|].moment == AfterEdits && crashes[|old(crashes)|].durable == committed
      ensures crashes[|old(crashes)|].live == used
    {
      hide Survives, Recovered, Latest, Accounts, Replay, Groups, Flatten;
      ghost var before := chain.blocks;
      chain.Append(buf);
      ghost var last := chain.blocks[|before|];
      assert chain.blocks == before + [last];
      AccountsAppend(base, before, buf, committed, last);
      ChainGrows(snapshots.LatestMac(), base, chain.blocks, committed);
      AppendedPlaced(chain.ring, chain.top, chain.start, snapshots.LatestMac(), chain.blocks);
      used := used + 1;
      buf, cursor := [], 0;
      ghost var crash := Crash(AfterEdits, Image(), chain.top, committed, base, used);
      EditsCrash(apply, init, crash, snapshots.latest, chain.blocks);
      Remember(crash);
    }

    /** Snapshot, version record, trim. Returns the number of blocks given up. */
    method Compact() returns (compacted: nat)
      requires Core() && buf == [] && used == |chain.blocks| >= 2 && VERSION_LEN <= capacity
      requires base < committed && Placed(chain.ring, chain.top, snapshots.LatestMac(), chain.blocks)
      modifies this`used, this`base, this`crashes, chain, snapshots
      ensures Core() && ExtendsWith(old(crashes), committed)
      ensures compacted <= used && used - compacted == |chain.blocks| == 1
      ensures base == committed && snapshots.latest == 1 - old(snapshots.latest)
      ensures |crashes| == |old(crashes)| + 3
      ensures crashes[|old(crashes)|].moment == TornSnapshot(1 - old(snapshots.latest)) && crashes[|old(crashes)|].base == old(base)
      ensures crashes[|old(crashes)| + 1].moment == AfterSnapshot && crashes[|old(crashes)| + 2].moment == AfterVersion
    {
      hide Survives, Recovered, Latest, Replay, Rising, Linked, InSlot, Placed;
      PersistSnapshot();
      AppendVersion();
      var len := |chain.macs|;
      if len > 1 { chain.Trim(chain.End() - 1); }
      compacted := len - |chain.macs|;
    }

    /** Between the snapshot write and the trim: the snapshot covers everything and tells recovery to
        start `ahead` blocks before the end of the chain. */
    ghost predicate Snapped(ahead: nat)
      reads this, chain, snapshots
    {
      && chain.Valid() && snapshots.Valid()
      && total == |chain.ring| && used == |chain.blocks| && buf == [] && cursor == 0
      && AllDated(chain.ring, snapshots.blobs)
      && snapshots.LatestMac().snapshot.state == state
      && snapshots.LatestMac().snapshot.recoverFrom + ahead == chain.End()
      && base == committed && state == Replay(apply, init, committed)
      && AllSurvive()
    }

    method PersistSnapshot()
      requires Core() && buf == [] && used == |chain.blocks| >= 2
      requires base < committed && Placed(chain.ring, chain.top, snapshots.LatestMac(), chain.blocks)
      modifies this`base, this`crashes, snapshots
      ensures Snapped(0) && snapshots.latest == 1 - old(snapshots.latest)
      ensures |crashes| == |old(crashes)| + 2 && ExtendsWith(old(crashes), committed)
      ensures crashes[|old(crashes)|].moment == TornSnapshot(1 - old(snapshots.latest)) && crashes[|old(crashes)|].base == old(base)
      ensures crashes[|old(crashes)| + 1].moment == AfterSnapshot
    {
      hide Survives, Recovered, Latest, Accounts, Replay, Groups, Flatten, Placed;
      ghost var d, latest := Image(), snapshots.latest;
      ghost var torn := Crash(TornSnapshot(1 - latest), d.(blobs := d.blobs[1 - latest := Unreadable]), chain.top, committed, base, used);
      TornCrash(apply, init, torn, d, latest, chain.blocks);
      Remember(torn);
      snapshots.Persist(Snapshot(state, chain.End()));
      base := committed;
      ghost var whole := Crash(AfterSnapshot, Image(), chain.top, committed, committed, used);
      FreshCrash(apply, init, whole, d, latest, Snapshot(state, chain.End()));
      Remember(whole);
    }

    method AppendVersion()
      requires Snapped(0)
      modifies this`used, this`crashes, chain
      ensures Snapped(1) && chain.start == old(chain.start) && |chain.blocks| == |old(chain.blocks)| + 1
      ensures chain.blocks[|chain.blocks| - 1].payload == [Version(snapshots.LatestMac())]
      ensures |crashes| == |old(crashes)| + 1 && ExtendsWith(old(crashes), committed)
      ensures crashes[|old(crashes)|].moment == AfterVersion
    {
      hide Survives, Recovered, Latest, Replay;
      chain.Append([Version(snapshots.LatestMac())]);
      used := used + 1;
      ghost var last := chain.blocks[|chain.blocks| - 1];
      assert InSlot(chain.ring, chain.start, |chain.blocks| - 1, last);
      assert InSlot(chain.ring, chain.End() - 1, 0, last);
      ghost var crash := Crash(AfterVersion, Image(), chain.top, committed, committed, 1);
      VersionCrash(apply, init, crash, snapshots.latest, last);
      Remember(crash);
    }

    /** With an empty buffer recovery returns the state. */
    lemma SettledRecovers()
      requires Valid() && buf == []
      ensures Recovered(apply, Image(), chain.top) == Some(state)
    {
      LatestNamed(snapshots.blobs, snapshots.latest);
      var m := snapshots.LatestMac();
      RecoversLive(apply, Image(), chain.top, m, chain.blocks);
      var gs := Groups(Flatten(chain.blocks[1..]));
      ReplayConcat(apply, init, base, gs);
      assert committed == base + gs;
    }

    /** All disk images since then were taken with exactly the groups `gs` in chain blocks. */
    ghost predicate ExtendsWith(before: seq<Crash<E, S>>, gs: seq<seq<E>>)
      reads this
    {
      before <= crashes && forall i :: |before| <= i < |crashes| ==> crashes[i].durable == gs
    }

    /** The images of a run: with two journal blocks or more, each keeps every group in a chain block unless a
        write to blob 0 was torn; with one block, no image behind a block of edits does. */
    lemma ImagesKeep(i: nat)
      requires Valid() && i < |crashes|
      ensures total >= 2 && crashes[i].moment != TornSnapshot(0) ==> Kept(crashes[i]) == crashes[i].durable
      ensures total == 1 && crashes[i].moment.AfterEdits? ==> Kept(crashes[i]) < crashes[i].durable
    {
      hide Survives, Core;
      SurvivorOf(i);
      KeptAll(apply, init, crashes[i]);
      Lagging(apply, init, crashes[i]);
    }

    lemma SurvivorOf(i: nat)
      requires Core() && i < |crashes|
      ensures Survives(apply, init, crashes[i]) && |crashes[i].disk.ring| == total
    {
      hide Survives, Live, Accounts, Alternating, AllDated;
    }
  }

  lemma Lagging<E, S>(apply: (S, E) -> S, init: S, c: Crash<E, S>)
    requires Survives(apply, init, c)
    ensures Lags(c)
  {
    hide Recovered, ChainFrom, Replay, Latest, Flatten;
  }

  /** Where a chain just appended to is. */
  lemma AppendedPlaced<E, S>(ring: Ring<E, S>, top: int, start: nat, m: BlobMac<S>, blocks: seq<ChainBlock<E, S>>)
    requires |ring| > 0 && Rising(ring, top) && Linked(blocks) && Climbing(blocks, top)
    requires forall i :: 0 <= i < |blocks| && |blocks| - i <= |ring| ==> InSlot(ring, start, i, blocks[i])
    requires start == m.snapshot.recoverFrom && Live(m, blocks) && 2 <= |blocks| && (|blocks| <= |ring| || |ring| == 1)
    ensures Placed(ring, top, m, blocks)
  {
    if |ring| == 1 {
      assert InSlot(ring, start, |blocks| - 1, blocks[|blocks| - 1]);
      assert ring == [Some(blocks[|blocks| - 1])];
    }
  }

  /** Adds some edits and commits them as one group: they reach the state in the order they were added. */
  method CommitEdits<E, S>(j: EditJournal<E, S>, es: seq<E>) returns (ok: bool)
    requires j.Valid() && (j.group.None? || j.group.value == [])
    modifies j, j.chain, j.snapshots
    ensures j.Valid() && j.group == None
    ensures ok <==> es == [] || 1 + j.groupLen(es) <= j.capacity
    ensures j.state == if ok then ApplyFrom(j.apply, old(j.state), es) else old(j.state)
  {
    hide Survives, EditJournal.Core;
    var i := 0;
    while i < |es|
      invariant 0 <= i <= |es| && j.Valid() && j.state == old(j.state)
      invariant (if j.group.Some? then j.group.value else []) == es[..i]
    {
      j.Add(es[i]);
      i := i + 1;
    }
    assert es[..i] == es;
    ok := j.Commit();
  }

  /** A run that meets the losing image: with two journal blocks, the second flush tears blob 0, and only
      the first of two flushed groups survives. */
  method TornBlobZero<E, S>(init: S, apply: (S, E) -> S, groupLen: seq<E> -> nat, capacity: nat, e: E, f: E)
    returns (j: EditJournal<E, S>, ghost i: nat)
    requires VERSION_LEN <= capacity && 1 + groupLen([e]) <= capacity && 1 + groupLen([f]) <= capacity
    ensures j.Valid() && j.init == init && j.apply == apply && i < |j.crashes|
    ensures j.crashes[i].moment == TornSnapshot(0) && j.crashes[i].durable == [[e], [f]] && Kept(j.crashes[i]) == [[e]]
    ensures Survives(apply, init, j.crashes[i])
  {
    hide Survives, EditJournal.Core;
    j := new EditJournal(2, init, apply, groupLen, capacity);
    CommitOne(j, e);
    i := |j.crashes| + 1;
    CommitOne(j, f);
    j.SurvivorOf(i);
  }

  /** A run in an area of one block: behind the flushed group's block of edits, the group does not survive. */
  method OneBlockLoss<E, S>(init: S, apply: (S, E) -> S, groupLen: seq<E> -> nat, capacity: nat, e: E)
    returns (j: EditJournal<E, S>, ghost i: nat)
    requires VERSION_LEN <= capacity && 1 + groupLen([e]) <= capacity
    ensures j.Valid() && j.init == init && j.apply == apply && i < |j.crashes|
    ensures j.crashes[i].moment.AfterEdits? && j.crashes[i].durable == [[e]] && Kept(j.crashes[i]) == []
    ensures Survives(apply, init, j.crashes[i])
  {
    hide Survives, EditJournal.Core;
    j := new EditJournal(1, init, apply, groupLen, capacity);
    i := |j.crashes|;
    CommitOne(j, e);
    j.SurvivorOf(i);
    j.ImagesKeep(i);
    assert [] + [[e]] == [[e]] && |Kept(j.crashes[i])| == 0;
  }

  /** Commits and flushes one group of one edit. */
  method CommitOne<E, S>(j: EditJournal<E, S>, e: E)
    requires j.Valid() && (j.group.None? || j.group.value == []) && j.cursor == 0 && 1 + j.groupLen([e]) <= j.capacity
    modifies j, j.chain, j.snapshots
    ensures j.Valid() && j.group == None && j.cursor == 0 && j.committed == old(j.committed) + [[e]]
    ensures j.Written(old(j.crashes), true, old(j.used) + 1 >= j.total, old(j.snapshots.latest), old(j.base))
    ensures j.ExtendsWith(old(j.crashes), j.committed)
  {
    hide Survives, EditJournal.Core;
    j.Add(e);
    assert [] + [e] == [e] && j.group == Some([e]);
    var ok := j.Commit();
    j.Flush();
  }
}
