/** How the tree's values, the host disk and the block bitmap belong together: every value held
    anywhere in the tree owns one allocated host block, no two values share one, and no allocated
    block is without an owner. */
module Backing {
  import opened Common
  import opened Records
  import opened LsmTree
  import opened LsmInvariant
  import opened Columns
  import opened Levels
  import opened MajorCompaction
  import opened AllocTables

  ghost predicate Held(t: Tree, k: Key, v: Value) {
    LiveIn(t, k, v) > 0
  }

  /** The host block of a value still decrypts under the value's key and MAC. */
  predicate Readable(host: map<int, Cipher>, v: Value) {
    v.hba in host && Decrypt(host[v.hba], v.key, v.mac).Some?
  }

  /** `taken` are blocks of a flush in progress: allocated, written, not yet recorded in the tree. */
  ghost predicate Backed(t: Tree, host: map<int, Cipher>, bits: seq<bool>, taken: set<int>) {
    && (forall k, v :: Held(t, k, v) ==>
          LiveIn(t, k, v) == 1 && 0 <= v.hba < |bits| && !bits[v.hba] && v.hba !in taken && Readable(host, v))
    && (forall k, v, j, w :: Held(t, k, v) && Held(t, j, w) && v.hba == w.hba ==> k == j && v == w)
    && (forall h :: 0 <= h < |bits| && !bits[h] ==> h in taken || Owned(t, h))
    && (forall h :: h in taken ==> 0 <= h < |bits| && !bits[h])
  }

  ghost predicate Owned(t: Tree, h: int) {
    exists k, v :: Held(t, k, v) && v.hba == h
  }

  lemma NothingHeld(memCap: nat, sstCap: nat, nblocks: nat)
    ensures Backed(Format(memCap, sstCap), map[], seq(nblocks, _ => true), {})
  {
    forall k, v ensures !Held(Format(memCap, sstCap), k, v) { FormatColumn(memCap, sstCap, k); }
  }

  function Hbas(ds: seq<Drop>): (hs: seq<int>)
    ensures |hs| == |ds|
  {
    seq(|ds|, i requires 0 <= i < |ds| => ds[i].value.hba)
  }

  lemma {:induction false} DropCounted(ds: seq<Drop>, i: nat)
    requires i < |ds|
    ensures Drops(ds, ds[i].key, ds[i].value) >= 1
  {
    if i > 0 {
      assert ds[1..][i - 1] == ds[i];
      DropCounted(ds[1..], i - 1);
    }
  }

  lemma {:induction false} DropCountedTwice(ds: seq<Drop>, i: nat, j: nat)
    requires i < j < |ds| && ds[i] == ds[j]
    ensures Drops(ds, ds[i].key, ds[i].value) >= 2
  {
    if i > 0 {
      assert ds[1..][i - 1] == ds[i] && ds[1..][j - 1] == ds[j];
      DropCountedTwice(ds[1..], i - 1, j - 1);
    } else {
      assert ds[1..][j - 1] == ds[j];
      DropCounted(ds[1..], j - 1);
    }
  }

  lemma {:induction false} DropListed(ds: seq<Drop>, k: Key, v: Value)
    requires Drops(ds, k, v) > 0
    ensures v.hba in Hbas(ds)
  {
    if ds[0] == Drop(k, v) {
      assert Hbas(ds)[0] == v.hba;
    } else {
      DropListed(ds[1..], k, v);
      var n :| 0 <= n < |ds[1..]| && Hbas(ds[1..])[n] == v.hba;
      assert Hbas(ds)[n + 1] == v.hba;
    }
  }

  /** Nothing can be dropped that is neither held nor just added. */
  lemma DroppedWasHeld(t: Tree, t': Tree, ds: seq<Drop>, added: set<Drop>, k: Key, v: Value)
    requires Stepping(t, t', ds, added) && Drops(ds, k, v) > 0
    ensures Held(t, k, v) || Drop(k, v) in added
  {
    assert LiveIn(t', k, v) + Drops(ds, k, v) == LiveIn(t, k, v) + (if Drop(k, v) in added then 1 else 0);
  }

  /** At most one value comes on top, and its block was taken for it. */
  ghost predicate Addition(host: map<int, Cipher>, taken: set<int>, added: set<Drop>) {
    && (forall d :: d in added ==> d.value.hba in taken && Readable(host, d.value))
    && (forall d, e :: d in added && e in added ==> d == e)
  }

  lemma SingleAddition(host: map<int, Cipher>, taken: set<int>, d: Drop)
    requires d.value.hba in taken && Readable(host, d.value)
    ensures Addition(host, taken, {d}) && HbasOf({d}) == {d.value.hba}
  {
  }

  ghost function HbasOf(added: set<Drop>): set<int> {
    set d | d in added :: d.value.hba
  }

  lemma DroppedOnce(t: Tree, t': Tree, host: map<int, Cipher>, bits: seq<bool>, taken: set<int>, ds: seq<Drop>, added: set<Drop>, k: Key, v: Value)
    requires Backed(t, host, bits, taken) && Addition(host, taken, added)
    requires Stepping(t, t', ds, added)
    ensures LiveIn(t', k, v) + Drops(ds, k, v) <= 1
    ensures LiveIn(t', k, v) + Drops(ds, k, v) == 1 <==> Held(t, k, v) || Drop(k, v) in added
  {
    assert LiveIn(t', k, v) + Drops(ds, k, v) == LiveIn(t, k, v) + (if Drop(k, v) in added then 1 else 0);
    if Held(t, k, v) {
      assert v.hba !in taken;
      assert Drop(k, v) !in added;
    }
  }

  /** Different values, held or just added, have different blocks. */
  lemma OtherOwner(t: Tree, host: map<int, Cipher>, bits: seq<bool>, taken: set<int>, added: set<Drop>, a: Drop, b: Drop)
    requires Backed(t, host, bits, taken) && Addition(host, taken, added)
    requires Held(t, a.key, a.value) || a in added
    requires Held(t, b.key, b.value) || b in added
    requires a != b
    ensures a.value.hba != b.value.hba
  {
  }

  /** The dropped blocks are distinct and allocated, so each can be freed once. */
  lemma DropsFreeable(t: Tree, t': Tree, host: map<int, Cipher>, bits: seq<bool>, taken: set<int>, ds: seq<Drop>, added: set<Drop>)
    requires Backed(t, host, bits, taken) && Addition(host, taken, added)
    requires Stepping(t, t', ds, added)
    ensures Distinct(bits, Hbas(ds), false)
  {
    var hs := Hbas(ds);
    forall i | 0 <= i < |hs| ensures 0 <= hs[i] < |bits| && bits[hs[i]] == false {
      DropCounted(ds, i);
      DroppedWasHeld(t, t', ds, added, ds[i].key, ds[i].value);
    }
    forall i, j | 0 <= i < j < |hs| ensures hs[i] != hs[j] {
      DropCounted(ds, i);
      DropCounted(ds, j);
      DroppedWasHeld(t, t', ds, added, ds[i].key, ds[i].value);
      DroppedWasHeld(t, t', ds, added, ds[j].key, ds[j].value);
      DroppedOnce(t, t', host, bits, taken, ds, added, ds[i].key, ds[i].value);
      if ds[i] == ds[j] {
        DropCountedTwice(ds, i, j);
      } else {
        OtherOwner(t, host, bits, taken, added, ds[i], ds[j]);
      }
    }
  }

  /** Recording a flushed block, if any, and freeing what was dropped keeps everything owned once. */
  lemma StepBacked(t: Tree, t': Tree, host: map<int, Cipher>, bits: seq<bool>, taken: set<int>, ds: seq<Drop>, added: set<Drop>)
    requires Backed(t, host, bits, taken) && Addition(host, taken, added)
    requires Stepping(t, t', ds, added)
    ensures Backed(t', host, SetAll(bits, Hbas(ds), true), taken - HbasOf(added))
  {
    var hs := Hbas(ds);
    var bits', taken' := SetAll(bits, hs, true), taken - HbasOf(added);
    forall j, w | Held(t', j, w)
      ensures (Held(t, j, w) || Drop(j, w) in added) && LiveIn(t', j, w) == 1
      ensures 0 <= w.hba < |bits'| && !bits'[w.hba] && w.hba !in taken' && Readable(host, w)
    {
      StillHeld(t, t', host, bits, taken, ds, added, j, w);
    }
    forall j, w, j', w' | Held(t', j, w) && Held(t', j', w') && w.hba == w'.hba ensures j == j' && w == w' {
      if Drop(j, w) != Drop(j', w') { OtherOwner(t, host, bits, taken, added, Drop(j, w), Drop(j', w')); }
    }
    forall h | 0 <= h < |bits'| && !bits'[h] ensures h in taken' || Owned(t', h) {
      SetAllAt(bits, hs, true, h);
      StillOwned(t, t', host, bits, taken, ds, added, h);
    }
    forall h | h in taken' ensures 0 <= h < |bits'| && !bits'[h] {
      SetAllAt(bits, hs, true, h);
      if h in hs { TakenNotDropped(t, t', host, bits, taken, ds, added, h); }
    }
  }

  lemma StillHeld(t: Tree, t': Tree, host: map<int, Cipher>, bits: seq<bool>, taken: set<int>, ds: seq<Drop>, added: set<Drop>, j: Key, w: Value)
    requires Backed(t, host, bits, taken) && Addition(host, taken, added)
    requires Stepping(t, t', ds, added)
    requires Held(t', j, w)
    ensures (Held(t, j, w) || Drop(j, w) in added) && LiveIn(t', j, w) == 1
    ensures 0 <= w.hba < |bits| && !SetAll(bits, Hbas(ds), true)[w.hba]
    ensures w.hba !in taken - HbasOf(added) && Readable(host, w)
  {
    DroppedOnce(t, t', host, bits, taken, ds, added, j, w);
    SetAllAt(bits, Hbas(ds), true, w.hba);
    forall i | 0 <= i < |ds| ensures ds[i].value.hba != w.hba {
      DropCounted(ds, i);
      DroppedWasHeld(t, t', ds, added, ds[i].key, ds[i].value);
      if ds[i] != Drop(j, w) { OtherOwner(t, host, bits, taken, added, ds[i], Drop(j, w)); }
    }
    if Drop(j, w) in added { assert w.hba in HbasOf(added); }
  }

  lemma StillOwned(t: Tree, t': Tree, host: map<int, Cipher>, bits: seq<bool>, taken: set<int>, ds: seq<Drop>, added: set<Drop>, h: int)
    requires Backed(t, host, bits, taken) && Addition(host, taken, added)
    requires Stepping(t, t', ds, added)
    requires 0 <= h < |bits| && !bits[h] && h !in Hbas(ds)
    ensures h in taken - HbasOf(added) || Owned(t', h)
  {
    if h !in taken - HbasOf(added) {
      var j, w := Owner(t, taken, added, h);
      DroppedOnce(t, t', host, bits, taken, ds, added, j, w);
      if Drops(ds, j, w) > 0 { DropListed(ds, j, w); }
      assert Held(t', j, w);
    }
  }

  lemma Owner(t: Tree, taken: set<int>, added: set<Drop>, h: int) returns (j: Key, w: Value)
    requires h in taken || Owned(t, h)
    requires h !in taken - HbasOf(added)
    ensures w.hba == h && (Held(t, j, w) || Drop(j, w) in added)
  {
    if h in taken {
      var d :| d in added && d.value.hba == h;
      j, w := d.key, d.value;
    } else {
      j, w :| Held(t, j, w) && w.hba == h;
    }
  }

  lemma TakenNotDropped(t: Tree, t': Tree, host: map<int, Cipher>, bits: seq<bool>, taken: set<int>, ds: seq<Drop>, added: set<Drop>, h: int)
    requires Backed(t, host, bits, taken) && Addition(host, taken, added)
    requires Stepping(t, t', ds, added)
    requires h in Hbas(ds)
    ensures h !in taken - HbasOf(added)
  {
    var i :| 0 <= i < |ds| && Hbas(ds)[i] == h;
    DropCounted(ds, i);
    DroppedWasHeld(t, t', ds, added, ds[i].key, ds[i].value);
    if ds[i] in added { assert h in HbasOf(added); }
  }

  // ---- Contents --------------------------------------------------------------------------------------

  /** The latest value of a key is held. */
  lemma LatestHeld(t: Tree, k: Key)
    requires Latest(t, k).Some?
    ensures Held(t, k, Latest(t, k).value)
  {
    var col := Column(t, k);
    assert Uses(col[0].v, Newest(col[0].v)) >= 1;
  }

  /** What a read through the tree and the host disk returns. */
  ghost function Stored(t: Tree, host: map<int, Cipher>, k: Key): Option<Block> {
    var l := Latest(t, k);
    if l.Some? && l.value.hba in host then Decrypt(host[l.value.hba], l.value.key, l.value.mac) else None
  }

  /** The disk as a reader sees it: buffered blocks over stored ones. */
  ghost predicate Shows(t: Tree, host: map<int, Cipher>, buf: map<Key, Block>, content: map<Key, Block>) {
    forall k :: (if k in buf then Some(buf[k]) else Stored(t, host, k))
                == (if k in content then Some(content[k]) else None)
  }
}
