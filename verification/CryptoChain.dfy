/** The chain of crypto_chain.rs on the ring of block_ring.rs. */
module CryptoChains {
  import opened Common
  import opened Arithmetic
  import opened JournalSpec

  class CryptoChain<E, S> {
    var ring: Ring<E, S>
    var start: nat
    var macs: seq<int>
    /** Source of fresh MACs. */
    var top: int
    /** The accessible blocks. */
    ghost var blocks: seq<ChainBlock<E, S>>

    /** The last blocks appended, as many as the ring has slots, are in their slots. */
    ghost predicate Valid()
      reads this
    {
      && |ring| > 0 && Rising(ring, top) && top >= 0
      && |macs| == |blocks| && (forall i :: 0 <= i < |macs| ==> macs[i] == blocks[i].mac)
      && Linked(blocks) && Climbing(blocks, top)
      && forall i :: 0 <= i < |blocks| && |blocks| - i <= |ring| ==> InSlot(ring, start, i, blocks[i])
    }

    constructor (nblocks: nat)
      requires nblocks > 0
      ensures Valid() && ring == seq(nblocks, _ => None) && start == 0 && blocks == [] && top == 0
    {
      ring, start, macs, top, blocks := seq(nblocks, _ => None), 0, [], 0, [];
    }

    function End(): nat
      reads this
    {
      start + |macs|
    }

    /** Writes one block, chained to the last one, over the slot at the end of the range. */
    method Append(payload: seq<Record<E, S>>)
      requires Valid()
      modifies this
      ensures Valid() && start == old(start) && top > old(top)
      ensures |blocks| == |old(blocks)| + 1 && blocks[..|old(blocks)|] == old(blocks)
      ensures blocks[|old(blocks)|].payload == payload && blocks[|old(blocks)|].mac == top
      ensures ring == old(ring)[old(End()) % |old(ring)| := Some(blocks[|old(blocks)|])]
    {
      hide Rising, Linked, Climbing, InSlot;
      var preMac := if |macs| == 0 then 0 else macs[|macs| - 1];
      top := top + 1;
      var b := ChainBlock(preMac, top, payload);
      AppendedInSlots(ring, start, blocks, b);
      AppendedLinks(ring, blocks, b, top - 1, End() % |ring|);
      ring := ring[End() % |ring| := Some(b)];
      macs := macs + [b.mac];
      blocks := blocks + [b];
    }

    /** Gives up the blocks before a position. */
    method Trim(before: nat)
      requires Valid() && before < End()
      modifies this`start, this`macs, this`blocks
      ensures Valid() && End() == old(End())
      ensures start == if before <= old(start) then old(start) else before
      ensures blocks == old(blocks)[start - old(start)..]
    {
      hide Rising, Linked, Climbing, InSlot;
      if before <= start {
        assert blocks[0..] == blocks;
        return;
      }
      var n := before - start;
      TrimmedChain(ring, start, blocks, top, n);
      start := before;
      macs := macs[n..];
      blocks := blocks[n..];
    }

    /** Reads a block and checks its MAC against the remembered one: an accessible position is readable
        exactly as long as it has not been overwritten by a later lap. */
    method Read(pos: nat) returns (r: Option<seq<Record<E, S>>>)
      requires Valid()
      ensures r == if start <= pos < End() && End() - pos <= |ring| then Some(blocks[pos - start].payload) else None
    {
      if !(start <= pos < End()) { return None; }
      SlotOf(ring, start, blocks, pos - start, top);
      var b := ring[pos % |ring|];
      if b.None? || b.value.mac != macs[pos - start] { return None; }
      r := Some(b.value.payload);
    }
  }

  /** MACs grow along the chain, up to the newest one. */
  ghost predicate Climbing<E, S>(blocks: seq<ChainBlock<E, S>>, top: int) {
    && (forall i, j :: 0 <= i < j < |blocks| ==> blocks[i].mac < blocks[j].mac)
    && (|blocks| > 0 ==> blocks[|blocks| - 1].mac == top && blocks[0].mac > 0)
  }

  lemma SameSlot(i: nat, n: nat)
    requires n > 0
    ensures (i + n) % n == i % n
  {
    assert i == i / n * n + i % n;
    assert (i / n + 1) * n == i / n * n + n;
    Remainder(i + n, i / n + 1, i % n, n);
  }

  lemma DifferentSlots(i: nat, j: nat, n: nat)
    requires n > 0 && i < j < i + n
    ensures i % n != j % n
  {
    var r, d := i % n, j - i;
    assert i == i / n * n + r;
    if r + d < n {
      Remainder(j, i / n, r + d, n);
    } else {
      assert (i / n + 1) * n == i / n * n + n;
      Remainder(j, i / n + 1, r + d - n, n);
    }
  }

  lemma AppendedInSlots<E, S>(ring: Ring<E, S>, start: nat, blocks: seq<ChainBlock<E, S>>, b: ChainBlock<E, S>)
    requires |ring| > 0
    requires forall i :: 0 <= i < |blocks| && |blocks| - i <= |ring| ==> InSlot(ring, start, i, blocks[i])
    ensures var r := ring[(start + |blocks|) % |ring| := Some(b)];
            var bs := blocks + [b];
            forall i :: 0 <= i < |bs| && |bs| - i <= |ring| ==> InSlot(r, start, i, bs[i])
  {
    var r := ring[(start + |blocks|) % |ring| := Some(b)];
    var bs := blocks + [b];
    forall i | 0 <= i < |bs| && |bs| - i <= |ring| ensures InSlot(r, start, i, bs[i]) {
      if i < |blocks| {
        assert InSlot(ring, start, i, blocks[i]);
        DifferentSlots(start + i, start + |blocks|, |ring|);
      }
    }
  }

  lemma TrimmedChain<E, S>(ring: Ring<E, S>, start: nat, blocks: seq<ChainBlock<E, S>>, top: int, n: nat)
    requires |ring| > 0 && n < |blocks| && Linked(blocks) && Climbing(blocks, top)
    requires forall i :: 0 <= i < |blocks| && |blocks| - i <= |ring| ==> InSlot(ring, start, i, blocks[i])
    ensures Linked(blocks[n..]) && Climbing(blocks[n..], top)
    ensures forall i :: 0 <= i < |blocks[n..]| && |blocks[n..]| - i <= |ring| ==> InSlot(ring, start + n, i, blocks[n..][i])
  {
    forall i | 0 <= i < |blocks[n..]| && |blocks[n..]| - i <= |ring| ensures InSlot(ring, start + n, i, blocks[n..][i]) {
      assert InSlot(ring, start, n + i, blocks[n + i]);
    }
  }

  lemma AppendedLinks<E, S>(ring: Ring<E, S>, blocks: seq<ChainBlock<E, S>>, b: ChainBlock<E, S>, top: int, slot: nat)
    requires 0 <= slot < |ring| && Rising(ring, top) && Linked(blocks) && Climbing(blocks, top) && top >= 0
    requires b.mac == top + 1 && b.preMac == if blocks == [] then 0 else blocks[|blocks| - 1].mac
    ensures Rising(ring[slot := Some(b)], top + 1)
    ensures Linked(blocks + [b]) && Climbing(blocks + [b], top + 1)
  {
  }

  /** The slot of block `i` holds the block of the latest lap. */
  lemma {:induction false} SlotOf<E, S>(ring: Ring<E, S>, start: nat, blocks: seq<ChainBlock<E, S>>, i: nat, top: int)
    requires |ring| > 0 && i < |blocks| && Climbing(blocks, top)
    requires forall j :: 0 <= j < |blocks| && |blocks| - j <= |ring| ==> InSlot(ring, start, j, blocks[j])
    ensures var b := ring[(start + i) % |ring|];
            && b.Some? && b.value.mac >= blocks[i].mac
            && (b.value.mac == blocks[i].mac <==> |blocks| - i <= |ring|)
            && (|blocks| - i <= |ring| ==> b.value == blocks[i])
    decreases |blocks| - i
  {
    if |blocks| - i <= |ring| {
      assert InSlot(ring, start, i, blocks[i]);
    } else {
      SlotOf(ring, start, blocks, i + |ring|, top);
      SameSlot(start + i, |ring|);
      assert blocks[i].mac < blocks[i + |ring|].mac;
    }
  }
}
