/** Bit searches of bitmap.rs over a sequence of bits, and the host-block allocator of
    block_alloc.rs. A one bit marks a free block. */
module AllocTables {
  import opened Common

  // ---- Bits ------------------------------------------------------------------------------------------

  /** The number of one bits from index `i` on. */
  function OnesFrom(bits: seq<bool>, i: nat): nat
    decreases |bits| - i
  {
    if i >= |bits| then 0 else (if bits[i] then 1 else 0) + OnesFrom(bits, i + 1)
  }

  lemma {:induction false} OnesBound(bits: seq<bool>, i: nat)
    requires i <= |bits|
    ensures OnesFrom(bits, i) <= |bits| - i
    decreases |bits| - i
  {
    if i < |bits| { OnesBound(bits, i + 1); }
  }

  lemma {:induction false} OnesSkip(bits: seq<bool>, i: nat, j: nat)
    requires i <= j <= |bits|
    requires forall n :: i <= n < j ==> !bits[n]
    ensures OnesFrom(bits, i) == OnesFrom(bits, j)
    decreases j - i
  {
    if i < j { OnesSkip(bits, i + 1, j); }
  }

  lemma {:induction false} OnesUpdate(bits: seq<bool>, i: nat, n: nat, b: bool)
    requires n < |bits| && bits[n] != b
    ensures OnesFrom(bits[n := b], i) ==
            if i <= n then OnesFrom(bits, i) + (if b then 1 else -1) else OnesFrom(bits, i)
    decreases |bits| - i
  {
    if i < |bits| { OnesUpdate(bits, i + 1, n, b); }
  }

  /** `BitMap::first_one`. */
  method FirstOne(bits: seq<bool>, from: nat) returns (r: Option<int>)
    requires from < |bits|
    ensures r.None? <==> OnesFrom(bits, from) == 0
    ensures r.Some? ==> from <= r.value < |bits| && bits[r.value]
                        && (forall n :: from <= n < r.value ==> !bits[n])
                        && OnesFrom(bits, r.value) == OnesFrom(bits, from)
  {
    var i := from;
    while i < |bits|
      invariant from <= i <= |bits|
      invariant forall n :: from <= n < i ==> !bits[n]
    {
      if bits[i] {
        OnesSkip(bits, from, i);
        return Some(i);
      }
      i := i + 1;
    }
    OnesSkip(bits, from, i);
    r := None;
  }

  /** Strictly increasing indices of one bits at or above `from`. */
  ghost predicate OnesList(bits: seq<bool>, from: nat, r: seq<int>) {
    && (forall i :: 0 <= i < |r| ==> from <= r[i] < |bits| && bits[r[i]])
    && (forall i, j :: 0 <= i < j < |r| ==> r[i] < r[j])
  }

  /** `BitMap::first_ones`: the first `count` of them; the index check of the source is the
      precondition. */
  method FirstOnes(bits: seq<bool>, from: nat, count: nat) returns (r: Option<seq<int>>)
    requires count > 0 && from + count - 1 < |bits|
    ensures r.None? <==> OnesFrom(bits, from) < count
    ensures r.Some? ==> |r.value| == count && OnesList(bits, from, r.value)
    ensures r.Some? ==> forall n :: from <= n <= r.value[count - 1] && bits[n] ==> n in r.value
  {
    var acc: seq<int> := [];
    var i := from;
    while i < |bits| && |acc| < count
      invariant from <= i <= |bits| && |acc| <= count
      invariant OnesList(bits, from, acc)
      invariant forall n :: 0 <= n < |acc| ==> acc[n] < i
      invariant forall n :: from <= n < i && bits[n] ==> n in acc
      invariant OnesFrom(bits, from) == |acc| + OnesFrom(bits, i)
    {
      if bits[i] { acc := acc + [i]; }
      i := i + 1;
    }
    if |acc| == count { r := Some(acc); } else { r := None; }
  }

  /** Bits with the listed blocks set to `b`. */
  function SetAll(bits: seq<bool>, hs: seq<int>, b: bool): (r: seq<bool>)
    ensures |r| == |bits|
  {
    if hs == [] then bits
    else
      var r := SetAll(bits, hs[..|hs| - 1], b);
      var h := hs[|hs| - 1];
      if 0 <= h < |bits| then r[h := b] else r
  }

  lemma {:induction false} SetAllAt(bits: seq<bool>, hs: seq<int>, b: bool, n: int)
    requires 0 <= n < |bits|
    ensures SetAll(bits, hs, b)[n] == if n in hs then b else bits[n]
  {
    if hs != [] {
      SetAllAt(bits, hs[..|hs| - 1], b, n);
      assert hs == hs[..|hs| - 1] + [hs[|hs| - 1]];
    }
  }

  /** Distinct blocks, all with the bit `b`. */
  ghost predicate Distinct(bits: seq<bool>, hs: seq<int>, b: bool) {
    && (forall i :: 0 <= i < |hs| ==> 0 <= hs[i] < |bits| && bits[hs[i]] == b)
    && (forall i, j :: 0 <= i < j < |hs| ==> hs[i] != hs[j])
  }

  lemma {:induction false} SetAllCount(bits: seq<bool>, hs: seq<int>, b: bool)
    requires Distinct(bits, hs, !b)
    ensures OnesFrom(SetAll(bits, hs, b), 0) == OnesFrom(bits, 0) + (if b then |hs| else -|hs|)
  {
    if hs != [] {
      var init, h := hs[..|hs| - 1], hs[|hs| - 1];
      SetAllCount(bits, init, b);
      SetAllAt(bits, init, b, h);
      assert h !in init;
      OnesUpdate(SetAll(bits, init, b), 0, h, b);
    }
  }

  lemma {:induction false} OnesRepeat(n: nat, i: nat)
    requires i <= n
    ensures OnesFrom(seq(n, _ => true), i) == n - i
    decreases n - i
  {
    if i < n { OnesRepeat(n, i + 1); }
  }

  // ---- The allocator ---------------------------------------------------------------------------------

  /** The blocks are the first free ones from the hint on, or, if there are too few, the first of all. */
  ghost predicate NextFit(bits: seq<bool>, hint: nat, hbas: seq<int>) {
    && hbas != []
    && var from := if OnesFrom(bits, hint) >= |hbas| then hint else 0;
       forall n :: 0 <= n < |bits| && n <= hbas[|hbas| - 1] ==> (n in hbas <==> n >= from && bits[n])
  }

  class AllocTable {
    var bits: seq<bool>
    var nextAvail: nat
    var numFree: nat

    /** `num_free` is the number of free bits. */
    ghost predicate Valid()
      reads this
    {
      |bits| > 0 && nextAvail <= |bits| && numFree == OnesFrom(bits, 0)
    }

    constructor (nblocks: nat)
      requires nblocks > 0
      ensures Valid() && bits == seq(nblocks, _ => true) && numFree == nblocks && nextAvail == 0
    {
      bits, nextAvail, numFree := seq(nblocks, _ => true), 0, nblocks;
      OnesRepeat(nblocks, 0);
    }

    /** `alloc_batch` once enough blocks are free: the search never fails and never indexes beyond
        the bitmap, and the blocks returned are distinct and were free. */
    method AllocBatch(count: nat) returns (hbas: seq<int>)
      requires Valid() && 0 < count <= numFree
      modifies this
      ensures Valid() && |hbas| == count
      ensures Distinct(old(bits), hbas, true)
      ensures bits == SetAll(old(bits), hbas, false)
      ensures numFree == old(numFree) - count && nextAvail == hbas[count - 1] + 1
      ensures NextFit(old(bits), old(nextAvail), hbas)
    {
      hbas := FindBatch(count);
      SetAllCount(bits, hbas, false);
      TakeAll(hbas);
      nextAvail := hbas[|hbas| - 1] + 1;
      numFree := numFree - count;
    }

    /** The search of `do_alloc_batch`: from the hint on, and from the first free block if the hint
        leaves too little. */
    method FindBatch(count: nat) returns (hbas: seq<int>)
      requires Valid() && 0 < count <= numFree
      ensures |hbas| == count && OnesList(bits, 0, hbas) && NextFit(bits, nextAvail, hbas)
    {
      OnesBound(bits, 0);
      OnesBound(bits, nextAvail);
      var next := nextAvail;
      if next + count > |bits| {
        next := FirstFree();
        OnesBound(bits, next);
      }
      var found := FirstOnes(bits, next, count);
      if found.None? {
        next := FirstFree();
        OnesBound(bits, next);
        found := FirstOnes(bits, next, count);
      }
      hbas := found.value;
      forall n | 0 <= n < |bits| && n <= hbas[count - 1] ensures n in hbas <==> n >= next && bits[n] {
        if n in hbas { var i :| 0 <= i < count && hbas[i] == n; }
      }
    }

    method TakeAll(hbas: seq<int>)
      requires forall i :: 0 <= i < |hbas| ==> 0 <= hbas[i] < |bits|
      modifies this`bits
      ensures bits == SetAll(old(bits), hbas, false)
    {
      ghost var was := bits;
      var i := 0;
      while i < |hbas|
        invariant 0 <= i <= |hbas|
        invariant bits == SetAll(was, hbas[..i], false)
      {
        assert hbas[..i + 1][..i] == hbas[..i];
        bits := bits[hbas[i] := false];
        i := i + 1;
      }
      assert hbas[..|hbas|] == hbas;
    }

    method FirstFree() returns (h: nat)
      requires Valid() && numFree > 0
      ensures h < |bits| && OnesFrom(bits, h) == OnesFrom(bits, 0) && forall n :: 0 <= n < h ==> !bits[n]
    {
      var r := FirstOne(bits, 0);
      h := r.value;
    }

    /** `set_deallocated`. */
    method Free(h: int)
      requires Valid() && 0 <= h < |bits| && !bits[h]
      modifies this
      ensures Valid() && bits == old(bits)[h := true] && numFree == old(numFree) + 1 && nextAvail == old(nextAvail)
    {
      OnesUpdate(bits, 0, h, true);
      bits, numFree := bits[h := true], numFree + 1;
    }

    /** Frees a list of blocks, as the drop callbacks of one operation do. */
    method FreeAll(hs: seq<int>)
      requires Valid() && Distinct(bits, hs, false)
      modifies this
      ensures Valid() && bits == SetAll(old(bits), hs, true) && numFree == old(numFree) + |hs| && nextAvail == old(nextAvail)
    {
      ghost var was := bits;
      var i := 0;
      while i < |hs|
        invariant 0 <= i <= |hs|
        invariant Valid() && bits == SetAll(was, hs[..i], true)
        invariant numFree == old(numFree) + i && nextAvail == old(nextAvail)
      {
        SetAllAt(was, hs[..i], true, hs[i]);
        assert hs[..i + 1][..i] == hs[..i];
        Free(hs[i]);
        i := i + 1;
      }
      assert hs[..|hs|] == hs;
    }
  }
}
