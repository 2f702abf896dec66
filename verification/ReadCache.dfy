/** The read cache of read_cache.rs: slots with an array-linked recency ring. Slot 0 doubles as the
    ring's head. */
module ReadCaches {
  import opened Common
  import opened Records

  datatype Slot = Empty | Used(key: Key, data: Block)

  /** What the first slot at or after `i` with key `k` holds. */
  function CachedFrom(slots: seq<Slot>, i: nat, k: Key): Option<Block>
    decreases |slots| - i
  {
    if i >= |slots| then None
    else if slots[i].Used? && slots[i].key == k then Some(slots[i].data)
    else CachedFrom(slots, i + 1, k)
  }

  function Cached(slots: seq<Slot>, k: Key): Option<Block> {
    CachedFrom(slots, 0, k)
  }

  ghost predicate OneSlotPerKey(slots: seq<Slot>) {
    forall i, j :: 0 <= i < j < |slots| && slots[i].Used? && slots[j].Used? ==> slots[i].key != slots[j].key
  }

  lemma {:induction false} CachedAt(slots: seq<Slot>, i: nat, n: nat)
    requires OneSlotPerKey(slots) && i <= n < |slots| && slots[n].Used?
    ensures CachedFrom(slots, i, slots[n].key) == Some(slots[n].data)
    decreases n - i
  {
    if i < n { CachedAt(slots, i + 1, n); }
  }

  lemma {:induction false} CachedNone(slots: seq<Slot>, i: nat, k: Key)
    requires forall n :: i <= n < |slots| ==> slots[n].Empty? || slots[n].key != k
    ensures CachedFrom(slots, i, k) == None
    decreases |slots| - i
  {
    if i < |slots| { CachedNone(slots, i + 1, k); }
  }

  /** Overwriting one slot affects only the key it held and the key it gets. */
  lemma {:induction false} CachedUpdate(slots: seq<Slot>, n: nat, s: Slot, i: nat, k: Key)
    requires n < |slots| && s.Used? && k != s.key
    ensures CachedFrom(slots[n := s], i, k) == CachedFrom(slots, i, k)
            || (slots[n].Used? && slots[n].key == k && OneSlotPerKey(slots) && CachedFrom(slots[n := s], i, k) == None)
            || !OneSlotPerKey(slots)
    decreases |slots| - i
  {
    if i < |slots| {
      if i == n && slots[n].Used? && slots[n].key == k && OneSlotPerKey(slots) {
        CachedNone(slots[n := s], i + 1, k);
      } else {
        CachedUpdate(slots, n, s, i + 1, k);
      }
    }
  }

  // ---- Recency ------------------------------------------------------------------------------------------

  /** Every slot once, slot 0 first. */
  ghost predicate Order(order: seq<int>, n: nat) {
    && |order| == n > 0 && order[0] == 0
    && (forall i :: 0 <= i < n ==> 0 <= order[i] < n)
    && (forall i, j :: 0 <= i < j < n ==> order[i] != order[j])
    && (forall x :: 0 <= x < n ==> x in order)
  }

  /** The links run along the order and back to slot 0. */
  ghost predicate Ring(prev: seq<int>, next: seq<int>, order: seq<int>) {
    && |prev| == |next| && Order(order, |prev|)
    && (forall i :: 0 <= i < |order| - 1 ==> next[order[i]] == order[i + 1] && prev[order[i + 1]] == order[i])
    && next[order[|order| - 1]] == 0 && prev[0] == order[|order| - 1]
  }

  function IndexOf(order: seq<int>, id: int): (r: nat)
    requires id in order
    ensures r < |order| && order[r] == id
  {
    if order[0] == id then 0 else 1 + IndexOf(order[1..], id)
  }

  /** Slot `id` comes right behind slot 0; slot 0 stays where it is. */
  function Touch(order: seq<int>, id: int): seq<int>
    requires order != [] && id in order
  {
    if id == order[0] then order
    else
      var m := IndexOf(order, id);
      [order[0], id] + order[1..m] + order[m + 1..]
  }

  lemma TouchOrder(order: seq<int>, n: nat, id: int)
    requires Order(order, n) && 0 <= id < n
    ensures Order(Touch(order, id), n)
  {
    if id != 0 {
      var m, r := IndexOf(order, id), Touch(order, id);
      assert r[0] == 0 && r[1] == id;
      assert forall j :: 2 <= j <= m ==> r[j] == order[j - 1];
      assert forall j :: m < j < n ==> r[j] == order[j];
      forall x | 0 <= x < n ensures x in r {
        var j := IndexOf(order, x);
        assert j == 0 ==> r[0] == x;
        assert j == m ==> r[1] == x;
        assert 0 < j < m ==> r[j + 1] == x;
        assert j > m ==> r[j] == x;
      }
    }
  }

  lemma Neighbours(prev: seq<int>, next: seq<int>, order: seq<int>, m: nat)
    requires Ring(prev, next, order) && m < |order|
    ensures 0 <= order[m] < |prev|
    ensures next[order[m]] == order[if m < |order| - 1 then m + 1 else 0]
    ensures prev[order[m]] == order[if m > 0 then m - 1 else |order| - 1]
  {
    if m > 0 { assert prev[order[m - 1 + 1]] == order[m - 1]; }
  }

  /** `LRU::visit` for a slot other than the head: unlink, then link in behind the head. */
  method MoveToHead(prev: seq<int>, next: seq<int>, id: int, ghost order: seq<int>) returns (p: seq<int>, n: seq<int>)
    requires Ring(prev, next, order) && 0 < id < |prev|
    ensures Ring(p, n, Touch(order, id)) && |p| == |prev|
  {
    ghost var m := IndexOf(order, id);
    Neighbours(prev, next, order, m);
    Neighbours(prev, next, order, 0);
    TouchOrder(order, |prev|, id);
    hide IndexOf;
    var before, after := prev[id], next[id];
    p, n := prev[after := before], next[before := after];
    var head := n[0];
    p, n := p[id := 0][head := id], n[id := head][0 := id];
    if m > 1 {
      assert before != 0 && head == order[1];
      Relinked(prev, next, order, m, p, n);
    } else {
      assert p == prev && n == next && Touch(order, id) == order;
    }
  }

  /** Unlinking the slot at position `m` and linking it in at position 1. */
  lemma Relinked(prev: seq<int>, next: seq<int>, order: seq<int>, m: nat, p: seq<int>, n: seq<int>)
    requires Ring(prev, next, order) && 1 < m < |order| && IndexOf(order, order[m]) == m
    requires Order(Touch(order, order[m]), |prev|)
    requires var id, after := order[m], order[if m < |order| - 1 then m + 1 else 0];
             p == prev[after := order[m - 1]][id := 0][order[1] := id] && n == next[order[m - 1] := after][id := order[1]][0 := id]
    ensures Ring(p, n, Touch(order, order[m]))
  {
    hide IndexOf, Touch;
    var r, last := Touch(order, order[m]), |order| - 1;
    Apart(order, |prev|, m, 0);
    forall i | 0 <= i <= last ensures |r| == |order| && r[i] == order[Source(m, i)] { TouchAt(order, m, i); }
    forall i | 0 <= i < last ensures n[r[i]] == r[i + 1] && p[r[i + 1]] == r[i] {
      RelinkedNext(prev, next, order, m, i);
      RelinkedPrev(prev, next, order, m, i);
    }
    RelinkedNext(prev, next, order, m, last);
    RelinkedPrev(prev, next, order, m, last);
  }

  /** Where the slot at position `i` came from when the one at position `m` moved up. */
  function Source(m: nat, i: nat): nat {
    if i == 0 then 0 else if i == 1 then m else if i <= m then i - 1 else i
  }

  lemma TouchAt(order: seq<int>, m: nat, i: nat)
    requires 0 < m < |order| && IndexOf(order, order[m]) == m && order[m] != order[0] && i < |order|
    ensures |Touch(order, order[m])| == |order| && Touch(order, order[m])[i] == order[Source(m, i)]
  {
    hide IndexOf;
  }

  lemma OrderSize(order: seq<int>, n: nat)
    requires Order(order, n)
    ensures |order| == n && order[0] == 0
  {
  }

  lemma Apart(order: seq<int>, n: nat, i: nat, j: nat)
    requires Order(order, n) && i < n && j < n && i != j
    ensures |order| == n && order[i] != order[j] && order[0] == 0 && 0 <= order[i] < n && 0 <= order[j] < n
  {
  }

  lemma RelinkedNext(prev: seq<int>, next: seq<int>, order: seq<int>, m: nat, i: nat)
    requires Ring(prev, next, order) && 1 < m < |order| && i < |order|
    ensures var after, j := order[if m < |order| - 1 then m + 1 else 0], if i < |order| - 1 then i + 1 else 0;
            next[order[m - 1] := after][order[m] := order[1]][0 := order[m]][order[Source(m, i)]] == order[Source(m, j)]
  {
    hide Ring, Order;
    RingOrder(prev, next, order);
    var size, a := |order|, Source(m, i);
    Apart(order, size, m, 0);
    Apart(order, size, m - 1, m);
    Apart(order, size, 1, m);
    if a != 0 { Apart(order, size, a, 0); }
    if a != m { Apart(order, size, a, m); }
    if a != m - 1 { Apart(order, size, a, m - 1); }
    Neighbours(prev, next, order, a);
  }

  lemma RelinkedPrev(prev: seq<int>, next: seq<int>, order: seq<int>, m: nat, i: nat)
    requires Ring(prev, next, order) && 1 < m < |order| && i < |order|
    ensures var after, j := order[if m < |order| - 1 then m + 1 else 0], if i < |order| - 1 then i + 1 else 0;
            prev[after := order[m - 1]][order[m] := 0][order[1] := order[m]][order[Source(m, j)]] == order[Source(m, i)]
  {
    hide Ring, Order;
    RingOrder(prev, next, order);
    var size, b := |order|, Source(m, if i < |order| - 1 then i + 1 else 0);
    var c := if m < size - 1 then m + 1 else 0;
    Apart(order, size, m, 0);
    Apart(order, size, m, 1);
    if b != c { Apart(order, size, b, c); }
    if b != m { Apart(order, size, b, m); }
    if b != 1 { Apart(order, size, b, 1); }
    Neighbours(prev, next, order, b);
  }

  lemma RingOrder(prev: seq<int>, next: seq<int>, order: seq<int>)
    requires Ring(prev, next, order)
    ensures |prev| == |next| == |order| && Order(order, |prev|)
  {
  }

  lemma FirstOrder(n: nat)
    requires n > 0
    ensures Order(seq(n, i => i), n)
  {
    var order := seq(n, i => i);
    forall x | 0 <= x < n ensures x in order { assert order[x] == x; }
  }

  /** The order after a history of visits. */
  ghost function Visited(n: nat, vs: seq<int>): (order: seq<int>)
    requires n > 0 && forall i :: 0 <= i < |vs| ==> 0 <= vs[i] < n
    ensures Order(order, n)
  {
    if vs == [] then
      FirstOrder(n);
      seq(n, i => i)
    else
      TouchOrder(Visited(n, vs[..|vs| - 1]), n, vs[|vs| - 1]);
      Touch(Visited(n, vs[..|vs| - 1]), vs[|vs| - 1])
  }

  lemma VisitedNext(n: nat, vs: seq<int>, id: int)
    requires n > 0 && (forall i :: 0 <= i < |vs| ==> 0 <= vs[i] < n) && 0 <= id < n
    ensures id in Visited(n, vs) && Visited(n, vs + [id]) == Touch(Visited(n, vs), id)
    ensures id == 0 ==> Visited(n, vs + [id]) == Visited(n, vs)
  {
    assert (vs + [id])[..|vs|] == vs;
  }

  /** When a slot was last visited; -1 if never. */
  function LastVisit(vs: seq<int>, id: int): int {
    if vs == [] then -1 else if vs[|vs| - 1] == id then |vs| - 1 else LastVisit(vs[..|vs| - 1], id)
  }

  lemma {:induction false} LastVisitBound(vs: seq<int>, id: int)
    ensures -1 <= LastVisit(vs, id) < |vs|
  {
    if vs != [] { LastVisitBound(vs[..|vs| - 1], id); }
  }

  lemma LastVisitNext(vs: seq<int>, id: int, x: int)
    ensures LastVisit(vs + [id], x) == if x == id then |vs| else LastVisit(vs, x)
  {
    assert (vs + [id])[..|vs|] == vs;
  }

  lemma TouchRecent(order: seq<int>, n: nat, vs: seq<int>, id: int, i: nat, j: nat)
    requires Order(order, n) && 0 < id < n && 1 <= i < j < n
    requires var m := IndexOf(order, id);
             i > 1 ==> LastVisit(vs, order[Source(m, i)]) >= LastVisit(vs, order[Source(m, j)])
    ensures var r := Touch(order, id); |r| == n && LastVisit(vs + [id], r[i]) >= LastVisit(vs + [id], r[j])
  {
    hide Touch, IndexOf, Order, LastVisit;
    var m, r := IndexOf(order, id), Touch(order, id);
    OrderSize(order, n);
    TouchAt(order, m, i);
    TouchAt(order, m, j);
    LastVisitNext(vs, id, r[i]);
    LastVisitNext(vs, id, r[j]);
    LastVisitBound(vs, r[j]);
    Apart(order, n, Source(m, j), m);
  }

  /** Behind slot 0 the slots are ordered by their last visit. */
  lemma {:induction false} RecentFirst(n: nat, vs: seq<int>, i: nat, j: nat)
    requires n > 0 && (forall x :: 0 <= x < |vs| ==> 0 <= vs[x] < n) && 1 <= i < j < n
    ensures LastVisit(vs, Visited(n, vs)[i]) >= LastVisit(vs, Visited(n, vs)[j])
    decreases |vs|
  {
    if vs != [] {
      hide Touch, IndexOf, Order, LastVisit, Visited;
      var init, id := vs[..|vs| - 1], vs[|vs| - 1];
      assert init + [id] == vs;
      VisitedNext(n, init, id);
      var order := Visited(n, init);
      OrderSize(order, n);
      if id == 0 {
        RecentFirst(n, init, i, j);
        Apart(order, n, i, 0);
        Apart(order, n, j, 0);
        LastVisitNext(init, 0, order[i]);
        LastVisitNext(init, 0, order[j]);
      } else {
        var m := IndexOf(order, id);
        if i > 1 { RecentFirst(n, init, Source(m, i), Source(m, j)); }
        TouchRecent(order, n, init, id, i, j);
      }
    }
  }

  /** Used slots come first, one per key. */
  ghost predicate SlotsOk(slots: seq<Slot>, size: nat) {
    && size <= |slots| && OneSlotPerKey(slots)
    && forall i :: 0 <= i < |slots| ==> (slots[i].Used? <==> i < size)
  }

  lemma PutSlot(slots: seq<Slot>, size: nat, n: nat, k: Key, data: Block)
    requires SlotsOk(slots, size) && n < |slots| && n <= size
    requires forall i :: 0 <= i < |slots| && i != n && slots[i].Used? ==> slots[i].key != k
    ensures SlotsOk(slots[n := Used(k, data)], if n == size then size + 1 else size)
    ensures Cached(slots[n := Used(k, data)], k) == Some(data)
    ensures forall j :: j != k ==> Cached(slots[n := Used(k, data)], j) == Cached(slots, j)
                                   || Cached(slots[n := Used(k, data)], j) == None
    ensures forall j :: j != k && Cached(slots[n := Used(k, data)], j) != Cached(slots, j) ==>
              slots[n].Used? && Cached(slots, j) == Some(slots[n].data) && slots[n].key == j
  {
    var r := slots[n := Used(k, data)];
    CachedAt(r, 0, n);
    forall j | j != k
      ensures Cached(r, j) == Cached(slots, j) || (Cached(r, j) == None && slots[n].Used? && slots[n].key == j)
    {
      CachedUpdate(slots, n, Used(k, data), 0, j);
    }
    if slots[n].Used? { CachedAt(slots, 0, n); }
  }

  class ReadCache {
    var slots: seq<Slot>
    var prev: seq<int>
    var next: seq<int>
    var size: nat
    /** The slots visited so far. */
    ghost var visits: seq<int>

    ghost predicate Valid()
      reads this
    {
      && |slots| == |prev| > 0 && SlotsOk(slots, size)
      && (forall i :: 0 <= i < |visits| ==> 0 <= visits[i] < |slots|)
      && Ring(prev, next, Visited(|slots|, visits))
    }

    constructor (capacity: nat)
      requires capacity > 0
      ensures Valid() && |slots| == capacity && size == 0 && visits == []
      ensures forall k :: Cached(slots, k) == None
    {
      slots := seq(capacity, _ => Empty);
      prev := seq(capacity, i => if i == 0 then capacity - 1 else i - 1);
      next := seq(capacity, i => if i == capacity - 1 then 0 else i + 1);
      size, visits := 0, [];
      new;
      forall k ensures Cached(slots, k) == None { CachedNone(slots, 0, k); }
    }

    /** Moves a slot to the head of the ring; slot 0 is the head itself. */
    method Visit(id: nat)
      requires Valid() && id < |slots|
      modifies this`prev, this`next, this`visits
      ensures Valid() && visits == old(visits) + [id]
    {
      hide Ring, Order, Touch, SlotsOk, Visited;
      ghost var order := Visited(|slots|, visits);
      VisitedNext(|slots|, visits, id);
      visits := visits + [id];
      if id == 0 { return; }
      prev, next := MoveToHead(prev, next, id, order);
    }

    /** The victim is the slot that was not visited for the longest time, slot 0 aside: that one is never the
        victim in a cache of two slots or more, so whatever was cached first stays. */
    lemma VictimOldest(s: nat)
      requires Valid() && 0 < s < |slots|
      ensures 0 < prev[0] < |slots| && LastVisit(visits, prev[0]) <= LastVisit(visits, s)
    {
      hide Visited, IndexOf, LastVisit;
      var n, order := |slots|, Visited(|slots|, visits);
      var i := IndexOf(order, s);
      if i < n - 1 { RecentFirst(n, visits, i, n - 1); }
      assert order[n - 1] != order[0];
    }

    lemma VictimInRange()
      requires Valid()
      ensures 0 <= prev[0] < |slots| && (|slots| > 1 ==> prev[0] != 0)
    {
      hide Visited;
      var order := Visited(|slots|, visits);
      if |slots| > 1 { Apart(order, |slots|, |slots| - 1, 0); }
    }

    method FindSlot(k: Key) returns (r: Option<int>)
      ensures r.Some? ==> 0 <= r.value < |slots| && slots[r.value].Used? && slots[r.value].key == k
                          && Cached(slots, k) == Some(slots[r.value].data)
      ensures r.None? ==> Cached(slots, k) == None
                          && forall n :: 0 <= n < |slots| && slots[n].Used? ==> slots[n].key != k
    {
      var i := 0;
      while i < |slots|
        invariant 0 <= i <= |slots|
        invariant forall n :: 0 <= n < i && slots[n].Used? ==> slots[n].key != k
        invariant Cached(slots, k) == CachedFrom(slots, i, k)
      {
        if slots[i].Used? && slots[i].key == k { return Some(i); }
        i := i + 1;
      }
      r := None;
    }

    method Get(k: Key) returns (r: Option<Block>)
      requires Valid()
      modifies this`prev, this`next, this`visits
      ensures Valid() && r == Cached(slots, k)
      ensures r.None? ==> visits == old(visits)
      ensures r.Some? ==> Visits(old(visits), k)
    {
      var i := FindSlot(k);
      if i.None? { return None; }
      r := Some(slots[i.value].data);
      Visit(i.value);
    }

    /** Exactly one visit, to the slot of the key. */
    ghost predicate Visits(before: seq<int>, k: Key)
      reads this
    {
      && |visits| == |before| + 1 && visits[..|before|] == before
      && var s := visits[|before|];
         0 <= s < |slots| && slots[s].Used? && slots[s].key == k
    }

    /** The new block is cached. Another key can lose its block only when the cache is full and the new key
        was not cached, and then only the key in the slot before the ring's head. */
    method Put(k: Key, data: Block)
      requires Valid()
      modifies this
      ensures Valid() && |slots| == |old(slots)| && Visits(old(visits), k)
      ensures Cached(slots, k) == Some(data)
      ensures size == old(size) + if Cached(old(slots), k).None? && old(size) < |slots| then 1 else 0
      ensures |slots| > 1 && old(size) > 0 ==> slots[0].key == old(slots)[0].key
      ensures forall j :: j != k ==> Cached(slots, j) == Cached(old(slots), j) || Cached(slots, j) == None
      ensures forall j :: j != k && Cached(slots, j) != Cached(old(slots), j) ==>
                old(size) == |slots| && Cached(old(slots), k).None? && old(slots)[old(prev)[0]] == Used(j, Cached(old(slots), j).value)
    {
      hide Ring, Order, Visited, Touch, IndexOf;
      VictimInRange();
      var i := FindSlot(k);
      var slot: nat;
      if i.Some? {
        slot := i.value;
      } else {
        slot := if size < |slots| then size else prev[0];
      }
      PutSlot(slots, size, slot, k, data);
      slots := slots[slot := Used(k, data)];
      if i.None? && size < |slots| { size := size + 1; }
      Visit(slot);
    }
  }
}
