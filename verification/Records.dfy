/** Sync-aware records of the LSM tree: `ValueEx` of mem_table.rs, promotion of sstable.rs
    and the five-arm merge of two values with one key of compaction.rs. */
module Records {
  import opened Common

  /** Keys are logical block addresses; the tree only compares them and adds offsets. */
  type Key = int

  datatype Value = Value(hba: int, key: int, mac: Mac)

  /** At most one synced and one unsynced value coexist under one key. */
  datatype ValueEx =
    | Synced(v: Value)
    | Unsynced(v: Value)
    | SyncedAndUnsynced(sv: Value, usv: Value)

  datatype Record = Record(key: Key, value: ValueEx)

  /** A value handed to a drop callback. */
  datatype Drop = Drop(key: Key, value: Value)

  /** The most recent value. */
  function Newest(e: ValueEx): Value {
    match e
    case Synced(v) => v
    case Unsynced(v) => v
    case SyncedAndUnsynced(_, usv) => usv
  }

  predicate ContainsUnsynced(e: ValueEx) {
    e.Unsynced? || e.SyncedAndUnsynced?
  }

  predicate ContainsSynced(e: ValueEx) {
    e.Synced? || e.SyncedAndUnsynced?
  }

  /** The value a recovery that discards unsynced data would keep. */
  function SyncedPart(e: ValueEx): Option<Value> {
    match e
    case Synced(v) => Some(v)
    case Unsynced(_) => None
    case SyncedAndUnsynced(sv, _) => Some(sv)
  }

  /** How often an entry keeps the value `v` alive. */
  function Uses(e: ValueEx, v: Value): nat {
    match e
    case Synced(w) => if w == v then 1 else 0
    case Unsynced(w) => if w == v then 1 else 0
    case SyncedAndUnsynced(sw, usw) => (if sw == v then 1 else 0) + (if usw == v then 1 else 0)
  }

  function OptionUses(o: Option<Value>, v: Value): nat {
    if o == Some(v) then 1 else 0
  }

  /** `ValueEx::put`: the new value becomes the unsynced one; the replaced unsynced value is dropped. */
  function PutValue(e: ValueEx, v: Value): (r: (ValueEx, Option<Value>))
    ensures Newest(r.0) == v && ContainsUnsynced(r.0)
    ensures SyncedPart(r.0) == SyncedPart(e)
  {
    match e
    case Synced(s) => (SyncedAndUnsynced(s, v), None)
    case Unsynced(u) => (Unsynced(v), Some(u))
    case SyncedAndUnsynced(s, u) => (SyncedAndUnsynced(s, v), Some(u))
  }

  /** `ValueEx::sync`, extended by doing nothing to a synced value: the filters in front of the
      source's call never let one through. */
  function SyncValue(e: ValueEx): (r: (ValueEx, Option<Value>))
    ensures r.0 == Synced(Newest(e))
  {
    match e
    case Synced(v) => (e, None)
    case Unsynced(v) => (Synced(v), None)
    case SyncedAndUnsynced(sv, usv) => (Synced(usv), Some(sv))
  }

  /** What a table scan yields for a stored entry when every record of the table is known synced. */
  function Promote(e: ValueEx, allSynced: bool): (r: (ValueEx, Option<Value>))
    ensures Newest(r.0) == Newest(e)
    ensures allSynced ==> r.0 == Synced(Newest(e))
    ensures !allSynced ==> r == (e, None)
  {
    if allSynced then SyncValue(e) else (e, None)
  }

  /** The five arms of `compact_value_ex` that do not end in `unreachable!()`. */
  predicate Handled(newer: ValueEx, older: ValueEx) {
    || (newer.Synced? && older.Synced?)
    || newer.Unsynced?
    || (newer.SyncedAndUnsynced? && older.Synced?)
  }

  /** Compaction of two values with the same key: the survivor and the dropped value, if any. */
  function CompactValue(newer: ValueEx, older: ValueEx): (r: (ValueEx, Option<Value>))
    requires Handled(newer, older)
    ensures Newest(r.0) == Newest(newer)
    ensures SyncedPart(r.0) == if SyncedPart(newer).Some? then SyncedPart(newer) else SyncedPart(older)
  {
    match (newer, older)
    case (Synced(n), Synced(o)) => (Synced(n), Some(o))
    case (Unsynced(n), Synced(o)) => (SyncedAndUnsynced(o, n), None)
    case (Unsynced(n), Unsynced(o)) => (Unsynced(n), Some(o))
    case (Unsynced(n), SyncedAndUnsynced(os, ou)) => (SyncedAndUnsynced(os, n), Some(ou))
    case (SyncedAndUnsynced(ns, nu), _) => (SyncedAndUnsynced(ns, nu), Some(older.v))
  }

  // Nothing is lost: what an operation on one entry does not keep, it reports as dropped.

  lemma PutValueConserves(e: ValueEx, w: Value, v: Value)
    ensures var r := PutValue(e, w);
            Uses(r.0, v) + OptionUses(r.1, v) == Uses(e, v) + (if w == v then 1 else 0)
  {
  }

  lemma PromoteConserves(e: ValueEx, allSynced: bool, v: Value)
    ensures var r := Promote(e, allSynced);
            Uses(r.0, v) + OptionUses(r.1, v) == Uses(e, v)
  {
  }

  lemma CompactValueConserves(newer: ValueEx, older: ValueEx, v: Value)
    requires Handled(newer, older)
    ensures var r := CompactValue(newer, older);
            Uses(r.0, v) + OptionUses(r.1, v) == Uses(newer, v) + Uses(older, v)
  {
  }

  /** How often a list of drops contains value `v` of key `k`. */
  function Drops(ds: seq<Drop>, k: Key, v: Value): nat {
    if ds == [] then 0
    else (if ds[0] == Drop(k, v) then 1 else 0) + Drops(ds[1..], k, v)
  }

  function OptionDrop(k: Key, o: Option<Value>): seq<Drop> {
    if o.Some? then [Drop(k, o.value)] else []
  }

  lemma OptionDrops(j: Key, o: Option<Value>, k: Key, v: Value)
    ensures Drops(OptionDrop(j, o), k, v) == if j == k then OptionUses(o, v) else 0
  {
  }

  lemma {:induction false} DropsConcat(a: seq<Drop>, b: seq<Drop>, k: Key, v: Value)
    ensures Drops(a + b, k, v) == Drops(a, k, v) + Drops(b, k, v)
  {
    if a == [] {
      assert a + b == b;
    } else {
      assert (a + b)[1..] == a[1..] + b;
      DropsConcat(a[1..], b, k, v);
    }
  }

  // ---- Key-sorted record lists -----------------------------------------------------------

  predicate Sorted(rs: seq<Record>) {
    forall i, j :: 0 <= i < j < |rs| ==> rs[i].key < rs[j].key
  }

  /** Point lookup among the records from index `i` on. */
  function LookupFrom(rs: seq<Record>, i: nat, k: Key): Option<ValueEx>
    decreases |rs| - i
  {
    if i >= |rs| then None
    else if rs[i].key == k then Some(rs[i].value)
    else LookupFrom(rs, i + 1, k)
  }

  function Lookup(rs: seq<Record>, k: Key): Option<ValueEx> {
    LookupFrom(rs, 0, k)
  }

  lemma {:induction false} LookupFromMember(rs: seq<Record>, i: nat, k: Key)
    requires i <= |rs|
    ensures LookupFrom(rs, i, k).Some? ==>
              exists n :: i <= n < |rs| && rs[n] == Record(k, LookupFrom(rs, i, k).value)
    ensures LookupFrom(rs, i, k).None? ==> forall n :: i <= n < |rs| ==> rs[n].key != k
    decreases |rs| - i
  {
    if i < |rs| {
      LookupFromMember(rs, i + 1, k);
      if rs[i].key == k { assert rs[i] == Record(k, rs[i].value); }
    }
  }

  lemma LookupMember(rs: seq<Record>, k: Key)
    ensures Lookup(rs, k).Some? ==> exists n :: 0 <= n < |rs| && rs[n] == Record(k, Lookup(rs, k).value)
    ensures Lookup(rs, k).None? ==> forall n :: 0 <= n < |rs| ==> rs[n].key != k
  {
    LookupFromMember(rs, 0, k);
  }

  lemma LookupAt(rs: seq<Record>, n: nat)
    requires Sorted(rs) && n < |rs|
    ensures Lookup(rs, rs[n].key) == Some(rs[n].value)
  {
    LookupMember(rs, rs[n].key);
  }

  lemma LookupBelow(rs: seq<Record>, i: nat, k: Key)
    requires Sorted(rs) && i <= |rs|
    requires i == |rs| || k < rs[i].key
    ensures LookupFrom(rs, i, k).None?
  {
    LookupFromMember(rs, i, k);
  }

  lemma {:induction false} LookupShift(a: seq<Record>, b: seq<Record>, i: nat, k: Key)
    ensures LookupFrom(a + b, |a| + i, k) == LookupFrom(b, i, k)
    decreases |b| - i
  {
    if i < |b| { LookupShift(a, b, i + 1, k); }
  }

  lemma {:induction false} LookupConcatFrom(a: seq<Record>, b: seq<Record>, i: nat, k: Key)
    requires i <= |a|
    ensures LookupFrom(a + b, i, k) == if LookupFrom(a, i, k).Some? then LookupFrom(a, i, k) else Lookup(b, k)
    decreases |a| - i
  {
    if i < |a| { LookupConcatFrom(a, b, i + 1, k); } else { LookupShift(a, b, 0, k); }
  }

  lemma LookupConcat(a: seq<Record>, b: seq<Record>, k: Key)
    ensures Lookup(a + b, k) == if Lookup(a, k).Some? then Lookup(a, k) else Lookup(b, k)
  {
    LookupConcatFrom(a, b, 0, k);
  }

  /** The smallest key of a nonempty key set. */
  function MinKey(s: set<Key>): (k: Key)
    requires s != {}
    ensures k in s && forall j :: j in s ==> k <= j
  {
    MinKeyExists(s);
    var k :| k in s && forall j :: j in s ==> k <= j;
    k
  }

  lemma EmptyOrInhabited(s: set<Key>)
    ensures s == {} || exists x :: x in s
  {
    if forall x :: x !in s { assert s == {}; }
  }

  lemma MapEmptyOrInhabited(table: map<Key, ValueEx>)
    ensures table == map[] || exists k :: k in table
  {
    if forall k :: k !in table { assert table == map[]; }
  }

  lemma {:induction false} MinKeyExists(s: set<Key>)
    requires s != {}
    ensures exists k :: k in s && forall j :: j in s ==> k <= j
    decreases |s|
  {
    EmptyOrInhabited(s);
    var x :| x in s;
    if s - {x} == {} {
      assert s == {x};
    } else {
      MinKeyExists(s - {x});
      var y :| y in s - {x} && forall j :: j in s - {x} ==> y <= j;
      var m := if x < y then x else y;
      forall j | j in s ensures m <= j {
        if j != x { assert j in s - {x}; }
      }
      assert m in s;
    }
  }

  /** Iteration order of a `BTreeMap`. */
  function SortedKeys(s: set<Key>): (ks: seq<Key>)
    ensures forall i, j :: 0 <= i < j < |ks| ==> ks[i] < ks[j]
    ensures forall i :: 0 <= i < |ks| ==> ks[i] in s
    decreases |s|
  {
    if s == {} then [] else
    var k := MinKey(s);
    [k] + SortedKeys(s - {k})
  }

  lemma {:induction false} SortedKeysComplete(s: set<Key>, k: Key)
    requires k in s
    ensures k in SortedKeys(s)
    decreases |s|
  {
    var m := MinKey(s);
    if k != m {
      SortedKeysComplete(s - {m}, k);
    }
  }

  lemma {:induction false} SortedKeysLength(s: set<Key>)
    ensures |SortedKeys(s)| == |s|
    decreases |s|
  {
    if s != {} {
      SortedKeysLength(s - {MinKey(s)});
    }
  }
}
