/** One key's entries through the whole tree, newest first, and the order invariant that ties sync
    IDs, promotion and component age together. */
module Columns {
  import opened Common
  import opened Records
  import opened Compaction
  import opened Levels
  import opened MajorCompaction

  /** What a reader gets. */
  function LatestOf(col: seq<Entry>): Option<Value> {
    if col == [] then None else Some(Newest(col[0].v))
  }

  /** What survives if everything unsynced is discarded. */
  function SyncedOf(col: seq<Entry>, master: int): Option<Value> {
    if col == [] then None
    else if SyncedPart(PromoteEntry(col[0], master)).Some? then SyncedPart(PromoteEntry(col[0], master))
    else SyncedOf(col[1..], master)
  }

  ghost predicate AllSynced(col: seq<Entry>, master: int) {
    forall i :: 0 <= i < |col| ==> PromoteEntry(col[i], master).Synced?
  }

  /** Below an entry that holds a synced value, everything is synced. */
  ghost predicate SyncOrdered(col: seq<Entry>, master: int) {
    col == [] ||
    (&& SyncOrdered(col[1..], master)
     && (ContainsSynced(PromoteEntry(col[0], master)) ==> AllSynced(col[1..], master)))
  }

  /** Neighbours in a column are handled by the merge. */
  lemma {:induction false} NeighboursHandled(front: seq<Entry>, us: seq<Entry>, ls: seq<Entry>, rest: seq<Entry>, master: int)
    requires SyncOrdered(front + us + ls + rest, master)
    requires |us| <= 1
    ensures HandledPair(Head(us, master), Head(ls, master))
  {
    if front == [] {
      if us != [] && ls != [] {
        var col := front + us + ls + rest;
        assert col[0] == us[0] && col[1] == ls[0];
        assert col[1..][0] == ls[0];
      }
    } else {
      assert (front + us + ls + rest)[1..] == front[1..] + us + ls + rest;
      NeighboursHandled(front[1..], us, ls, rest, master);
    }
  }

  lemma CombinedSynced(us: seq<Entry>, ls: seq<Entry>, ns: seq<Entry>, rest: seq<Entry>, master: int)
    requires Combined(us, ls, ns, master)
    requires AllSynced(us + ls + rest, master)
    ensures AllSynced(ns + rest, master)
  {
    var col := us + ls + rest;
    forall i | 0 <= i < |ns + rest| ensures PromoteEntry((ns + rest)[i], master).Synced? {
      if i >= |ns| {
        assert (ns + rest)[i] == rest[i - |ns|] == col[|us| + |ls| + i - |ns|];
      } else if us == [] && ns == ls {
        assert (ns + rest)[i] == col[i];
      } else {
        if us != [] { assert col[0] == us[0]; }
        if ls != [] { assert col[|us|] == ls[0]; }
      }
    }
  }

  lemma {:induction false} CombineKeepsSynced(
      front: seq<Entry>, us: seq<Entry>, ls: seq<Entry>, ns: seq<Entry>, rest: seq<Entry>, master: int)
    requires Combined(us, ls, ns, master)
    requires AllSynced(front + us + ls + rest, master)
    ensures AllSynced(front + ns + rest, master)
  {
    if front == [] {
      assert front + us + ls + rest == us + ls + rest;
      assert front + ns + rest == ns + rest;
      CombinedSynced(us, ls, ns, rest, master);
    } else {
      var col := front + us + ls + rest;
      assert col[1..] == front[1..] + us + ls + rest;
      assert (front + ns + rest)[1..] == front[1..] + ns + rest;
      CombineKeepsSynced(front[1..], us, ls, ns, rest, master);
      assert (front + ns + rest)[0] == col[0];
    }
  }

  /** A compaction of neighbours keeps the order, the latest view and the synced view. */
  lemma {:induction false} CombineColumn(
      front: seq<Entry>, us: seq<Entry>, ls: seq<Entry>, ns: seq<Entry>, rest: seq<Entry>, master: int)
    requires Combined(us, ls, ns, master)
    requires SyncOrdered(front + us + ls + rest, master)
    ensures SyncOrdered(front + ns + rest, master)
    ensures LatestOf(front + ns + rest) == LatestOf(front + us + ls + rest)
    ensures SyncedOf(front + ns + rest, master) == SyncedOf(front + us + ls + rest, master)
  {
    if front == [] {
      assert front + us + ls + rest == us + ls + rest;
      assert front + ns + rest == ns + rest;
      CombineTop(us, ls, ns, rest, master);
    } else {
      var col := front + us + ls + rest;
      assert col[1..] == front[1..] + us + ls + rest;
      assert (front + ns + rest)[1..] == front[1..] + ns + rest;
      CombineColumn(front[1..], us, ls, ns, rest, master);
      if ContainsSynced(PromoteEntry(col[0], master)) {
        CombineKeepsSynced(front[1..], us, ls, ns, rest, master);
      }
    }
  }

  lemma CombineTop(us: seq<Entry>, ls: seq<Entry>, ns: seq<Entry>, rest: seq<Entry>, master: int)
    requires Combined(us, ls, ns, master)
    requires SyncOrdered(us + ls + rest, master)
    ensures SyncOrdered(ns + rest, master)
    ensures LatestOf(ns + rest) == LatestOf(us + ls + rest)
    ensures SyncedOf(ns + rest, master) == SyncedOf(us + ls + rest, master)
  {
    if us == [] {
      assert us + ls + rest == ls + rest;
      if ls != ns && ls != [] {
        assert ls + rest == [ls[0]] + rest && ns + rest == [ns[0]] + rest;
      }
    } else if ls == [] {
      assert us + ls + rest == [us[0]] + rest;
      assert ns + rest == [ns[0]] + rest;
    } else {
      var col := us + ls + rest;
      assert col == [us[0], ls[0]] + rest;
      assert col[1..] == [ls[0]] + rest;
      assert col[1..][1..] == rest;
      assert (ns + rest)[1..] == rest;
      assert col[1..][0] == ls[0];
      if ContainsSynced(PromoteEntry(us[0], master)) {
        assert AllSynced(rest, master) by {
          forall i | 0 <= i < |rest| ensures PromoteEntry(rest[i], master).Synced? {
            assert rest[i] == col[1..][i + 1];
          }
        }
      }
    }
  }

  /** A put over a key the mutable table does not hold. */
  lemma PutNew(col: seq<Entry>, v: Value, master: int)
    requires SyncOrdered(col, master)
    ensures var col' := [Entry(Unsynced(v), master)] + col;
            && SyncOrdered(col', master)
            && LatestOf(col') == Some(v)
            && SyncedOf(col', master) == SyncedOf(col, master)
  {
    assert ([Entry(Unsynced(v), master)] + col)[1..] == col;
  }

  /** A put over a key the mutable table holds. */
  lemma PutOld(e: ValueEx, rest: seq<Entry>, v: Value, master: int)
    requires SyncOrdered([Entry(e, master)] + rest, master)
    ensures var col' := [Entry(PutValue(e, v).0, master)] + rest;
            && SyncOrdered(col', master)
            && LatestOf(col') == Some(v)
            && SyncedOf(col', master) == SyncedOf([Entry(e, master)] + rest, master)
  {
    assert ([Entry(e, master)] + rest)[1..] == rest;
    assert ([Entry(PutValue(e, v).0, master)] + rest)[1..] == rest;
  }

  /** Entries of components older than a new master sync ID are all synced under it. */
  lemma {:induction false} SyncColumn(col: seq<Entry>, master: int)
    requires forall i :: 0 <= i < |col| ==> PromoteEntry(col[i], master).Synced?
    ensures SyncOrdered(col, master)
    ensures SyncedOf(col, master) == LatestOf(col)
  {
    if col != [] {
      SyncColumn(col[1..], master);
      assert AllSynced(col[1..], master);
      assert PromoteEntry(col[0], master) == Synced(Newest(col[0].v));
    }
  }
}
