/** One major compaction of tx_lsm_tree.rs as a whole: which tables take part, the two record
    streams, the tables created and the level that results. */
module MajorCompaction {
  import opened Common
  import opened Records
  import opened Compaction
  import opened Levels

  // ---- Which tables take part ----------------------------------------------------------------

  /** `find_overlapped_ssts`. */
  function Overlapped(level: seq<Sst>, u: Sst): (r: seq<Sst>)
    requires u.records != []
    requires forall i :: 0 <= i < |level| ==> level[i].records != []
    ensures forall i :: 0 <= i < |r| ==> r[i] in level && r[i].records != [] && Overlaps(r[i], u)
  {
    if level == [] then []
    else (if Overlaps(level[0], u) then [level[0]] else []) + Overlapped(level[1..], u)
  }

  /** The tables a compaction leaves alone. */
  function Others(level: seq<Sst>, u: Sst): (r: seq<Sst>)
    requires u.records != []
    requires forall i :: 0 <= i < |level| ==> level[i].records != []
    ensures forall i :: 0 <= i < |r| ==> r[i] in level && r[i].records != [] && !Overlaps(r[i], u)
  {
    if level == [] then []
    else (if Overlaps(level[0], u) then [] else [level[0]]) + Others(level[1..], u)
  }

  /** Splitting a level loses no entry. */
  lemma {:induction false} SplitPart(level: seq<Sst>, u: Sst, k: Key)
    requires u.records != []
    requires forall i :: 0 <= i < |level| ==> level[i].records != []
    ensures Part(Overlapped(level, u), k) == [] ==> Part(Others(level, u), k) == Part(level, k)
    ensures Part(Others(level, u), k) == [] ==> Part(Overlapped(level, u), k) == Part(level, k)
  {
    if level != [] {
      SplitPart(level[1..], u, k);
      var t := level[0];
      assert [t] + Overlapped(level[1..], u) == Overlapped(level, u) || Overlapped(level[1..], u) == Overlapped(level, u);
      assert [t] + Others(level[1..], u) == Others(level, u) || Others(level[1..], u) == Others(level, u);
      PartCons(t, Overlapped(level[1..], u), k);
      PartCons(t, Others(level[1..], u), k);
    }
  }

  lemma PartCons(t: Sst, ts: seq<Sst>, k: Key)
    ensures Part([t] + ts, k) == Part(ts, k) + One(t, k)
  {
    assert ([t] + ts)[1..] == ts;
  }

  /** Tables in key order, each entirely below the next. */
  ghost predicate Ordered(ts: seq<Sst>) {
    && AllWellFormed(ts)
    && forall i, j :: 0 <= i < j < |ts| ==> Last(ts[i]) < First(ts[j])
  }

  /** `sort_by_key` on the start of the key range. */
  function InsertByFirst(ts: seq<Sst>, s: Sst): (r: seq<Sst>)
    requires s.records != []
    requires forall i :: 0 <= i < |ts| ==> ts[i].records != []
    ensures forall i :: 0 <= i < |r| ==> r[i].records != []
  {
    if ts == [] || First(s) <= First(ts[0]) then [s] + ts
    else [ts[0]] + InsertByFirst(ts[1..], s)
  }

  function SortByFirst(ts: seq<Sst>): (r: seq<Sst>)
    requires forall i :: 0 <= i < |ts| ==> ts[i].records != []
    ensures forall i :: 0 <= i < |r| ==> r[i].records != []
  {
    if ts == [] then [] else InsertByFirst(SortByFirst(ts[1..]), ts[0])
  }

  lemma {:induction false} InsertByFirstMembers(ts: seq<Sst>, s: Sst, t: Sst)
    requires s.records != []
    requires forall i :: 0 <= i < |ts| ==> ts[i].records != []
    ensures t in InsertByFirst(ts, s) <==> t == s || t in ts
  {
    if !(ts == [] || First(s) <= First(ts[0])) {
      InsertByFirstMembers(ts[1..], s, t);
      assert t in ts <==> t == ts[0] || t in ts[1..];
    }
  }

  lemma {:induction false} SortByFirstMembers(ts: seq<Sst>, t: Sst)
    requires forall i :: 0 <= i < |ts| ==> ts[i].records != []
    ensures t in SortByFirst(ts) <==> t in ts
  {
    if ts != [] {
      SortByFirstMembers(ts[1..], t);
      InsertByFirstMembers(SortByFirst(ts[1..]), ts[0], t);
      assert t in ts <==> t == ts[0] || t in ts[1..];
    }
  }

  lemma {:induction false} InsertOrdered(ts: seq<Sst>, s: Sst)
    requires Ordered(ts) && WellFormed(s)
    requires forall i :: 0 <= i < |ts| ==> !Overlaps(ts[i], s)
    ensures Ordered(InsertByFirst(ts, s))
  {
    WellFormedRange(s);
    if ts != [] {
      WellFormedRange(ts[0]);
      assert !Overlaps(ts[0], s);
      if First(s) > First(ts[0]) {
        var rest := InsertByFirst(ts[1..], s);
        InsertOrdered(ts[1..], s);
        forall j | 0 <= j < |rest| ensures Last(ts[0]) < First(rest[j]) {
          InsertByFirstMembers(ts[1..], s, rest[j]);
          assert rest[j] in rest;
        }
        OrderedCons(ts[0], rest);
      } else {
        forall j | 0 <= j < |ts| ensures Last(s) < First(ts[j]) {
          if j > 0 { assert Last(ts[0]) < First(ts[j]); }
        }
        OrderedCons(s, ts);
      }
    }
  }

  lemma OrderedCons(s: Sst, ts: seq<Sst>)
    requires WellFormed(s) && Ordered(ts)
    requires forall j :: 0 <= j < |ts| ==> Last(s) < First(ts[j])
    ensures Ordered([s] + ts)
  {
  }

  lemma WellFormedRange(s: Sst)
    requires WellFormed(s)
    ensures First(s) <= Last(s)
  {
  }

  /** The overlapped tables of a disjoint level come out ordered. */
  lemma {:induction false} SortOrdered(ts: seq<Sst>)
    requires Disjoint(ts)
    ensures Ordered(SortByFirst(ts))
  {
    if ts != [] {
      SortOrdered(ts[1..]);
      var rest := SortByFirst(ts[1..]);
      forall i | 0 <= i < |rest| ensures !Overlaps(rest[i], ts[0]) {
        SortByFirstMembers(ts[1..], rest[i]);
        assert rest[i] in rest;
        var n :| 0 <= n < |ts[1..]| && ts[1..][n] == rest[i];
        assert ts[n + 1] == rest[i];
      }
      InsertOrdered(rest, ts[0]);
    }
  }

  lemma {:induction false} InsertByFirstPart(ts: seq<Sst>, s: Sst, k: Key)
    requires s.records != []
    requires forall i :: 0 <= i < |ts| ==> ts[i].records != []
    requires One(s, k) == [] || Part(ts, k) == []
    ensures Part(InsertByFirst(ts, s), k) == Part(ts, k) + One(s, k)
  {
    if ts == [] || First(s) <= First(ts[0]) {
      PartCons(s, ts, k);
    } else {
      InsertByFirstPart(ts[1..], s, k);
      PartCons(ts[0], InsertByFirst(ts[1..], s), k);
    }
  }

  /** Sorting a disjoint list of tables leaves each key's entries as they were. */
  lemma {:induction false} SortPart(ts: seq<Sst>, k: Key)
    requires Disjoint(ts)
    ensures Part(SortByFirst(ts), k) == Part(ts, k)
  {
    if ts != [] {
      SortPart(ts[1..], k);
      FoundWithin(ts[0], k);
      if One(ts[0], k) != [] {
        PartDisjoint(ts, 0, k);
        assert Part(ts, k) == Part(ts[1..], k) + One(ts[0], k);
        assert |Part(ts[1..], k)| == 0;
      }
      InsertByFirstPart(SortByFirst(ts[1..]), ts[0], k);
    }
  }

  // ---- The streams -----------------------------------------------------------------------------

  /** The chained scans of several tables. */
  function Stream(ts: seq<Sst>, master: int): seq<Record> {
    if ts == [] then [] else Scan(ts[0].records, master > ts[0].syncId) + Stream(ts[1..], master)
  }

  function StreamDrops(ts: seq<Sst>, master: int): seq<Drop> {
    if ts == [] then []
    else ScanDrops(ts[0].records, master > ts[0].syncId, |ts[0].records|) + StreamDrops(ts[1..], master)
  }

  function PromoteEntry(e: Entry, master: int): ValueEx {
    Promote(e.v, master > e.syncId).0
  }

  /** The newest of some entries, promoted. */
  function Head(es: seq<Entry>, master: int): Option<ValueEx> {
    if es == [] then None else Some(PromoteEntry(es[0], master))
  }

  /** How often some entries keep the value `v` alive. */
  function Live(es: seq<Entry>, v: Value): nat {
    if es == [] then 0 else Uses(es[0].v, v) + Live(es[1..], v)
  }

  lemma {:induction false} LiveConcat(a: seq<Entry>, b: seq<Entry>, v: Value)
    ensures Live(a + b, v) == Live(a, v) + Live(b, v)
  {
    if a == [] {
      assert a + b == b;
    } else {
      assert (a + b)[1..] == a[1..] + b;
      LiveConcat(a[1..], b, v);
    }
  }

  /** Where an ordered list of tables keeps a key: in its first table or in the others. */
  lemma OrderedPart(ts: seq<Sst>, k: Key)
    requires Ordered(ts) && ts != []
    ensures One(ts[0], k) != [] ==> Part(ts[1..], k) == []
    ensures Part(ts, k) == if One(ts[0], k) != [] then One(ts[0], k) else Part(ts[1..], k)
  {
    FoundWithin(ts[0], k);
    if One(ts[0], k) != [] {
      forall i | 0 <= i < |ts[1..]| ensures Lookup(ts[1..][i].records, k).None? {
        FoundWithin(ts[i + 1], k);
        assert Last(ts[0]) < First(ts[i + 1]);
      }
      PartNone(ts[1..], k);
    }
  }

  lemma {:induction false} StreamLookup(ts: seq<Sst>, master: int, k: Key)
    requires Ordered(ts)
    ensures Lookup(Stream(ts, master), k) == Head(Part(ts, k), master)
    ensures |Part(ts, k)| <= 1
  {
    if ts != [] {
      StreamLookup(ts[1..], master, k);
      OrderedPart(ts, k);
      ScanLookup(ts[0].records, master > ts[0].syncId, k);
      LookupConcat(Scan(ts[0].records, master > ts[0].syncId), Stream(ts[1..], master), k);
    }
  }

  lemma {:induction false} StreamKeys(ts: seq<Sst>, master: int, n: nat)
    requires n < |Stream(ts, master)|
    ensures exists t, i :: 0 <= t < |ts| && 0 <= i < |ts[t].records| && ts[t].records[i].key == Stream(ts, master)[n].key
  {
    var rs := ts[0].records;
    if n < |rs| {
      assert ts[0].records[n].key == Stream(ts, master)[n].key;
    } else {
      StreamKeys(ts[1..], master, n - |rs|);
      var t, i :| 0 <= t < |ts[1..]| && 0 <= i < |ts[1..][t].records|
                  && ts[1..][t].records[i].key == Stream(ts[1..], master)[n - |rs|].key;
      assert ts[t + 1].records[i].key == Stream(ts, master)[n].key;
    }
  }

  lemma {:induction false} StreamSorted(ts: seq<Sst>, master: int)
    requires Ordered(ts)
    ensures Sorted(Stream(ts, master))
  {
    if ts != [] {
      StreamSorted(ts[1..], master);
      var a, b := Scan(ts[0].records, master > ts[0].syncId), Stream(ts[1..], master);
      ScanSorted(ts[0].records, master > ts[0].syncId);
      forall i, j | 0 <= i < |a| && 0 <= j < |b| ensures a[i].key < b[j].key {
        StreamKeys(ts[1..], master, j);
        var t, n :| 0 <= t < |ts[1..]| && 0 <= n < |ts[1..][t].records| && ts[1..][t].records[n].key == b[j].key;
        KeyInRange(ts[0], i);
        KeyInRange(ts[t + 1], n);
        assert Last(ts[0]) < First(ts[t + 1]);
      }
      SortedConcat(a, b);
    }
  }

  lemma KeyInRange(s: Sst, i: nat)
    requires WellFormed(s) && i < |s.records|
    ensures First(s) <= s.records[i].key <= Last(s)
  {
  }

  lemma SortedConcat(a: seq<Record>, b: seq<Record>)
    requires Sorted(a) && Sorted(b)
    requires forall i, j :: 0 <= i < |a| && 0 <= j < |b| ==> a[i].key < b[j].key
    ensures Sorted(a + b)
  {
  }

  /** What a stream yields plus what its scans drop is what its tables hold. */
  lemma {:induction false} StreamConserves(ts: seq<Sst>, master: int, k: Key, v: Value)
    requires Ordered(ts)
    ensures UsesOpt(Lookup(Stream(ts, master), k), v) + Drops(StreamDrops(ts, master), k, v) == Live(Part(ts, k), v)
  {
    if ts != [] {
      StreamConserves(ts[1..], master, k, v);
      OrderedPart(ts, k);
      StreamLookup(ts[1..], master, k);
      var rs, all := ts[0].records, master > ts[0].syncId;
      ScanLookup(rs, all, k);
      LookupConcat(Scan(rs, all), Stream(ts[1..], master), k);
      ScanDropsCount(rs, all, k, v);
      DropsConcat(ScanDrops(rs, all, |rs|), StreamDrops(ts[1..], master), k, v);
      var e := Lookup(rs, k);
      if e.Some? {
        PromoteConserves(e.value, all, v);
        assert Live([Entry(e.value, ts[0].syncId)], v) == Uses(e.value, v);
      }
    }
  }

  // ---- The tables created ------------------------------------------------------------------------

  /** One table per chunk, with fresh consecutive IDs. */
  function Tables(cs: seq<seq<Record>>, syncId: int, nextId: int): seq<Sst> {
    if cs == [] then [] else [Sst(nextId, syncId, cs[0])] + Tables(cs[1..], syncId, nextId + 1)
  }

  /** The tables created from a stream. */
  function Created(rs: seq<Record>, cap: nat, syncId: int, nextId: int): seq<Sst>
    requires cap > 0
  {
    Tables(Chunks(rs, cap), syncId, nextId)
  }

  lemma CreatedSplit(rs: seq<Record>, cap: nat, syncId: int, nextId: int)
    requires cap > 0 && |rs| > cap
    ensures Created(rs, cap, syncId, nextId) ==
            [Sst(nextId, syncId, rs[..cap])] + Created(rs[cap..], cap, syncId, nextId + 1)
  {
    assert Chunks(rs, cap)[1..] == Chunks(rs[cap..], cap);
  }

  lemma CreatedOne(rs: seq<Record>, cap: nat, syncId: int, nextId: int)
    requires 0 < |rs| <= cap
    ensures Created(rs, cap, syncId, nextId) == [Sst(nextId, syncId, rs)]
  {
    assert Chunks(rs, cap)[1..] == [];
    assert Tables(Chunks(rs, cap)[1..], syncId, nextId + 1) == [];
  }

  lemma {:induction false} CreatedOrdered(rs: seq<Record>, cap: nat, syncId: int, nextId: int)
    requires cap > 0 && Sorted(rs)
    ensures Ordered(Created(rs, cap, syncId, nextId))
    ensures forall i :: 0 <= i < |Created(rs, cap, syncId, nextId)| ==>
              First(Created(rs, cap, syncId, nextId)[i]) >= rs[0].key
  {
    if |rs| > cap {
      var rest := Created(rs[cap..], cap, syncId, nextId + 1);
      CreatedOrdered(rs[cap..], cap, syncId, nextId + 1);
      CreatedSplit(rs, cap, syncId, nextId);
      OrderedCons(Sst(nextId, syncId, rs[..cap]), rest);
    } else if rs != [] {
      CreatedOne(rs, cap, syncId, nextId);
    }
  }

  /** Created tables hold exactly the records of the stream. */
  lemma {:induction false} CreatedPart(rs: seq<Record>, cap: nat, syncId: int, nextId: int, k: Key)
    requires cap > 0 && Sorted(rs)
    ensures Part(Created(rs, cap, syncId, nextId), k) ==
            if Lookup(rs, k).Some? then [Entry(Lookup(rs, k).value, syncId)] else []
  {
    if |rs| > cap {
      var t, rest := Sst(nextId, syncId, rs[..cap]), Created(rs[cap..], cap, syncId, nextId + 1);
      CreatedPart(rs[cap..], cap, syncId, nextId + 1, k);
      CreatedSplit(rs, cap, syncId, nextId);
      PartCons(t, rest, k);
      assert rs == rs[..cap] + rs[cap..];
      LookupConcat(rs[..cap], rs[cap..], k);
      if Lookup(rs[..cap], k).Some? {
        LookupMember(rs[..cap], k);
        LookupBelow(rs[cap..], 0, k);
      }
    } else if rs != [] {
      CreatedOne(rs, cap, syncId, nextId);
      PartCons(Sst(nextId, syncId, rs), [], k);
      assert [Sst(nextId, syncId, rs)] + [] == [Sst(nextId, syncId, rs)];
    }
  }

  /** Keys of created tables are keys of the stream. */
  lemma {:induction false} CreatedKeys(rs: seq<Record>, cap: nat, syncId: int, nextId: int, i: nat)
    requires cap > 0 && Sorted(rs) && i < |Created(rs, cap, syncId, nextId)|
    ensures var t := Created(rs, cap, syncId, nextId)[i];
            && 0 < |t.records| <= cap
            && t.syncId == syncId && t.id == nextId + i
            && (exists n :: 0 <= n < |rs| && rs[n].key == First(t))
            && (exists n :: 0 <= n < |rs| && rs[n].key == Last(t))
  {
    var ts := Created(rs, cap, syncId, nextId);
    if |rs| > cap {
      CreatedSplit(rs, cap, syncId, nextId);
      if i == 0 {
        assert rs[0].key == First(ts[0]) && rs[cap - 1].key == Last(ts[0]);
      } else {
        CreatedKeys(rs[cap..], cap, syncId, nextId + 1, i - 1);
        var t := ts[i];
        assert t == Created(rs[cap..], cap, syncId, nextId + 1)[i - 1];
        var a :| 0 <= a < |rs[cap..]| && rs[cap..][a].key == First(t);
        var b :| 0 <= b < |rs[cap..]| && rs[cap..][b].key == Last(t);
        assert rs[a + cap].key == First(t) && rs[b + cap].key == Last(t);
      }
    } else {
      CreatedOne(rs, cap, syncId, nextId);
      assert rs[0].key == First(ts[0]) && rs[|rs| - 1].key == Last(ts[0]);
    }
  }

  // ---- The level that results --------------------------------------------------------------------

  /** The lower stream of a compaction with upper table `u`. */
  function LowerTables(level: seq<Sst>, u: Sst): (r: seq<Sst>)
    requires u.records != []
    requires forall i :: 0 <= i < |level| ==> level[i].records != []
  {
    SortByFirst(Overlapped(level, u))
  }

  function UpperStream(u: Sst, master: int): seq<Record> {
    Scan(u.records, master > u.syncId)
  }

  /** No pair of equal keys of this compaction reaches the `unreachable!()` arm. */
  ghost predicate ArmsHandled(level: seq<Sst>, u: Sst, master: int)
    requires u.records != []
    requires forall i :: 0 <= i < |level| ==> level[i].records != []
  {
    Mergeable(UpperStream(u, master), Stream(LowerTables(level, u), master))
  }

  ghost function Merged(level: seq<Sst>, u: Sst, master: int): seq<Record>
    requires u.records != []
    requires forall i :: 0 <= i < |level| ==> level[i].records != []
    requires ArmsHandled(level, u, master)
  {
    Merge(UpperStream(u, master), Stream(LowerTables(level, u), master))
  }

  ghost function CompactedLevel(level: seq<Sst>, u: Sst, master: int, cap: nat, nextId: int): seq<Sst>
    requires u.records != [] && cap > 0
    requires forall i :: 0 <= i < |level| ==> level[i].records != []
    requires ArmsHandled(level, u, master)
  {
    Others(level, u) + Created(Merged(level, u, master), cap, master, nextId)
  }

  ghost function CompactionDrops(level: seq<Sst>, u: Sst, master: int): seq<Drop>
    requires u.records != []
    requires forall i :: 0 <= i < |level| ==> level[i].records != []
    requires ArmsHandled(level, u, master)
  {
    ScanDrops(u.records, master > u.syncId, |u.records|)
    + StreamDrops(LowerTables(level, u), master)
    + MergeDrops(UpperStream(u, master), Stream(LowerTables(level, u), master))
  }

  lemma {:induction false} OverlappedDisjoint(level: seq<Sst>, u: Sst)
    requires Disjoint(level) && u.records != []
    ensures Disjoint(Overlapped(level, u))
  {
    if level != [] {
      OverlappedDisjoint(level[1..], u);
      if Overlaps(level[0], u) { DisjointCons(level, Overlapped(level[1..], u)); }
    }
  }

  lemma {:induction false} OthersDisjoint(level: seq<Sst>, u: Sst)
    requires Disjoint(level) && u.records != []
    ensures Disjoint(Others(level, u))
  {
    if level != [] {
      OthersDisjoint(level[1..], u);
      if !Overlaps(level[0], u) { DisjointCons(level, Others(level[1..], u)); }
    }
  }

  lemma DisjointCons(level: seq<Sst>, rest: seq<Sst>)
    requires Disjoint(level) && level != [] && Disjoint(rest)
    requires forall i :: 0 <= i < |rest| ==> rest[i] in level[1..]
    ensures Disjoint([level[0]] + rest)
  {
    forall i | 0 <= i < |rest| ensures !Overlaps(rest[i], level[0]) && !Overlaps(level[0], rest[i]) {
      var n :| 0 <= n < |level[1..]| && level[1..][n] == rest[i];
      assert level[n + 1] == rest[i];
    }
  }

  lemma OrderedDisjoint(ts: seq<Sst>)
    requires Ordered(ts)
    ensures Disjoint(ts)
  {
    forall i, j | 0 <= i < |ts| && 0 <= j < |ts| && i != j ensures !Overlaps(ts[i], ts[j]) {
      WellFormedRange(ts[i]);
      WellFormedRange(ts[j]);
    }
  }

  /** The lower tables come out ordered, their stream sorted. */
  lemma LowerOrdered(level: seq<Sst>, u: Sst, master: int)
    requires Disjoint(level) && u.records != []
    ensures Ordered(LowerTables(level, u))
    ensures Sorted(Stream(LowerTables(level, u), master))
  {
    OverlappedDisjoint(level, u);
    SortOrdered(Overlapped(level, u));
    StreamSorted(LowerTables(level, u), master);
  }

  /** A lower stream has the promoted entry of each key of its level, unless an uninvolved table has it. */
  lemma LowerLookup(level: seq<Sst>, u: Sst, master: int, k: Key)
    requires Disjoint(level) && u.records != []
    ensures Lookup(Stream(LowerTables(level, u), master), k) == Head(Part(Overlapped(level, u), k), master)
    ensures Part(LowerTables(level, u), k) == Part(Overlapped(level, u), k)
    ensures |Part(Overlapped(level, u), k)| <= 1
  {
    OverlappedDisjoint(level, u);
    SortPart(Overlapped(level, u), k);
    LowerOrdered(level, u, master);
    StreamLookup(LowerTables(level, u), master, k);
  }

  lemma UpperLookup(u: Sst, master: int, k: Key)
    requires WellFormed(u)
    ensures Sorted(UpperStream(u, master))
    ensures Lookup(UpperStream(u, master), k) == Head(One(u, k), master)
  {
    ScanSorted(u.records, master > u.syncId);
    ScanLookup(u.records, master > u.syncId, k);
  }

  /** A key of an uninvolved table is in no table that takes part. */
  lemma UninvolvedKey(level: seq<Sst>, u: Sst, k: Key)
    requires Disjoint(level) && WellFormed(u)
    requires Part(Others(level, u), k) != []
    ensures One(u, k) == [] && Part(Overlapped(level, u), k) == []
  {
    var os := Others(level, u);
    if forall i :: 0 <= i < |os| ==> Lookup(os[i].records, k).None? { PartNone(os, k); }
    var i :| 0 <= i < |os| && Lookup(os[i].records, k).Some?;
    var o := os[i];
    assert o in level;
    FoundWithin(o, k);
    FoundWithin(u, k);
    var ts := Overlapped(level, u);
    forall j | 0 <= j < |ts| ensures Lookup(ts[j].records, k).None? {
      FoundWithin(ts[j], k);
      assert ts[j] in level;
      var a :| 0 <= a < |level| && level[a] == o;
      var b :| 0 <= b < |level| && level[b] == ts[j];
      assert a != b;
    }
    PartNone(ts, k);
  }

  /** Every equal-key pair is handled as soon as each key's own two entries are. */
  lemma HandledColumns(level: seq<Sst>, u: Sst, master: int)
    requires Disjoint(level) && WellFormed(u)
    requires forall k :: HandledPair(Head(One(u, k), master), Head(Part(level, k), master))
    ensures ArmsHandled(level, u, master)
  {
    var up, lo := UpperStream(u, master), Stream(LowerTables(level, u), master);
    forall i, j | 0 <= i < |up| && 0 <= j < |lo| && up[i].key == lo[j].key
      ensures Handled(up[i].value, lo[j].value)
    {
      var k := up[i].key;
      UpperLookup(u, master, k);
      LowerOrdered(level, u, master);
      LowerLookup(level, u, master, k);
      LookupAt(up, i);
      LookupAt(lo, j);
      if Part(Others(level, u), k) != [] { UninvolvedKey(level, u, k); }
      SplitPart(level, u, k);
      assert HandledPair(Head(One(u, k), master), Head(Part(level, k), master));
    }
  }

  /** How a compaction rewrites one key's entries: `us` of the upper table and `ls` of the level
      below become `ns`, either untouched or as one entry tagged with the master sync ID. */
  ghost predicate Combined(us: seq<Entry>, ls: seq<Entry>, ns: seq<Entry>, master: int) {
    || (us == [] && ns == ls)
    || (&& |us| <= 1 && |ls| <= 1
        && HandledPair(Head(us, master), Head(ls, master))
        && var o := Over(Head(us, master), Head(ls, master));
           ns == if o.Some? then [Entry(o.value, master)] else [])
  }

  lemma CompactedPart(level: seq<Sst>, u: Sst, master: int, cap: nat, nextId: int, k: Key)
    requires Disjoint(level) && WellFormed(u) && cap > 0
    requires ArmsHandled(level, u, master)
    ensures Combined(One(u, k), Part(level, k), Part(CompactedLevel(level, u, master, cap, nextId), k), master)
  {
    var rs := Merged(level, u, master);
    UpperLookup(u, master, k);
    LowerOrdered(level, u, master);
    LowerLookup(level, u, master, k);
    MergePreserves(UpperStream(u, master), Stream(LowerTables(level, u), master), k);
    CreatedPart(rs, cap, master, nextId, k);
    PartConcat(Others(level, u), Created(rs, cap, master, nextId), k);
    SplitPart(level, u, k);
    if Part(Others(level, u), k) != [] {
      UninvolvedKey(level, u, k);
      assert Part(Created(rs, cap, master, nextId), k) == [];
    } else {
      assert Part(CompactedLevel(level, u, master, cap, nextId), k) == Part(Created(rs, cap, master, nextId), k);
    }
  }

  /** Values held before equal values held after plus values reported as dropped. */
  lemma CompactionConserves(level: seq<Sst>, u: Sst, master: int, cap: nat, nextId: int, k: Key, v: Value)
    requires Disjoint(level) && WellFormed(u) && cap > 0
    requires ArmsHandled(level, u, master)
    ensures Live(Part(CompactedLevel(level, u, master, cap, nextId), k), v)
            + Drops(CompactionDrops(level, u, master), k, v)
            == Live(One(u, k), v) + Live(Part(level, k), v)
  {
    var rs := Merged(level, u, master);
    var up, lo := UpperStream(u, master), Stream(LowerTables(level, u), master);
    UpperLookup(u, master, k);
    LowerOrdered(level, u, master);
    LowerLookup(level, u, master, k);
    StreamConserves(LowerTables(level, u), master, k, v);
    UpperConserves(u, master, k, v);
    MergePreserves(up, lo, k);
    MergeConserves(up, lo, k, v);
    CreatedPart(rs, cap, master, nextId, k);
    PartConcat(Others(level, u), Created(rs, cap, master, nextId), k);
    LiveConcat(Part(Created(rs, cap, master, nextId), k), Part(Others(level, u), k), v);
    LiveOption(Lookup(rs, k), master, v);
    SplitLive(level, u, k, v);
    CompactionDropsCount(level, u, master, k, v);
  }

  lemma CompactionDropsCount(level: seq<Sst>, u: Sst, master: int, k: Key, v: Value)
    requires Disjoint(level) && WellFormed(u)
    requires ArmsHandled(level, u, master)
    ensures Drops(CompactionDrops(level, u, master), k, v) ==
            Drops(ScanDrops(u.records, master > u.syncId, |u.records|), k, v)
            + Drops(StreamDrops(LowerTables(level, u), master), k, v)
            + Drops(MergeDrops(UpperStream(u, master), Stream(LowerTables(level, u), master)), k, v)
  {
    var a := ScanDrops(u.records, master > u.syncId, |u.records|);
    var b := StreamDrops(LowerTables(level, u), master);
    DropsConcat(a, b, k, v);
    DropsConcat(a + b, MergeDrops(UpperStream(u, master), Stream(LowerTables(level, u), master)), k, v);
  }

  lemma LiveOption(e: Option<ValueEx>, syncId: int, v: Value)
    ensures Live(if e.Some? then [Entry(e.value, syncId)] else [], v) == UsesOpt(e, v)
  {
  }

  lemma UpperConserves(u: Sst, master: int, k: Key, v: Value)
    requires WellFormed(u)
    ensures UsesOpt(Lookup(UpperStream(u, master), k), v)
            + Drops(ScanDrops(u.records, master > u.syncId, |u.records|), k, v) == Live(One(u, k), v)
  {
    ScanLookup(u.records, master > u.syncId, k);
    ScanDropsCount(u.records, master > u.syncId, k, v);
    var e := Lookup(u.records, k);
    LiveOption(e, u.syncId, v);
    if e.Some? { PromoteConserves(e.value, master > u.syncId, v); }
  }

  lemma LivePartCons(t: Sst, ts: seq<Sst>, k: Key, v: Value)
    ensures Live(Part([t] + ts, k), v) == Live(Part(ts, k), v) + Live(One(t, k), v)
  {
    PartCons(t, ts, k);
    LiveConcat(Part(ts, k), One(t, k), v);
  }

  lemma {:induction false} SplitLive(level: seq<Sst>, u: Sst, k: Key, v: Value)
    requires u.records != []
    requires forall i :: 0 <= i < |level| ==> level[i].records != []
    ensures Live(Part(Overlapped(level, u), k), v) + Live(Part(Others(level, u), k), v) == Live(Part(level, k), v)
  {
    if level != [] {
      var t, rest := level[0], level[1..];
      SplitLive(rest, u, k, v);
      assert level == [t] + rest;
      LivePartCons(t, rest, k, v);
      LivePartCons(t, Overlapped(rest, u), k, v);
      LivePartCons(t, Others(rest, u), k, v);
      if Overlaps(t, u) {
        assert Overlapped(level, u) == [t] + Overlapped(rest, u);
        assert Others(level, u) == Others(rest, u);
      } else {
        assert Overlapped(level, u) == Overlapped(rest, u);
        assert Others(level, u) == [t] + Others(rest, u);
      }
    }
  }

  /** Every key that takes part lies on one side of an uninvolved table. */
  lemma UninvolvedSide(level: seq<Sst>, u: Sst, master: int, o: Sst) returns (below: bool)
    requires Disjoint(level) && WellFormed(u) && o in Others(level, u)
    requires ArmsHandled(level, u, master)
    ensures WellFormed(o)
    ensures forall n :: 0 <= n < |Merged(level, u, master)| ==>
              if below then Merged(level, u, master)[n].key < First(o) else Merged(level, u, master)[n].key > Last(o)
  {
    var os := Others(level, u);
    var i :| 0 <= i < |os| && os[i] == o;
    assert o in level;
    WellFormedRange(o);
    below := First(o) > Last(u);
    var rs := Merged(level, u, master);
    forall n | 0 <= n < |rs| ensures if below then rs[n].key < First(o) else rs[n].key > Last(o) {
      var k := rs[n].key;
      UpperLookup(u, master, k);
      LowerOrdered(level, u, master);
      LowerLookup(level, u, master, k);
      MergePreserves(UpperStream(u, master), Stream(LowerTables(level, u), master), k);
      LookupMember(rs, k);
      FoundWithin(u, k);
      if One(u, k) == [] { LowerSide(level, u, o, k); }
    }
  }

  lemma LowerSide(level: seq<Sst>, u: Sst, o: Sst, k: Key)
    requires Disjoint(level) && WellFormed(u) && o in Others(level, u)
    requires Part(Overlapped(level, u), k) != []
    ensures WellFormed(o)
    ensures if First(o) > Last(u) then k < First(o) else k > Last(o)
  {
    var os, ts := Others(level, u), Overlapped(level, u);
    if forall i :: 0 <= i < |ts| ==> Lookup(ts[i].records, k).None? { PartNone(ts, k); }
    var i :| 0 <= i < |ts| && Lookup(ts[i].records, k).Some?;
    var t := ts[i];
    assert t in level && o in level;
    var a :| 0 <= a < |level| && level[a] == o;
    var b :| 0 <= b < |level| && level[b] == t;
    FoundWithin(t, k);
    WellFormedRange(o);
    WellFormedRange(t);
    var j :| 0 <= j < |os| && os[j] == o;
    assert !Overlaps(o, u) && Overlaps(t, u);
    assert a != b;
  }

  /** Compaction keeps the key ranges of the lower level pairwise disjoint, although the merged
      output may reach beyond the upper table's own range. */
  lemma CompactedDisjoint(level: seq<Sst>, u: Sst, master: int, cap: nat, nextId: int)
    requires Disjoint(level) && WellFormed(u) && cap > 0
    requires ArmsHandled(level, u, master)
    ensures Disjoint(CompactedLevel(level, u, master, cap, nextId))
  {
    var rs := Merged(level, u, master);
    var os, cs := Others(level, u), Created(rs, cap, master, nextId);
    OthersDisjoint(level, u);
    UpperLookup(u, master, 0);
    LowerOrdered(level, u, master);
    MergePreserves(UpperStream(u, master), Stream(LowerTables(level, u), master), 0);
    CreatedOrdered(rs, cap, master, nextId);
    OrderedDisjoint(cs);
    forall i, j | 0 <= i < |os| && 0 <= j < |cs| ensures !Overlaps(os[i], cs[j]) && !Overlaps(cs[j], os[i]) {
      assert os[i] in os;
      var below := UninvolvedSide(level, u, master, os[i]);
      CreatedKeys(rs, cap, master, nextId, j);
    }
    DisjointConcat(os, cs);
  }

  lemma DisjointConcat(a: seq<Sst>, b: seq<Sst>)
    requires Disjoint(a) && Disjoint(b)
    requires forall i, j :: 0 <= i < |a| && 0 <= j < |b| ==> !Overlaps(a[i], b[j]) && !Overlaps(b[j], a[i])
    ensures Disjoint(a + b)
  {
  }
}
