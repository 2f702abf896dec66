/** Building a Merkle tree, from scratch or on top of a previous root (`TreeBuilder`,
    `PreviousBuild`). */
module MhtBuild {
  import opened Common
  import opened Arithmetic
  import opened MhtShape

  // ---- Height of the root ------------------------------------------------------------------------

  /** Integer logarithm to the base of the branching. */
  function Ilog(n: nat): (r: nat)
    requires n > 0
    ensures Max(r) <= n < Max(r + 1)
  {
    if n < MHT_NBRANCHES then 0
    else
      FloorIff(n, MHT_NBRANCHES, 1);
      FloorLess(n, MHT_NBRANCHES);
      var r := Ilog(n / MHT_NBRANCHES);
      FloorIff(n, MHT_NBRANCHES, Max(r));
      FloorIff(n, MHT_NBRANCHES, Max(r + 1));
      r + 1
  }

  lemma FloorLess(n: nat, m: nat)
    requires n > 0 && m >= 2
    ensures n / m < n
  {
    FloorIff(n, m, n);
    MulLe(2, m, n);
    assert m * n == n * m;
  }

  /** `calc_target_height`. */
  function TargetHeight(n: nat): nat
    requires n > 0
  {
    var t := Ilog(n);
    if Max(t) < n || t == 0 then t + 1 else t
  }

  lemma MaxGrows(h: nat, g: nat)
    requires h < g
    ensures Max(h) < Max(g)
    decreases g
  {
    MulLe(2, MHT_NBRANCHES, Max(g - 1));
    assert Max(g - 1) * MHT_NBRANCHES == MHT_NBRANCHES * Max(g - 1);
    if h < g - 1 { MaxGrows(h, g - 1); }
  }

  /** The least height, but at least 1, whose full tree has room for `n` data nodes. */
  lemma TargetHeightLeast(n: nat, h: nat)
    requires n > 0 && h >= 1
    ensures h >= TargetHeight(n) <==> Max(h) >= n
    ensures TargetHeight(n) >= 1
  {
    var t := Ilog(n);
    if h < t { MaxGrows(h, t); }
    if h > t + 1 { MaxGrows(t + 1, h); }
  }

  lemma OneRoot(n: nat)
    requires n > 0
    ensures Width(n, TargetHeight(n)) == 1
  {
    var t := TargetHeight(n);
    TargetHeightLeast(n, t);
    CeilIff(n, Max(t), 0);
    CeilIff(n, Max(t), 1);
  }

  /** The tree over some data. */
  function Root<D>(ds: seq<D>): Tree<D>
    requires |ds| > 0
  {
    OneRoot(|ds|);
    Level(ds, TargetHeight(|ds|))[0]
  }

  // ---- The previous build --------------------------------------------------------------------------

  predicate IsIncomplete<D>(t: Tree<D>)
    requires t.Mht?
  {
    t.numData != Max(t.height)
  }

  /** The test is exact for nodes of height 1 and 2 only. */
  function NumCompleteChildren<D>(t: Tree<D>): int
    requires t.Mht?
  {
    if t.numData % MHT_NBRANCHES == 0 || t.height == 1 then |t.entries| else |t.entries| - 1
  }

  /** A tree whose last spine can be walked. */
  predicate Walkable<D>(t: Tree<D>) {
    t.Mht? && t.height >= 1 && |t.entries| > 0
    && (t.height > 1 ==> Walkable(t.entries[|t.entries| - 1]) && t.entries[|t.entries| - 1].height == t.height - 1)
  }

  /** The incomplete node of height `h` at the end of the tree below `t`, if the nodes down to it are
      all incomplete. */
  function Spine<D>(t: Tree<D>, h: nat): Option<Tree<D>>
    requires Walkable(t)
    decreases t
  {
    if !IsIncomplete(t) then None
    else if t.height == h then Some(t)
    else if t.height == 1 then None
    else Spine(t.entries[|t.entries| - 1], h)
  }

  /** `PreviousBuild::target_node`. */
  function TargetNode<D>(root: Tree<D>, h: nat): Option<Tree<D>>
    requires Walkable(root)
  {
    if h == root.height then Some(root) else Spine(root, h)
  }

  /** The nodes by height are exactly the incomplete ones on the last spine. */
  ghost predicate Collected<D>(root: Tree<D>, nodes: map<nat, Tree<D>>)
    requires Walkable(root)
  {
    && (forall h: nat :: h < root.height ==> (if h in nodes then Some(nodes[h]) else None) == Spine(root, h))
    && (forall h :: h in nodes ==> h < root.height)
  }

  /** The loop of `collect_incomplete_nodes`. */
  method CollectIncomplete<D>(root: Tree<D>) returns (nodes: map<nat, Tree<D>>)
    requires Walkable(root)
    ensures Collected(root, nodes)
  {
    nodes := map[];
    if !IsIncomplete(root) || root.height == 1 { return; }
    var lookup := root.entries[|root.entries| - 1];
    while IsIncomplete(lookup)
      invariant Walkable(lookup) && lookup.height < root.height
      invariant forall h :: h in nodes ==> lookup.height < h < root.height
      invariant forall h: nat :: lookup.height < h < root.height ==> (if h in nodes then Some(nodes[h]) else None) == Spine(root, h)
      invariant forall h: nat :: h <= lookup.height ==> Spine(root, h) == Spine(lookup, h)
      decreases lookup
    {
      nodes := nodes[lookup.height := lookup];
      if lookup.height == 1 { break; }
      lookup := lookup.entries[|lookup.entries| - 1];
    }
  }

  // ---- Building the levels -------------------------------------------------------------------------

  /** The entries of the previous build that take part in level `h`. */
  function Taken<D>(prev: Option<Tree<D>>, h: nat): seq<Tree<D>>
    requires prev.Some? ==> Walkable(prev.value)
  {
    if prev.None? || TargetNode(prev.value, h).None? then []
    else
      SpineWalkable(prev.value, h);
      var node := TargetNode(prev.value, h).value;
      node.entries[..NumCompleteChildren(node)]
  }

  lemma {:induction false} SpineWalkable<D>(t: Tree<D>, h: nat)
    requires Walkable(t)
    ensures Spine(t, h).Some? ==> Walkable(Spine(t, h).value)
    decreases t
  {
    if IsIncomplete(t) && t.height != h && t.height != 1 { SpineWalkable(t.entries[|t.entries| - 1], h); }
  }

  /** `build_hierarchy`. There is no result when a level is empty, for then its node buffer cannot be
      allocated, or when the top level is not a single node. */
  function BuildHierarchy<D>(prev: Option<Tree<D>>, entries: seq<Tree<D>>, total: nat, h: nat, target: nat): Option<Tree<D>>
    requires prev.Some? ==> Walkable(prev.value)
    requires h <= target
    decreases target - h
  {
    var nodes := Grouped(Taken(prev, h) + entries, total, h);
    if h == target then (if |nodes| == 1 then Some(nodes[0]) else None)
    else if nodes == [] then None
    else BuildHierarchy(prev, nodes, total, h + 1, target)
  }

  function DataEntries<D>(ds: seq<D>): (r: seq<Tree<D>>)
    ensures |r| == |ds| && forall i :: 0 <= i < |ds| ==> r[i] == Data(ds[i])
  {
    seq(|ds|, i requires 0 <= i < |ds| => Data(ds[i]))
  }

  /** `TreeBuilder::build` for the data appended behind `prev`. */
  function Build<D>(prev: Option<Tree<D>>, entries: seq<Tree<D>>): Option<Tree<D>>
    requires prev.Some? ==> Walkable(prev.value)
    requires |entries| > 0 || (prev.Some? && prev.value.numData > 0)
  {
    var total := |entries| + if prev.Some? then prev.value.numData else 0;
    TargetHeightLeast(total, 1);
    BuildHierarchy(prev, entries, total, 1, TargetHeight(total))
  }

  lemma {:induction false} SpineAbove<D>(t: Tree<D>, h: nat)
    requires Walkable(t) && h > t.height
    ensures Spine(t, h) == None
    decreases t
  {
    if t.height > 1 { SpineAbove(t.entries[|t.entries| - 1], h); }
  }

  /** The builder at work: it collects the incomplete nodes of the previous tree once and then builds level
      after level. */
  method BuildTree<D>(prev: Option<Tree<D>>, newEntries: seq<Tree<D>>) returns (r: Option<Tree<D>>)
    requires prev.Some? ==> Walkable(prev.value)
    requires |newEntries| > 0 || (prev.Some? && prev.value.numData > 0)
    ensures r == Build(prev, newEntries)
  {
    hide Spine, Grouped, Max;
    var incomplete: map<nat, Tree<D>> := map[];
    if prev.Some? { incomplete := CollectIncomplete(prev.value); }
    var total := |newEntries| + if prev.Some? then prev.value.numData else 0;
    var target := TargetHeight(total);
    TargetHeightLeast(total, 1);
    var entries, h := newEntries, 1;
    while h < target
      invariant 1 <= h <= target
      invariant Build(prev, newEntries) == BuildHierarchy(prev, entries, total, h, target)
    {
      var taken := TakenEntries(prev, incomplete, h);
      var nodes := BuildNodes(taken + entries, total, h);
      if nodes == [] { return None; }
      entries, h := nodes, h + 1;
    }
    var taken := TakenEntries(prev, incomplete, h);
    var nodes := BuildNodes(taken + entries, total, h);
    r := if |nodes| == 1 then Some(nodes[0]) else None;
  }

  /** The complete children of the previous node of height `h`, if it takes part. */
  method TakenEntries<D>(prev: Option<Tree<D>>, incomplete: map<nat, Tree<D>>, h: nat) returns (es: seq<Tree<D>>)
    requires prev.Some? ==> Walkable(prev.value) && Collected(prev.value, incomplete)
    ensures es == Taken(prev, h)
  {
    if prev.None? { return []; }
    SpineWalkable(prev.value, h);
    if h == prev.value.height {
      es := prev.value.entries[..NumCompleteChildren(prev.value)];
    } else {
      if h > prev.value.height { SpineAbove(prev.value, h); }
      if h !in incomplete { return []; }
      es := incomplete[h].entries[..NumCompleteChildren(incomplete[h])];
    }
  }

  // ---- Building on top equals building anew ------------------------------------------------------------

  lemma LevelZero<D>(ds: seq<D>)
    ensures Level(ds, 0) == DataEntries(ds)
  {
    assert Width(|ds|, 0) == |ds|;
    forall i | 0 <= i < |ds| ensures Level(ds, 0)[i] == Data(ds[i]) { LevelAt(ds, 0, i); }
  }

  /** Nodes whose data is complete are the same in any longer tree. */
  lemma {:induction false} StableNode<D>(old0: seq<D>, ds: seq<D>, h: nat, i: nat)
    requires old0 <= ds && (i + 1) * Max(h) <= |old0|
    ensures i * Max(h) < |old0| && NodeAt(old0, h, i) == NodeAt(ds, h, i)
    decreases h
  {
    var p := Max(h);
    assert (i + 1) * p == i * p + p;
    if h > 0 {
      var b, c := MHT_NBRANCHES, Max(h - 1);
      var xs, ys := NodeAt(old0, h, i).entries, NodeAt(ds, h, i).entries;
      forall j | 0 <= j < |xs| ensures xs[j] == ys[j] {
        ChildIff(|old0|, h, i, j);
        ChildStart(h, i, j + 1);
        MulLe(j + 1, b, c);
        assert b * c == p;
        StableNode(old0, ds, h - 1, i * b + j);
      }
    }
  }

  lemma Divides(n: nat, h: nat, g: nat)
    requires h <= g && n % Max(g) == 0
    ensures n % Max(h) == 0
    decreases g
  {
    if h < g {
      var b, p := MHT_NBRANCHES, Max(g - 1);
      DivMod(n, Max(g));
      assert Max(g) == b * p;
      MulAssoc(n / Max(g), b, p);
      Remainder(n, n / Max(g) * b, 0, p);
      Divides(n, h, g - 1);
    }
  }

  /** A tree over `n` data nodes can be built on: no node on its last spine is mistaken for one with
      complete children only. */
  predicate Extendable(n: nat)
    requires n > 0
  {
    TargetHeightLeast(n, 1);
    n % MHT_NBRANCHES != 0 || n % Max(TargetHeight(n) - 1) == 0
  }

  /** The first node of level `h` that is rebuilt on top of a tree of `n` data nodes. */
  function Start(n: nat, h: nat): nat
    requires n > 0
  {
    FloorIff(n, Max(h), 0);
    if h < TargetHeight(n) then n / Max(h) else 0
  }

  lemma CeilFloor(n: nat, p: nat)
    requires p > 0
    ensures Ceil(n, p) == if n % p == 0 then n / p else n / p + 1
  {
    DivMod(n, p);
    var q := n / p;
    CeilIff(n, p, q - 1);
    CeilIff(n, p, q);
    CeilIff(n, p, q + 1);
    assert (q - 1) * p == q * p - p && (q + 1) * p == q * p + p;
  }

  /** The last node of a level. */
  function Last<D>(ds: seq<D>, h: nat): Tree<D>
    requires |ds| > 0
  {
    LastBelow(|ds|, h);
    NodeAt(ds, h, Width(|ds|, h) - 1)
  }

  lemma LastCounts<D>(ds: seq<D>, h: nat)
    requires |ds| > 0 && h > 0
    ensures var t := Last(ds, h);
            && t.Mht? && t.height == h && t.numData == LastCount(|ds|, h)
            && (IsIncomplete(t) <==> |ds| % Max(h) != 0)
  {
    hide Max, Width;
    LastBelow(|ds|, h);
    LastComplete(|ds|, h);
  }

  lemma LastComplete(n: nat, h: nat)
    ensures LastCount(n, h) == Max(h) <==> n % Max(h) == 0
  {
    hide Max;
    DivMod(n, Max(h));
  }

  lemma LastIsNode<D>(ds: seq<D>, h: nat)
    requires |ds| > 0 && h > 0
    ensures Last(ds, h).Mht?
  {
  }

  /** Its children are the end of the level below. */
  lemma LastEntries<D>(ds: seq<D>, h: nat)
    requires |ds| > 0 && h > 0
    ensures var from := (Width(|ds|, h) - 1) * MHT_NBRANCHES;
            && 0 <= from < Width(|ds|, h - 1)
            && Last(ds, h).Mht? && Last(ds, h).entries == Level(ds, h - 1)[from..]
  {
    hide NodeAt, Level, Max, Width;
    var n := |ds|;
    var w, v := Width(n, h), Width(n, h - 1);
    LastBelow(n, h);
    LastIsNode(ds, h);
    NodeEntries(ds, h, w - 1);
    WidthAbove(n, h);
    CeilIff(v, MHT_NBRANCHES, w);
    assert w * MHT_NBRANCHES == (w - 1) * MHT_NBRANCHES + MHT_NBRANCHES;
    MulLe(0, w - 1, MHT_NBRANCHES);
  }

  lemma LastOfLevel<D>(ds: seq<D>, h: nat)
    requires |ds| > 0
    ensures Width(|ds|, h) > 0 && Level(ds, h)[Width(|ds|, h) - 1] == Last(ds, h)
  {
    LastBelow(|ds|, h);
    LevelAt(ds, h, Width(|ds|, h) - 1);
  }

  /** The last node covers the remainder, and its last child is the last node of the level below. */
  lemma LastShape<D>(ds: seq<D>, h: nat)
    requires |ds| > 0 && h > 0
    ensures var t := Last(ds, h);
            && t.Mht? && t.height == h && t.numData == LastCount(|ds|, h)
            && (IsIncomplete(t) <==> |ds| % Max(h) != 0)
            && 0 <= (Width(|ds|, h) - 1) * MHT_NBRANCHES < Width(|ds|, h - 1)
            && t.entries == Level(ds, h - 1)[(Width(|ds|, h) - 1) * MHT_NBRANCHES..]
            && t.entries[|t.entries| - 1] == Last(ds, h - 1)
  {
    hide NodeAt, Level, Last;
    LastCounts(ds, h);
    LastEntries(ds, h);
    LastOfLevel(ds, h - 1);
  }

  lemma {:induction false} LastWalkable<D>(ds: seq<D>, h: nat)
    requires |ds| > 0 && h > 0
    ensures Walkable(Last(ds, h))
  {
    hide NodeAt, Level, Last;
    LastShape(ds, h);
    if h > 1 {
      LastWalkable(ds, h - 1);
      LastShape(ds, h - 1);
    }
  }

  /** Walking down from the last node of height `g` finds the last node of height `h` if that is
      incomplete. */
  lemma {:induction false} SpineFinds<D>(ds: seq<D>, g: nat, h: nat)
    requires |ds| > 0 && g > 0 && h > 0
    ensures Walkable(Last(ds, g))
    ensures Spine(Last(ds, g), h) == if h <= g && |ds| % Max(h) != 0 then Some(Last(ds, h)) else None
    decreases g
  {
    hide NodeAt, Level, Last;
    LastWalkable(ds, g);
    LastShape(ds, g);
    if |ds| % Max(g) == 0 {
      if h <= g { Divides(|ds|, h, g); }
    } else if g != h && g > 1 {
      SpineFinds(ds, g - 1, h);
    }
  }

  lemma RootIsLast<D>(ds: seq<D>)
    requires |ds| > 0
    ensures TargetHeight(|ds|) >= 1 && Root(ds) == Last(ds, TargetHeight(|ds|)) && Walkable(Root(ds))
    ensures Root(ds).height == TargetHeight(|ds|) && Root(ds).numData == |ds|
  {
    var k := TargetHeight(|ds|);
    TargetHeightLeast(|ds|, k);
    OneRoot(|ds|);
    LevelAt(ds, k, 0);
    LastWalkable(ds, k);
    LastShape(ds, k);
    LastBelow(|ds|, k);
  }

  /** The nodes of the previous build that are reopened: the root and, below it, incomplete ends. */
  predicate Reopened(n: nat, h: nat)
    requires n > 0
  {
    h == TargetHeight(n) || (h < TargetHeight(n) && n % Max(h) != 0)
  }

  /** Where the entries taken from the last node of level `h` end in the level below. */
  function TakenEnd(n: nat, h: nat): int
    requires h > 0
  {
    if n % MHT_NBRANCHES == 0 || h == 1 then Width(n, h - 1) else Width(n, h - 1) - 1
  }

  lemma RemainderMod(n: nat, h: nat)
    requires h > 0 && n > 0
    ensures LastCount(n, h) % MHT_NBRANCHES == 0 <==> n % MHT_NBRANCHES == 0
  {
    var b, p := MHT_NBRANCHES, Max(h);
    LastBelow(n, h);
    var q, c := Width(n, h) - 1, LastCount(n, h);
    var m := Max(h - 1);
    MulAssoc(q, m, b);
    DivMod(c, b);
    assert n == q * m * b + c;
    assert (q * m + c / b) * b == q * m * b + c / b * b;
    Remainder(n, q * m + c / b, c % b, b);
  }

  /** What level `h` takes over from the previous tree. */
  lemma TakenSlice<D>(ds: seq<D>, h: nat)
    requires |ds| > 0 && h > 0
    ensures Walkable(Root(ds))
    ensures !Reopened(|ds|, h) ==> Taken(Some(Root(ds)), h) == []
    ensures Reopened(|ds|, h) ==>
              var from := (Width(|ds|, h) - 1) * MHT_NBRANCHES;
              0 <= from <= TakenEnd(|ds|, h) <= Width(|ds|, h - 1)
              && Taken(Some(Root(ds)), h) == Level(ds, h - 1)[from..TakenEnd(|ds|, h)]
  {
    hide NodeAt, Level, Last, Root, Walkable, Spine, TargetHeight, Width, LastCount;
    var n := |ds|;
    RootIsLast(ds);
    SpineFinds(ds, TargetHeight(n), h);
    if Reopened(n, h) {
      LastShape(ds, h);
      LastBelow(n, h);
      RemainderMod(n, h);
      var t := Last(ds, h);
      assert TargetNode(Root(ds), h) == Some(t);
      assert t.entries[..NumCompleteChildren(t)] == Level(ds, h - 1)[(Width(n, h) - 1) * MHT_NBRANCHES..TakenEnd(n, h)];
    }
  }

  lemma DividesBranching(n: nat, h: nat)
    requires h >= 1 && n % Max(h) == 0
    ensures n % MHT_NBRANCHES == 0
  {
    Divides(n, 1, h);
    assert Max(1) == Max(0) * MHT_NBRANCHES;
  }

  /** A level that is not reopened starts where the level below does. */
  lemma StartUnopened(n: nat, h: nat)
    requires n > 0 && h > 0 && !Reopened(n, h)
    ensures Start(n, h) * MHT_NBRANCHES == Start(n, h - 1)
  {
    if h < TargetHeight(n) {
      var b, p := MHT_NBRANCHES, Max(h - 1);
      DivMod(n, Max(h));
      assert Max(h) == b * p;
      MulAssoc(n / Max(h), b, p);
      Remainder(n, n / Max(h) * b, 0, p);
    }
  }

  lemma StartReopened(n: nat, h: nat)
    requires n > 0 && h > 0 && Reopened(n, h)
    ensures Width(n, h) - 1 == Start(n, h)
    ensures Start(n, h - 1) == n / Max(h - 1)
  {
    if h == TargetHeight(n) { OneRoot(n); } else { CeilFloor(n, Max(h)); }
  }

  /** In an extendable tree exactly the complete children are taken over. */
  lemma TakenComplete(n: nat, h: nat)
    requires n > 0 && h > 0 && Reopened(n, h) && Extendable(n)
    ensures TakenEnd(n, h) == n / Max(h - 1)
  {
    CeilFloor(n, Max(h - 1));
    if h == 1 {
    } else if n % MHT_NBRANCHES == 0 {
      Divides(n, h - 1, TargetHeight(n) - 1);
    } else if n % Max(h - 1) == 0 {
      DividesBranching(n, h - 1);
    }
  }

  lemma StableLevel<D>(old0: seq<D>, ds: seq<D>, h: nat, i: nat)
    requires old0 <= ds && i < |old0| / Max(h)
    ensures i < Width(|old0|, h) && i < Width(|ds|, h) && Level(old0, h)[i] == Level(ds, h)[i]
  {
    FloorIff(|old0|, Max(h), i + 1);
    StableNode(old0, ds, h, i);
    CeilIff(|old0|, Max(h), i);
    CeilIff(|ds|, Max(h), i);
    LevelAt(old0, h, i);
    LevelAt(ds, h, i);
  }

  lemma StartBounded(n: nat, total: nat, h: nat)
    requires 0 < n <= total
    ensures Start(n, h) * Max(h) <= n
    ensures Start(n, h) <= Width(total, h)
  {
    FloorIff(n, Max(h), Start(n, h));
    CeilIff(total, Max(h), Start(n, h) - 1);
    assert (Start(n, h) - 1) * Max(h) == Start(n, h) * Max(h) - Max(h);
  }

  /** The entries taken over fill the gap between the rebuilt nodes of two levels. */
  lemma TakenRight<D>(old0: seq<D>, ds: seq<D>, h: nat)
    requires 0 < |old0| && old0 <= ds && h > 0 && Extendable(|old0|)
    ensures Walkable(Root(old0))
    ensures 0 <= Start(|old0|, h) * MHT_NBRANCHES <= Start(|old0|, h - 1) <= Width(|ds|, h - 1)
    ensures Taken(Some(Root(old0)), h) == Level(ds, h - 1)[Start(|old0|, h) * MHT_NBRANCHES..Start(|old0|, h - 1)]
  {
    hide NodeAt, Level, Root, Walkable, Spine, TargetHeight, Width, Start, Taken, TakenEnd, Extendable;
    var n := |old0|;
    TakenSlice(old0, h);
    StartBounded(n, |ds|, h - 1);
    MulLe(0, Start(n, h), MHT_NBRANCHES);
    if Reopened(n, h) {
      StartReopened(n, h);
      TakenComplete(n, h);
      StartBounded(n, n, h - 1);
      var xs, ys := Level(old0, h - 1), Level(ds, h - 1);
      forall i | 0 <= i < Start(n, h - 1) ensures xs[i] == ys[i] {
        StableLevel(old0, ds, h - 1, i);
      }
    } else {
      StartUnopened(n, h);
    }
  }

  /** More data, or an incomplete last leaf node, or a single node: then every level has something to
      build. */
  predicate Buildable(n: nat, total: nat)
    requires 0 < n <= total
  {
    n < total || n % MHT_NBRANCHES != 0 || TargetHeight(n) == 1
  }

  lemma LevelNonEmpty(n: nat, total: nat, h: nat)
    requires 0 < n <= total && Buildable(n, total) && 1 <= h < TargetHeight(total)
    ensures Start(n, h) < Width(total, h)
  {
    StartBounded(n, total, h);
    CeilIff(total, Max(h), Start(n, h));
    if n == total && Start(n, h) * Max(h) == n {
      Remainder(n, Start(n, h), 0, Max(h));
      DividesBranching(n, h);
    }
  }

  lemma TallerTarget(n: nat, total: nat)
    requires 0 < n <= total
    ensures TargetHeight(n) <= TargetHeight(total)
  {
    TargetHeightLeast(total, TargetHeight(total));
    TargetHeightLeast(n, TargetHeight(total));
  }

  /** From level `h` on, building on top continues as a build from scratch would. */
  lemma {:induction false} BuildRight<D>(old0: seq<D>, ds: seq<D>, h: nat)
    requires 0 < |old0| && old0 <= ds && Extendable(|old0|) && Buildable(|old0|, |ds|)
    requires 1 <= h <= TargetHeight(|ds|)
    ensures Walkable(Root(old0)) && Start(|old0|, h - 1) <= Width(|ds|, h - 1)
    ensures BuildHierarchy(Some(Root(old0)), Level(ds, h - 1)[Start(|old0|, h - 1)..], |ds|, h, TargetHeight(|ds|)) == Some(Root(ds))
    decreases TargetHeight(|ds|) - h
  {
    hide NodeAt, Level, Walkable, Spine, TargetHeight, Width, Taken, Extendable, Buildable, Start;
    var n, total := |old0|, |ds|;
    var a, b := Start(n, h) * MHT_NBRANCHES, Start(n, h - 1);
    TakenRight(old0, ds, h);
    var below := Level(ds, h - 1);
    assert below[a..b] + below[b..] == below[a..];
    GroupedLevel(ds, h, Start(n, h));
    if h < TargetHeight(total) {
      LevelNonEmpty(n, total, h);
      BuildRight(old0, ds, h + 1);
    } else {
      TopStart(n, total);
      OneRoot(total);
      assert Level(ds, h)[0..] == Level(ds, h);
    }
  }

  lemma TopStart(n: nat, total: nat)
    requires 0 < n <= total
    ensures Start(n, TargetHeight(total)) == 0
  {
    TallerTarget(n, total);
  }

  // ---- When building on top goes wrong ---------------------------------------------------------------

  /** Data nodes below a tree. */
  function Leaves<D>(t: Tree<D>): nat
    decreases t
  {
    match t
    case Data(_) => 1
    case Mht(_, _, entries) => LeavesAll(entries)
    case Invalid => 0
  }

  function LeavesAll<D>(ts: seq<Tree<D>>): nat
    decreases ts
  {
    if ts == [] then 0 else LeavesAll(ts[..|ts| - 1]) + Leaves(ts[|ts| - 1])
  }

  lemma {:induction false} LeavesConcat<D>(ts: seq<Tree<D>>, us: seq<Tree<D>>)
    ensures LeavesAll(ts + us) == LeavesAll(ts) + LeavesAll(us)
  {
    if us == [] {
      assert ts + us == ts;
    } else {
      assert (ts + us)[..|ts + us| - 1] == ts + us[..|us| - 1];
      LeavesConcat(ts, us[..|us| - 1]);
    }
  }

  /** The first `i` groups of `n` entries end here. */
  function GroupEnd(n: nat, i: nat): nat {
    if i * MHT_NBRANCHES < n then i * MHT_NBRANCHES else n
  }

  lemma GroupEntries<D>(entries: seq<Tree<D>>, total: nat, h: nat, i: nat)
    requires i < Ceil(|entries|, MHT_NBRANCHES)
    ensures GroupEnd(|entries|, i) <= GroupEnd(|entries|, i + 1) <= |entries|
    ensures Grouped(entries, total, h)[i].Mht?
    ensures Grouped(entries, total, h)[i].entries == entries[GroupEnd(|entries|, i)..GroupEnd(|entries|, i + 1)]
  {
    CeilIff(|entries|, MHT_NBRANCHES, i);
    assert (i + 1) * MHT_NBRANCHES == i * MHT_NBRANCHES + MHT_NBRANCHES;
  }

  /** Grouping entries into nodes keeps the data below them. */
  lemma {:induction false} GroupedLeaves<D>(entries: seq<Tree<D>>, total: nat, h: nat, i: nat)
    requires i <= Ceil(|entries|, MHT_NBRANCHES)
    ensures LeavesAll(Grouped(entries, total, h)[..i]) == LeavesAll(entries[..GroupEnd(|entries|, i)])
  {
    hide Grouped, GroupEnd;
    var nodes := Grouped(entries, total, h);
    if i == 0 {
      NoGroups(entries);
    } else {
      GroupedLeaves(entries, total, h, i - 1);
      GroupEntries(entries, total, h, i - 1);
      assert nodes[..i][..i - 1] == nodes[..i - 1];
      var from, to := GroupEnd(|entries|, i - 1), GroupEnd(|entries|, i);
      assert entries[..to] == entries[..from] + entries[from..to];
      LeavesConcat(entries[..from], entries[from..to]);
    }
  }

  lemma NoGroups<D>(entries: seq<Tree<D>>)
    ensures entries[..GroupEnd(|entries|, 0)] == []
  {
  }

  lemma GroupedAllLeaves<D>(entries: seq<Tree<D>>, total: nat, h: nat)
    ensures LeavesAll(Grouped(entries, total, h)) == LeavesAll(entries)
  {
    hide Grouped;
    var c := Ceil(|entries|, MHT_NBRANCHES);
    GroupedLeaves(entries, total, h, c);
    CeilIff(|entries|, MHT_NBRANCHES, c);
    assert Grouped(entries, total, h)[..c] == Grouped(entries, total, h);
    assert entries[..|entries|] == entries;
  }

  /** Data below everything that levels `h` to `target` take over. */
  function TakenLeaves<D>(prev: Option<Tree<D>>, h: nat, target: nat): nat
    requires prev.Some? ==> Walkable(prev.value)
    decreases target + 1 - h
  {
    if h > target then 0 else LeavesAll(Taken(prev, h)) + TakenLeaves(prev, h + 1, target)
  }

  /** A finished build covers the new data and all that was taken over. */
  lemma {:induction false} BuildLeaves<D>(prev: Option<Tree<D>>, entries: seq<Tree<D>>, total: nat, h: nat, target: nat)
    requires prev.Some? ==> Walkable(prev.value)
    requires h <= target && BuildHierarchy(prev, entries, total, h, target).Some?
    ensures Leaves(BuildHierarchy(prev, entries, total, h, target).value) == LeavesAll(entries) + TakenLeaves(prev, h, target)
    decreases target - h
  {
    var nodes := Grouped(Taken(prev, h) + entries, total, h);
    GroupedAllLeaves(Taken(prev, h) + entries, total, h);
    LeavesConcat(Taken(prev, h), entries);
    if h < target {
      BuildLeaves(prev, nodes, total, h + 1, target);
    } else {
      assert nodes[..0] == [];
      assert LeavesAll(nodes) == LeavesAll(nodes[..0]) + Leaves(nodes[0]);
      assert TakenLeaves(prev, h + 1, target) == 0;
    }
  }

  /** Data below the first `i` nodes of height `h`. */
  function Reach(n: nat, h: nat, i: nat): nat {
    if i * Max(h) < n then i * Max(h) else n
  }

  lemma {:induction false} LevelLeaves<D>(ds: seq<D>, h: nat, i: nat)
    requires i <= Width(|ds|, h)
    ensures LeavesAll(Level(ds, h)[..i]) == Reach(|ds|, h, i)
    decreases h, i
  {
    if i > 0 {
      var p := Max(h);
      LevelLeaves(ds, h, i - 1);
      LevelAt(ds, h, i - 1);
      assert i * p == (i - 1) * p + p;
      assert Level(ds, h)[..i][..i - 1] == Level(ds, h)[..i - 1];
      NodeLeaves(ds, h, i - 1);
    }
  }

  lemma SliceLeaves<D>(ds: seq<D>, h: nat, i: nat, j: nat)
    requires i <= j <= Width(|ds|, h)
    ensures LeavesAll(Level(ds, h)[i..j]) == Reach(|ds|, h, j) - Reach(|ds|, h, i)
    decreases h, j + 1
  {
    LevelLeaves(ds, h, i);
    LevelLeaves(ds, h, j);
    var level := Level(ds, h);
    assert level[..j] == level[..i] + level[i..j];
    LeavesConcat(level[..i], level[i..j]);
  }

  /** The data below a node is the data below its children. */
  lemma ReachBelow(n: nat, h: nat, i: nat)
    requires h > 0 && i * Max(h) < n
    ensures i * MHT_NBRANCHES < ChildEnd(Width(n, h - 1), i) <= Width(n, h - 1)
    ensures Reach(n, h - 1, ChildEnd(Width(n, h - 1), i)) - Reach(n, h - 1, i * MHT_NBRANCHES) == Below(n, h, i)
  {
    var b, p := MHT_NBRANCHES, Max(h - 1);
    var w := Width(n, h - 1);
    Children(n, h, i);
    ChildStart(h, i, 0);
    ChildStart(h, i, b);
    CeilIff(n, p, w);
    CeilIff(n, p, i * b + b);
    assert b * p == Max(h);
  }

  lemma {:induction false} NodeLeaves<D>(ds: seq<D>, h: nat, i: nat)
    requires i * Max(h) < |ds|
    ensures Leaves(NodeAt(ds, h, i)) == Below(|ds|, h, i)
    decreases h, 0
  {
    if h > 0 {
      ReachBelow(|ds|, h, i);
      NodeEntries(ds, h, i);
      SliceLeaves(ds, h - 1, i * MHT_NBRANCHES, ChildEnd(Width(|ds|, h - 1), i));
    }
  }

  /** Data that a correct level `h` takes over. */
  ghost function Due(n: nat, h: nat): int
    requires n > 0 && h > 0
  {
    Start(n, h - 1) * Max(h - 1) - Start(n, h) * Max(h)
  }

  /** At least that much is taken over; more on the top level of a tree that is not extendable. */
  lemma TakenAtLeastDue<D>(ds: seq<D>, h: nat)
    requires |ds| > 0 && h > 0
    ensures Walkable(Root(ds))
    ensures LeavesAll(Taken(Some(Root(ds)), h)) >= Due(|ds|, h)
    ensures h == TargetHeight(|ds|) && !Extendable(|ds|) ==> LeavesAll(Taken(Some(Root(ds)), h)) > Due(|ds|, h)
  {
    hide NodeAt, Level, Root, Walkable, Spine, TargetHeight, Width, Start, Taken, Leaves, LeavesAll, Reach, Max, TakenEnd, Extendable, Reopened;
    var n := |ds|;
    TakenSlice(ds, h);
    if Reopened(n, h) {
      SliceLeaves(ds, h - 1, (Width(n, h) - 1) * MHT_NBRANCHES, TakenEnd(n, h));
      ReachDue(n, h);
    } else {
      StartUnopened(n, h);
      DueUnopened(n, h);
      RootReopened(n, h);
    }
  }

  lemma RootReopened(n: nat, h: nat)
    requires n > 0 && !Reopened(n, h)
    ensures h != TargetHeight(n)
  {
  }

  lemma DueUnopened(n: nat, h: nat)
    requires n > 0 && h > 0 && Start(n, h) * MHT_NBRANCHES == Start(n, h - 1)
    ensures Due(n, h) == 0
  {
    MulAssoc(Start(n, h), MHT_NBRANCHES, Max(h - 1));
    assert MHT_NBRANCHES * Max(h - 1) == Max(h);
  }

  lemma ReachDue(n: nat, h: nat)
    requires n > 0 && h > 0 && Reopened(n, h)
    requires 0 <= (Width(n, h) - 1) * MHT_NBRANCHES <= TakenEnd(n, h)
    ensures Reach(n, h - 1, TakenEnd(n, h)) - Reach(n, h - 1, (Width(n, h) - 1) * MHT_NBRANCHES) >= Due(n, h)
    ensures h == TargetHeight(n) && !Extendable(n) ==>
              Reach(n, h - 1, TakenEnd(n, h)) - Reach(n, h - 1, (Width(n, h) - 1) * MHT_NBRANCHES) > Due(n, h)
  {
    var b, p := MHT_NBRANCHES, Max(h - 1);
    StartReopened(n, h);
    var q := Start(n, h);
    MulAssoc(q, b, p);
    assert b * p == Max(h);
    StartBounded(n, n, h);
    DivMod(n, p);
    TakenEndEnough(n, h);
    MulLe(n / p, TakenEnd(n, h), p);
    CeilIff(n, p, Width(n, h - 1));
  }

  lemma TakenEndEnough(n: nat, h: nat)
    requires n > 0 && h > 0
    ensures TakenEnd(n, h) >= n / Max(h - 1)
  {
    CeilFloor(n, Max(h - 1));
    if n % MHT_NBRANCHES != 0 && h > 1 && n % Max(h - 1) == 0 { DividesBranching(n, h - 1); }
  }

  /** What a correct build takes over is the whole previous tree. */
  lemma {:induction false} DueAll<D>(ds: seq<D>, h: nat, target: nat)
    requires |ds| > 0 && 0 < h <= target + 1 && target >= TargetHeight(|ds|)
    ensures Walkable(Root(ds))
    ensures TakenLeaves(Some(Root(ds)), h, target) >= Start(|ds|, h - 1) * Max(h - 1)
    ensures !Extendable(|ds|) && h <= TargetHeight(|ds|) ==>
              TakenLeaves(Some(Root(ds)), h, target) > Start(|ds|, h - 1) * Max(h - 1)
    decreases target + 1 - h
  {
    RootIsLast(ds);
    if h <= target {
      TakenAtLeastDue(ds, h);
      DueAll(ds, h + 1, target);
    }
  }

  /** Appending data to a built tree gives the tree over all the data if and only if the previous tree is
      extendable. */
  lemma BuildOnTop<D>(old0: seq<D>, new0: seq<D>)
    requires |old0| > 0 && |new0| > 0
    ensures Walkable(Root(old0)) && Root(old0).numData == |old0|
    ensures Build(Some(Root(old0)), DataEntries(new0)) == Some(Root(old0 + new0)) <==> Extendable(|old0|)
  {
    hide NodeAt, Level, Root, Walkable, Spine, Width, Taken, Leaves, LeavesAll, TakenLeaves, Max, Extendable, BuildHierarchy;
    var ds := old0 + new0;
    RootIsLast(old0);
    TargetHeightLeast(|ds|, 1);
    if Extendable(|old0|) {
      NewEntries(old0, new0);
      BuildRight(old0, ds, 1);
    } else {
      TallerTarget(|old0|, |ds|);
      DueAll(old0, 1, TargetHeight(|ds|));
      DataLeaves(new0);
      RootLeaves(ds);
      StartZero(|old0|);
      var r := BuildHierarchy(Some(Root(old0)), DataEntries(new0), |ds|, 1, TargetHeight(|ds|));
      if r.Some? { BuildLeaves(Some(Root(old0)), DataEntries(new0), |ds|, 1, TargetHeight(|ds|)); }
    }
  }

  lemma StartZero(n: nat)
    requires n > 0
    ensures TargetHeight(n) >= 1 && Start(n, 0) * Max(0) == n
  {
    TargetHeightLeast(n, 1);
  }

  lemma NewEntries<D>(old0: seq<D>, new0: seq<D>)
    requires |old0| > 0
    ensures Start(|old0|, 0) <= |Level(old0 + new0, 0)|
    ensures Level(old0 + new0, 0)[Start(|old0|, 0)..] == DataEntries(new0)
  {
    StartZero(|old0|);
    LevelZero(old0 + new0);
  }

  lemma {:induction false} DataLeaves<D>(ds: seq<D>)
    ensures LeavesAll(DataEntries(ds)) == |ds|
  {
    if ds != [] {
      DataLeaves(ds[..|ds| - 1]);
      assert DataEntries(ds)[..|ds| - 1] == DataEntries(ds[..|ds| - 1]);
    }
  }

  lemma RootLeaves<D>(ds: seq<D>)
    requires |ds| > 0
    ensures Leaves(Root(ds)) == |ds|
  {
    var k := TargetHeight(|ds|);
    OneRoot(|ds|);
    LevelAt(ds, k, 0);
    TargetHeightLeast(|ds|, k);
    NodeLeaves(ds, k, 0);
  }

  /** A first build covers the data. */
  lemma BuildAnew<D>(ds: seq<D>)
    requires |ds| > 0
    ensures Build(None, DataEntries(ds)) == Some(Root(ds))
  {
    LevelZero(ds);
    TargetHeightLeast(|ds|, 1);
    BuildAnewFrom(ds, 1);
  }

  lemma {:induction false} BuildAnewFrom<D>(ds: seq<D>, h: nat)
    requires |ds| > 0 && 1 <= h <= TargetHeight(|ds|)
    ensures BuildHierarchy(None, Level(ds, h - 1), |ds|, h, TargetHeight(|ds|)) == Some(Root(ds))
    decreases TargetHeight(|ds|) - h
  {
    GroupedLevel(ds, h, 0);
    assert Level(ds, h - 1)[0 * MHT_NBRANCHES..] == Level(ds, h - 1) && Level(ds, h)[0..] == Level(ds, h);
    assert Taken<D>(None, h) + Level(ds, h - 1) == Level(ds, h - 1);
    if h < TargetHeight(|ds|) {
      LastBelow(|ds|, h);
      BuildAnewFrom(ds, h + 1);
    } else {
      OneRoot(|ds|);
    }
  }

  /** A flush without new data rebuilds the same tree, or fails for want of anything to build. */
  lemma BuildNothing<D>(ds: seq<D>)
    requires |ds| > 0
    ensures Walkable(Root(ds)) && Root(ds).numData == |ds|
    ensures Build(Some(Root(ds)), []) ==
            if Buildable(|ds|, |ds|) then Some(Root(ds)) else None
  {
    hide NodeAt, Level, Root, Walkable, Spine, Width, Taken, Max, Extendable, BuildHierarchy, TargetHeight;
    RootIsLast(ds);
    TargetHeightLeast(|ds|, 1);
    if Buildable(|ds|, |ds|) {
      BuildableExtendable(|ds|);
      NewEntries(ds, []);
      assert ds + [] == ds && DataEntries<D>([]) == [];
      BuildRight(ds, ds, 1);
    } else {
      NothingTaken(ds);
      EmptyLevel(Some(Root(ds)), |ds|, 1, TargetHeight(|ds|));
    }
  }

  lemma EmptyLevel<D>(prev: Option<Tree<D>>, total: nat, h: nat, target: nat)
    requires prev.Some? ==> Walkable(prev.value)
    requires h <= target && Taken(prev, h) == []
    ensures BuildHierarchy(prev, [], total, h, target) == None
  {
    assert Taken(prev, h) + [] == [];
    assert Grouped<D>([], total, h) == [];
  }

  lemma NothingTaken<D>(ds: seq<D>)
    requires |ds| > 0 && !Buildable(|ds|, |ds|)
    ensures Walkable(Root(ds)) && Taken(Some(Root(ds)), 1) == []
  {
    hide NodeAt, Level, Root, Walkable, Spine, Width, Taken, TargetHeight;
    TargetHeightLeast(|ds|, 1);
    TakenSlice(ds, 1);
    assert Max(1) == Max(0) * MHT_NBRANCHES;
  }

  lemma BuildableExtendable(n: nat)
    requires n > 0 && Buildable(n, n)
    ensures Extendable(n)
  {
    if n % MHT_NBRANCHES == 0 { SmallExtendable(n); }
  }

  /** Trees of height 1 and 2 can always be built on. */
  lemma SmallExtendable(n: nat)
    requires n > 0 && TargetHeight(n) <= 2
    ensures Extendable(n)
  {
    TargetHeightLeast(n, 1);
    assert Max(1) == Max(0) * MHT_NBRANCHES;
  }

  /** One leaf node more than a full tree of height 2 is a tree that cannot be built on. */
  lemma Unextendable()
    ensures !Extendable(MHT_NBRANCHES * MHT_NBRANCHES + MHT_NBRANCHES)
  {
    var b := MHT_NBRANCHES;
    var n := b * b + b;
    assert Max(1) == Max(0) * b && Max(2) == Max(1) * b;
    MulLe(2, b, b);
    MulLe(2, b, b * b);
    assert Max(3) == Max(2) * b == b * (b * b);
    TargetHeightLeast(n, 2);
    TargetHeightLeast(n, 3);
    assert (b + 1) * b == n;
    Remainder(n, b + 1, 0, b);
    Remainder(n, 1, b, b * b);
  }
}
