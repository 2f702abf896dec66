/** The Merkle hash tree of crypto_log.rs. A node entry names its child by position, key and MAC on an
    append-only log; with ideal encryption it stands for exactly that child, so nodes are modelled as
    trees. */
module MhtShape {
  import opened Common
  import opened Arithmetic

  type Branching = n: nat | n >= 2 witness 102

  /** Entries of one node; the source computes 102. */
  const MHT_NBRANCHES: Branching

  /** `entries` are the valid ones. `Invalid` is the padding that fills up a node. */
  datatype Tree<D> = Data(block: D) | Mht(height: nat, numData: nat, entries: seq<Tree<D>>) | Invalid

  /** `max_num_data_nodes`. */
  function Max(h: nat): (r: nat)
    ensures r >= 1
  {
    if h == 0 then 1
    else
      var p := Max(h - 1);
      MulLe(1, p, MHT_NBRANCHES);
      p * MHT_NBRANCHES
  }

  // ---- The tree by position -----------------------------------------------------------------------

  /** How many of `n` data nodes lie below the `i`-th node of height `h`. */
  function Below(n: nat, h: nat, i: nat): nat
    requires i * Max(h) < n
  {
    if n - i * Max(h) < Max(h) then n - i * Max(h) else Max(h)
  }

  /** Number of nodes of height `h` over `n` data nodes. */
  function Width(n: nat, h: nat): nat {
    Ceil(n, Max(h))
  }

  /** The `i`-th node of height `h`: it covers the data from `i * Max(h)` on. */
  function NodeAt<D>(ds: seq<D>, h: nat, i: nat): Tree<D>
    requires i * Max(h) < |ds|
    decreases h
  {
    if h == 0 then Data(ds[i])
    else
      Mht(h, Below(|ds|, h, i),
          seq(Ceil(Below(|ds|, h, i), Max(h - 1)), j requires 0 <= j < Ceil(Below(|ds|, h, i), Max(h - 1)) =>
            ChildInRange(|ds|, h, i, j);
            NodeAt(ds, h - 1, i * MHT_NBRANCHES + j)))
  }

  /** All nodes of one height. */
  function Level<D>(ds: seq<D>, h: nat): (r: seq<Tree<D>>)
    ensures |r| == Width(|ds|, h)
  {
    seq(Width(|ds|, h), i requires 0 <= i < Width(|ds|, h) => CeilIff(|ds|, Max(h), i); NodeAt(ds, h, i))
  }

  lemma LevelAt<D>(ds: seq<D>, h: nat, i: nat)
    requires i < Width(|ds|, h)
    ensures i * Max(h) < |ds| && Level(ds, h)[i] == NodeAt(ds, h, i)
  {
    CeilIff(|ds|, Max(h), i);
  }

  lemma ChildStart(h: nat, i: nat, j: int)
    requires h > 0
    ensures (i * MHT_NBRANCHES + j) * Max(h - 1) == i * Max(h) + j * Max(h - 1)
  {
    var p, b := Max(h - 1), MHT_NBRANCHES;
    assert Max(h) == p * b;
    calc {
      (i * b + j) * p;
      (i * b) * p + j * p;
      { MulAssoc(i, b, p); }
      i * (b * p) + j * p;
    }
  }

  lemma ChildInRange(n: nat, h: nat, i: nat, j: nat)
    requires h > 0 && i * Max(h) < n && j < Ceil(Below(n, h, i), Max(h - 1))
    ensures (i * MHT_NBRANCHES + j) * Max(h - 1) < n
  {
    CeilIff(Below(n, h, i), Max(h - 1), j);
    ChildStart(h, i, j);
  }

  /** A node has children up to the end of the level below or until it is full. */
  lemma Children(n: nat, h: nat, i: nat)
    requires h > 0 && i * Max(h) < n
    ensures var c := Ceil(Below(n, h, i), Max(h - 1));
            var w := Width(n, h - 1);
            && i * MHT_NBRANCHES < w
            && c == (if w - i * MHT_NBRANCHES < MHT_NBRANCHES then w - i * MHT_NBRANCHES else MHT_NBRANCHES)
  {
    var b, p := MHT_NBRANCHES, Max(h - 1);
    var c, w := Ceil(Below(n, h, i), p), Width(n, h - 1);
    var e := if w - i * b < b then w - i * b else b;
    ChildStart(h, i, 0);
    CeilIff(n, p, i * b);
    ChildIff(n, h, i, c);
    ChildIff(n, h, i, e);
  }

  lemma ChildIff(n: nat, h: nat, i: nat, j: nat)
    requires h > 0 && i * Max(h) < n
    ensures j < Ceil(Below(n, h, i), Max(h - 1)) <==> j < MHT_NBRANCHES && i * MHT_NBRANCHES + j < Width(n, h - 1)
  {
    var b, p := MHT_NBRANCHES, Max(h - 1);
    CeilIff(Below(n, h, i), p, j);
    CeilIff(n, p, i * b + j);
    ChildStart(h, i, j);
    if j < b { MulLe(j + 1, b, p); } else { MulLe(b, j, p); }
    assert (j + 1) * p == j * p + p && b * p == p * b;
  }

  // ---- Building one level ------------------------------------------------------------------------------

  /** `num_data_nodes` of the last node of a level. */
  function LastCount(total: nat, h: nat): nat {
    if total % Max(h) == 0 then Max(h) else total % Max(h)
  }

  /** The `i`-th node built from the entries of a level. */
  function Group<D>(entries: seq<Tree<D>>, total: nat, h: nat, i: nat): Tree<D>
    requires i < Ceil(|entries|, MHT_NBRANCHES)
  {
    CeilIff(|entries|, MHT_NBRANCHES, i);
    var from := i * MHT_NBRANCHES;
    var to := if |entries| - from < MHT_NBRANCHES then |entries| else from + MHT_NBRANCHES;
    Mht(h, if i + 1 == Ceil(|entries|, MHT_NBRANCHES) then LastCount(total, h) else Max(h), entries[from..to])
  }

  function Grouped<D>(entries: seq<Tree<D>>, total: nat, h: nat): (r: seq<Tree<D>>)
    ensures |r| == Ceil(|entries|, MHT_NBRANCHES)
  {
    seq(Ceil(|entries|, MHT_NBRANCHES), i requires 0 <= i < Ceil(|entries|, MHT_NBRANCHES) => Group(entries, total, h, i))
  }

  /** The loop of `LevelBuilder::build`: full chunks become complete nodes, the last chunk gets the rest
      of the data count. */
  method BuildNodes<D>(entries: seq<Tree<D>>, total: nat, h: nat) returns (nodes: seq<Tree<D>>)
    ensures nodes == Grouped(entries, total, h)
  {
    nodes := [];
    var numBuild := Ceil(|entries|, MHT_NBRANCHES);
    var nth := 0;
    while nth < numBuild
      invariant 0 <= nth <= numBuild && |nodes| == nth
      invariant forall i :: 0 <= i < nth ==> nodes[i] == Group(entries, total, h, i)
    {
      CeilIff(|entries|, MHT_NBRANCHES, nth);
      var from := nth * MHT_NBRANCHES;
      if nth == numBuild - 1 {
        CeilIff(|entries|, MHT_NBRANCHES, nth + 1);
        nodes := nodes + [Mht(h, LastCount(total, h), entries[from..])];
      } else {
        CeilIff(|entries|, MHT_NBRANCHES, nth + 1);
        nodes := nodes + [Mht(h, Max(h), entries[from..from + MHT_NBRANCHES])];
      }
      nth := nth + 1;
    }
  }

  /** The last node's count is what is left over. */
  lemma LastBelow(n: nat, h: nat)
    requires n > 0
    ensures Width(n, h) >= 1
    ensures (Width(n, h) - 1) * Max(h) < n && Below(n, h, Width(n, h) - 1) == LastCount(n, h)
  {
    var w, p := Width(n, h), Max(h);
    CeilIff(n, p, 0);
    CeilIff(n, p, w - 1);
    CeilIff(n, p, w);
    var r := n - (w - 1) * p;
    assert w * p == (w - 1) * p + p;
    if r < p { Remainder(n, w - 1, r, p); } else { Remainder(n, w, 0, p); }
  }

  lemma InnerBelow(n: nat, h: nat, i: nat)
    requires i + 1 < Width(n, h)
    ensures i * Max(h) < n && Below(n, h, i) == Max(h)
  {
    CeilIff(n, Max(h), i + 1);
    assert (i + 1) * Max(h) == i * Max(h) + Max(h);
  }

  lemma WidthAbove(n: nat, h: nat)
    requires h > 0
    ensures Width(n, h) == Ceil(Width(n, h - 1), MHT_NBRANCHES)
  {
    CeilCeil(n, Max(h - 1), MHT_NBRANCHES);
    assert MHT_NBRANCHES * Max(h - 1) == Max(h);
  }

  lemma CeilMinus(x: nat, q: nat, m: nat)
    requires m > 0 && q * m <= x
    ensures Ceil(x - q * m, m) == Ceil(x, m) - q
  {
    var a, b := Ceil(x - q * m, m), Ceil(x, m) - q;
    CeilIff(x - q * m, m, a);
    CeilIff(x - q * m, m, b);
    CeilIff(x, m, a + q);
    CeilIff(x, m, b + q);
    assert (a + q) * m == a * m + q * m && (b + q) * m == b * m + q * m;
  }

  /** Grouping a level from a node boundary on gives the level above from that node on. */
  lemma GroupedLevel<D>(ds: seq<D>, h: nat, q: nat)
    requires h > 0 && |ds| > 0 && q * MHT_NBRANCHES <= Width(|ds|, h - 1)
    ensures q <= Width(|ds|, h)
    ensures Grouped(Level(ds, h - 1)[q * MHT_NBRANCHES..], |ds|, h) == Level(ds, h)[q..]
  {
    var b, n := MHT_NBRANCHES, |ds|;
    var entries := Level(ds, h - 1)[q * b..];
    WidthAbove(n, h);
    CeilMinus(Width(n, h - 1), q, b);
    var nodes := Grouped(entries, n, h);
    forall i | 0 <= i < |nodes| ensures nodes[i] == Level(ds, h)[q + i] {
      GroupIsNode(ds, h, q, i);
      LevelAt(ds, h, q + i);
    }
  }

  lemma GroupIsNode<D>(ds: seq<D>, h: nat, q: nat, i: nat)
    requires h > 0 && |ds| > 0 && q * MHT_NBRANCHES <= Width(|ds|, h - 1)
    requires q + i < Width(|ds|, h) == Ceil(Width(|ds|, h - 1) - q * MHT_NBRANCHES, MHT_NBRANCHES) + q
    ensures (q + i) * Max(h) < |ds|
    ensures Group(Level(ds, h - 1)[q * MHT_NBRANCHES..], |ds|, h, i) == NodeAt(ds, h, q + i)
  {
    var b, n := MHT_NBRANCHES, |ds|;
    CeilIff(n, Max(h), q + i);
    if q + i + 1 < Width(n, h) { InnerBelow(n, h, q + i); } else { LastBelow(n, h); }
    NodeEntries(ds, h, q + i);
    SliceSlice(Level(ds, h - 1), q, i);
  }

  /** The end of the children of node `i` in a level of `w` nodes. */
  function ChildEnd(w: nat, i: nat): nat {
    if w - i * MHT_NBRANCHES < MHT_NBRANCHES then w else i * MHT_NBRANCHES + MHT_NBRANCHES
  }

  /** The entries of a node are its stretch of the level below. */
  lemma NodeEntries<D>(ds: seq<D>, h: nat, i: nat)
    requires h > 0 && i * Max(h) < |ds|
    ensures i * MHT_NBRANCHES < Width(|ds|, h - 1)
    ensures NodeAt(ds, h, i).entries == Level(ds, h - 1)[i * MHT_NBRANCHES..ChildEnd(Width(|ds|, h - 1), i)]
  {
    hide Max, Width, Below;
    var b, n := MHT_NBRANCHES, |ds|;
    Children(n, h, i);
    var es := NodeAt(ds, h, i).entries;
    forall j | 0 <= j < |es| ensures es[j] == Level(ds, h - 1)[i * b + j] {
      ChildInRange(n, h, i, j);
      LevelAt(ds, h - 1, i * b + j);
    }
  }

  lemma SliceSlice<D>(s: seq<Tree<D>>, q: nat, i: nat)
    requires (q + i) * MHT_NBRANCHES < |s|
    ensures q * MHT_NBRANCHES <= |s| && i * MHT_NBRANCHES <= |s| - q * MHT_NBRANCHES
    ensures s[q * MHT_NBRANCHES..][i * MHT_NBRANCHES..ChildEnd(|s| - q * MHT_NBRANCHES, i)] ==
            s[(q + i) * MHT_NBRANCHES..ChildEnd(|s|, q + i)]
  {
    var b := MHT_NBRANCHES;
    assert (q + i) * b == q * b + i * b;
    MulLe(0, i, b);
  }
}
