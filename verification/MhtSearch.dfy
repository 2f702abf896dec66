/** The level-by-level search of crypto_log.rs. */
module MhtSearch {
  import opened Common
  import opened Arithmetic
  import opened MhtShape
  import opened MhtBuild

  /** All entries of a node on disk, padding included. */
  function Padded<D>(t: Tree<D>): seq<Tree<D>> {
    if !t.Mht? then []
    else t.entries + seq(if |t.entries| < MHT_NBRANCHES then MHT_NBRANCHES - |t.entries| else 0, _ => Invalid)
  }

  function FlatEntries<D>(ts: seq<Tree<D>>): seq<Tree<D>> {
    if ts == [] then [] else FlatEntries(ts[..|ts| - 1]) + Padded(ts[|ts| - 1])
  }

  /** `skip(from).take(n)`. */
  function Window<T>(s: seq<T>, from: nat, n: nat): seq<T> {
    if from >= |s| then [] else if n < |s| - from then s[from..from + n] else s[from..]
  }

  /** `search_hierarchy`: the data entries found for `num` data nodes from `pos` on, where positions
      count from the first target. */
  function SearchHierarchy<D>(targets: seq<Tree<D>>, h: nat, pos: nat, num: nat): seq<Tree<D>>
    requires h >= 1
    decreases h
  {
    var m := Max(h - 1);
    DivMod(pos, m);
    FloorIff(pos, m, 0);
    var skipped := pos / m;
    var rest := pos - skipped * m;
    var found := Window(FlatEntries(targets), skipped, Ceil(num + rest, m));
    if h == 1 then found else SearchHierarchy(found, h - 1, rest, num)
  }

  /** End of the children of the nodes before `c`. */
  function ChildrenEnd(w: nat, c: nat): nat {
    if c * MHT_NBRANCHES < w then c * MHT_NBRANCHES else w
  }

  /** A run of nodes lists a run of the level below, with padding behind it if at all. */
  lemma {:induction false} FlatLevel<D>(ds: seq<D>, h: nat, a: nat, c: nat)
    requires h > 0 && a < c <= Width(|ds|, h)
    ensures a * MHT_NBRANCHES <= ChildrenEnd(Width(|ds|, h - 1), c) <= Width(|ds|, h - 1)
    ensures Level(ds, h - 1)[a * MHT_NBRANCHES..ChildrenEnd(Width(|ds|, h - 1), c)] <= FlatEntries(Level(ds, h)[a..c])
    ensures c < Width(|ds|, h) ==>
              FlatEntries(Level(ds, h)[a..c]) == Level(ds, h - 1)[a * MHT_NBRANCHES..ChildrenEnd(Width(|ds|, h - 1), c)]
    decreases c
  {
    hide NodeAt, Level, Max, Width, FlatEntries, Padded, ChildrenEnd;
    var b, w := MHT_NBRANCHES, Width(|ds|, h - 1);
    var below, nodes := Level(ds, h - 1), Level(ds, h)[a..c];
    NodeLists(ds, h, c - 1);
    MulLe(a, c - 1, b);
    MulLe(0, a, b);
    FlatSnoc(nodes);
    assert nodes[..|nodes| - 1] == Level(ds, h)[a..c - 1];
    if a < c - 1 {
      FlatLevel(ds, h, a, c - 1);
    } else {
      FlatNone(Level(ds, h)[a..a]);
    }
    JoinRuns(below, a * b, (c - 1) * b, ChildrenEnd(w, c), FlatEntries(nodes[..|nodes| - 1]), Padded(nodes[|nodes| - 1]));
  }

  lemma FlatNone<D>(ts: seq<Tree<D>>)
    requires ts == []
    ensures FlatEntries(ts) == []
  {
  }

  lemma FlatSnoc<D>(ts: seq<Tree<D>>)
    requires ts != []
    ensures FlatEntries(ts) == FlatEntries(ts[..|ts| - 1]) + Padded(ts[|ts| - 1])
  {
  }

  lemma JoinRuns<T>(s: seq<T>, i: nat, j: nat, k: nat, front: seq<T>, back: seq<T>)
    requires i <= j <= k <= |s| && front == s[i..j] && s[j..k] <= back
    ensures s[i..k] <= front + back
    ensures back == s[j..k] ==> front + back == s[i..k]
  {
    assert s[i..k] == s[i..j] + s[j..k];
  }

  lemma NodeLists<D>(ds: seq<D>, h: nat, i: nat)
    requires h > 0 && i < Width(|ds|, h)
    ensures i * MHT_NBRANCHES < ChildrenEnd(Width(|ds|, h - 1), i + 1) <= Width(|ds|, h - 1)
    ensures ChildrenEnd(Width(|ds|, h - 1), i) == i * MHT_NBRANCHES
    ensures var run := Level(ds, h - 1)[i * MHT_NBRANCHES..ChildrenEnd(Width(|ds|, h - 1), i + 1)];
            && run <= Padded(Level(ds, h)[i])
            && (i + 1 < Width(|ds|, h) ==> Padded(Level(ds, h)[i]) == run)
  {
    var b := MHT_NBRANCHES;
    LevelAt(ds, h, i);
    NodeEntries(ds, h, i);
    WidthAbove(|ds|, h);
    CeilIff(Width(|ds|, h - 1), b, i + 1);
    assert (i + 1) * b == i * b + b;
  }

  /** The search over a run of nodes finds exactly the wanted data and never reads padding. */
  lemma {:induction false} SearchFinds<D>(ds: seq<D>, h: nat, a: nat, c: nat, pos: nat, num: nat)
    requires h >= 1 && a < c <= Width(|ds|, h) && num > 0
    requires a * Max(h) + pos + num <= |ds| && pos + num <= (c - a) * Max(h)
    ensures SearchHierarchy(Level(ds, h)[a..c], h, pos, num) == DataEntries(ds[a * Max(h) + pos..a * Max(h) + pos + num])
    decreases h
  {
    hide NodeAt, Level, Max, Width, FlatEntries, Window, Ceil, ChildrenEnd;
    var m := Max(h - 1);
    WindowBounds(|ds|, h, a, c, pos, num);
    var skipped := pos / m;
    var rest := pos - skipped * m;
    var needed, a' := Ceil(num + rest, m), a * MHT_NBRANCHES + skipped;
    WindowFound(ds, h, a, c, skipped, needed);
    assert Window(FlatEntries(Level(ds, h)[a..c]), skipped, needed) == Level(ds, h - 1)[a'..a' + needed];
    if h > 1 {
      MulLe(0, a', m);
      assert (a' + needed - a') * m == needed * m;
      SearchFinds(ds, h - 1, a', a' + needed, rest, num);
    } else {
      LowestFound(ds, a', needed);
      MaxZero(a');
    }
  }

  lemma MaxZero(i: nat)
    ensures i * Max(0) == i
  {
  }

  lemma WindowFound<D>(ds: seq<D>, h: nat, a: nat, c: nat, skipped: nat, needed: nat)
    requires h > 0 && a < c <= Width(|ds|, h) && needed > 0
    requires a * MHT_NBRANCHES + skipped + needed <= ChildrenEnd(Width(|ds|, h - 1), c)
    ensures ChildrenEnd(Width(|ds|, h - 1), c) <= Width(|ds|, h - 1)
    ensures var a' := a * MHT_NBRANCHES + skipped;
            Window(FlatEntries(Level(ds, h)[a..c]), skipped, needed) == Level(ds, h - 1)[a'..a' + needed]
  {
    hide NodeAt, Level, Max, Width, FlatEntries, ChildrenEnd;
    FlatLevel(ds, h, a, c);
    MulLe(0, a, MHT_NBRANCHES);
    var flat, e := FlatEntries(Level(ds, h)[a..c]), ChildrenEnd(Width(|ds|, h - 1), c);
    var run := Level(ds, h - 1)[a * MHT_NBRANCHES..e];
    assert flat[..|run|] == run;
    assert flat[skipped..skipped + needed] == run[skipped..skipped + needed];
  }

  lemma LowestFound<D>(ds: seq<D>, i: nat, n: nat)
    requires i + n <= Width(|ds|, 0)
    ensures i + n <= |ds| && Level(ds, 0)[i..i + n] == DataEntries(ds[i..i + n])
  {
    LevelZero(ds);
  }

  lemma WindowBounds(n: nat, h: nat, a: nat, c: nat, pos: nat, num: nat)
    requires h >= 1 && a < c <= Width(n, h) && num > 0
    requires a * Max(h) + pos + num <= n && pos + num <= (c - a) * Max(h)
    ensures var m, b := Max(h - 1), MHT_NBRANCHES;
            var skipped := pos / m;
            var rest := pos - skipped * m;
            && skipped >= 0 && rest >= 0
            && var needed, a' := Ceil(num + rest, m), a * b + skipped;
               && needed > 0 && a' + needed <= ChildrenEnd(Width(n, h - 1), c)
               && a' * m + rest == a * Max(h) + pos && rest + num <= needed * m
               && (h == 1 ==> rest == 0 && needed == num)
  {
    var m, b := Max(h - 1), MHT_NBRANCHES;
    DivMod(pos, m);
    FloorIff(pos, m, 0);
    var skipped := pos / m;
    var rest := pos - skipped * m;
    var needed, a' := Ceil(num + rest, m), a * b + skipped;
    CeilIff(num + rest, m, 0);
    CeilIff(num + rest, m, needed);
    CeilIff(num + rest, m, needed - 1);
    ChildStart(h, a, skipped);
    var last := a' + needed - 1;
    assert last * m == a' * m + (needed - 1) * m;
    CeilIff(n, m, last);
    assert last * m < a * Max(h) + pos + num;
    LastTarget(h, a, c, last, pos + num);
  }

  lemma LastTarget(h: nat, a: nat, c: nat, last: nat, len: nat)
    requires h >= 1 && a < c && len <= (c - a) * Max(h)
    requires last * Max(h - 1) < a * Max(h) + len
    ensures last < c * MHT_NBRANCHES
  {
    var m, b := Max(h - 1), MHT_NBRANCHES;
    assert a * Max(h) + (c - a) * Max(h) == c * Max(h);
    ChildStart(h, c, 0);
    if last >= c * b { MulLe(c * b, last, m); }
  }

  /** Searching the root returns any stretch of the data. */
  lemma SearchRoot<D>(ds: seq<D>, pos: nat, num: nat)
    requires |ds| > 0 && num > 0 && pos + num <= |ds|
    ensures TargetHeight(|ds|) >= 1
    ensures SearchHierarchy([Root(ds)], TargetHeight(|ds|), pos, num) == DataEntries(ds[pos..pos + num])
  {
    hide NodeAt, Level, Max, Width, Root, SearchHierarchy, TargetHeight, DataEntries;
    var k := TargetHeight(|ds|);
    TargetHeightLeast(|ds|, 1);
    TargetHeightLeast(|ds|, k);
    OneRoot(|ds|);
    RootLevel(ds);
    assert (1 - 0) * Max(k) == Max(k) && 0 * Max(k) == 0;
    SearchFinds(ds, k, 0, 1, pos, num);
  }

  lemma RootLevel<D>(ds: seq<D>)
    requires |ds| > 0
    ensures |Level(ds, TargetHeight(|ds|))| == 1 && Level(ds, TargetHeight(|ds|))[0..1] == [Root(ds)]
  {
    OneRoot(|ds|);
  }
}
