/** The log of crypto_log.rs: appended blocks wait in a buffer of two queues until they are built into
    the Merkle tree. */
module CryptoLogs {
  import opened Common
  import opened Arithmetic
  import opened MhtShape
  import opened MhtBuild
  import opened MhtSearch

  // ---- Reading from the append buffer --------------------------------------------------------------

  /** What the buffer search copies out for positions `start` to `end`: `es` are data nodes already on
      disk, `qs` those still in memory. After reading from `es` the source restarts at the front of `qs`
      and counts down `end` only by the number of nodes read. */
  function BufferRead<D>(es: seq<D>, qs: seq<D>, start: nat, end: nat): seq<D>
    requires start <= end
  {
    var first := Window(es, start, end - start);
    if first == [] then Window(qs, start, end - start) else first + Window(qs, 0, end - |first|)
  }

  method SearchBuffer<D>(es: seq<D>, qs: seq<D>, start: nat, end: nat) returns (out: seq<D>)
    requires start <= end
    ensures out == BufferRead(es, qs, start, end)
  {
    var startNth, endNth := start, end;
    out := [];
    var first := Window(es, start, end - start);
    var i := 0;
    while i < |first|
      invariant 0 <= i <= |first| && out == first[..i]
      invariant endNth == end - i && startNth == if i == 0 then start else 0
    {
      out := out + [first[i]];
      startNth, endNth := 0, endNth - 1;
      i := i + 1;
    }
    assert first[..i] == first;
    var second := Window(qs, startNth, endNth - startNth);
    i := 0;
    while i < |second|
      invariant 0 <= i <= |second| && out == first + second[..i]
    {
      out := out + [second[i]];
      i := i + 1;
    }
    assert second[..i] == second;
  }

  /** One queue is empty, or the read starts at the buffer's front, or it starts in the first queue and
      goes to the buffer's very end. */
  predicate BufferSafe(e: nat, q: nat, start: nat, end: nat) {
    e == 0 || q == 0 || start == 0 || (start < e && end == e + q)
  }

  lemma BufferReadRight<D>(es: seq<D>, qs: seq<D>, start: nat, end: nat)
    requires start < end <= |es| + |qs| && BufferSafe(|es|, |qs|, start, end)
    ensures BufferRead(es, qs, start, end) == (es + qs)[start..end]
  {
  }

  /** Which blocks come back in every case. A read that starts in the second queue skips the first queue's
      length twice; a read that starts in the first queue goes on at the front of the second, for as long as
      it has not read as many blocks as its end position says. */
  lemma BufferReadExact<D>(es: seq<D>, qs: seq<D>, start: nat, end: nat)
    requires start < end
    ensures var all := es + qs;
            var r := BufferRead(es, qs, start, end);
            if start >= |es| then
              var from := Least(|es| + start, |all|);
              r == all[from..Least(from + (end - start), |all|)]
            else
              var m := Least(end, |es|);
              r == all[start..m] + all[|es|..Least(|es| + end - (m - start), |all|)]
  {
  }

  function Least(a: nat, b: nat): nat {
    if a < b then a else b
  }

  function Iota(from: int, n: nat): (r: seq<int>)
    ensures |r| == n && forall i :: 0 <= i < n ==> r[i] == from + i
  {
    seq(n, i => from + i)
  }

  /** Outside these conditions the read goes wrong, as distinct blocks show. */
  lemma BufferReadWrong(e: nat, q: nat, start: nat, end: nat)
    requires start < end <= e + q && !BufferSafe(e, q, start, end)
    ensures BufferRead(Iota(0, e), Iota(e, q), start, end) != (Iota(0, e) + Iota(e, q))[start..end]
  {
    var r, want := BufferRead(Iota(0, e), Iota(e, q), start, end), (Iota(0, e) + Iota(e, q))[start..end];
    if start < e {
      assert |r| > |want|;
    } else if |r| == |want| {
      assert r[0] == e + start && want[0] == start;
    }
  }

  // ---- The log ------------------------------------------------------------------------------------------

  datatype BuildResult = Built | NothingToBuild | EmptyLog

  datatype ReadResult<D> = Blocks(blocks: seq<D>) | NoRoot | OutOfRange

  class CryptoLog<D(==)> {
    const nodeCap: nat
    const entryCap: nat
    var root: Option<Tree<D>>
    var entryQueue: seq<D>
    var nodeQueue: seq<D>
    var startPos: nat
    /** All appended blocks. */
    ghost var content: seq<D>

    /** The root is the tree over the blocks before the buffer. */
    ghost predicate Valid()
      reads this
    {
      && startPos + |entryQueue| + |nodeQueue| == |content|
      && content[startPos..] == entryQueue + nodeQueue
      && (root.None? <==> startPos == 0)
      && (root.Some? ==> root.value == Root(content[..startPos]))
    }

    constructor (nodeCap: nat, entryCap: nat)
      ensures Valid() && content == [] && this.nodeCap == nodeCap && this.entryCap == entryCap
    {
      this.nodeCap, this.entryCap := nodeCap, entryCap;
      root, entryQueue, nodeQueue, startPos, content := None, [], [], 0, [];
    }

    /** `flush`: the new root is the tree over everything if and only if there was no old tree to build
        on, or nothing new, or the old tree was extendable. A log without any block panics, and a build
        without anything to do fails and leaves the root. */
    method Flush() returns (r: BuildResult)
      requires Valid()
      modifies this`root, this`entryQueue, this`nodeQueue, this`startPos
      ensures r.EmptyLog? <==> content == []
      ensures r.NothingToBuild? <==> content != [] && old(startPos) == |content| && !Buildable(|content|, |content|)
      ensures Valid() <==> old(startPos) == 0 || old(startPos) == |content| || Extendable(old(startPos))
      ensures startPos == |content| && entryQueue == [] && nodeQueue == []
    {
      hide Root, Extendable, Buildable, Build, Walkable, TargetHeight, DataEntries;
      var entries := entryQueue + nodeQueue;
      if root.None? && entries == [] { return EmptyLog; }
      BuildCases(content, startPos, root, entries);
      var built := BuildTree(root, DataEntries(entries));
      entryQueue, nodeQueue, startPos := [], [], startPos + |entries|;
      assert content[..|content|] == content;
      if built.None? && entries == [] { return NothingToBuild; }
      root := built;
      r := Built;
    }

    /** `append`: the blocks go to the queue in memory; a full one moves to the queue on disk, and when that is
        full everything is built into the tree. An append that is accepted leaves room for the next. */
    method Append(blocks: seq<D>) returns (ok: bool)
      requires Valid()
      modifies this
      ensures ok <==> |old(entryQueue)| < entryCap
      ensures content == old(content) + if ok then blocks else []
      ensures ok ==> |entryQueue| < entryCap && (nodeCap > 0 ==> |nodeQueue| < nodeCap)
      ensures !ok ==> Valid() && startPos == old(startPos) && entryQueue == old(entryQueue) && nodeQueue == old(nodeQueue)
      ensures ok ==>
                var n := |old(nodeQueue)| + |blocks|;
                var spills := n >= nodeCap;
                var builds := |old(entryQueue)| + (if spills then n else 0) >= entryCap;
                && (builds ==> startPos == |content| > old(startPos))
                && (!builds ==> startPos == old(startPos) && root == old(root))
                && (!builds && spills ==> entryQueue == old(entryQueue) + old(nodeQueue) + blocks && nodeQueue == [])
                && (!builds && !spills ==> entryQueue == old(entryQueue) && nodeQueue == old(nodeQueue) + blocks)
                && (Valid() <==> !builds || old(startPos) == 0 || Extendable(old(startPos)))
    {
      if |entryQueue| >= entryCap { return false; }
      assert (content + blocks)[..startPos] == content[..startPos];
      assert (content + blocks)[startPos..] == content[startPos..] + blocks;
      assert entryQueue + (nodeQueue + blocks) == entryQueue + nodeQueue + blocks;
      nodeQueue := nodeQueue + blocks;
      content := content + blocks;
      if |nodeQueue| >= nodeCap { entryQueue, nodeQueue := entryQueue + nodeQueue, []; }
      if |entryQueue| >= entryCap { var r := Flush(); }
      ok := true;
    }

    /** `read`: needs a root. Reads from the tree, and reads that cross into the buffer, return the appended
        blocks; a read inside the buffer returns what `BufferRead` says, which is right under `BufferSafe`. */
    method Read(pos: nat, num: nat) returns (r: ReadResult<D>)
      requires Valid() && num > 0
      ensures r.NoRoot? <==> startPos == 0
      ensures r.OutOfRange? <==> startPos > 0 && pos + num > |content|
      ensures r.Blocks? && (pos < startPos || BufferSafe(|entryQueue|, |nodeQueue|, pos - startPos, pos + num - startPos)) ==>
                r.blocks == content[pos..pos + num]
      ensures r.Blocks? && pos >= startPos ==>
                r.blocks == BufferRead(entryQueue, nodeQueue, pos - startPos, pos + num - startPos)
    {
      hide Root, SearchHierarchy, BufferRead, BufferSafe, TargetHeight, Walkable;
      if root.None? { return NoRoot; }
      if pos + num > startPos + |entryQueue| + |nodeQueue| { return OutOfRange; }
      var tail: seq<D> := [];
      var left := num;
      if pos + num > startPos {
        var start := if pos >= startPos then pos - startPos else 0;
        var end := pos + num - startPos;
        tail := SearchBuffer(entryQueue, nodeQueue, start, end);
        TailRead(content, entryQueue, nodeQueue, startPos, start, end);
        if pos >= startPos { return Blocks(tail); }
        left := num - end;
      }
      var blocks := ReadTree(pos, left);
      assert content[pos..pos + left] + content[pos + left..pos + num] == content[pos..pos + num];
      r := Blocks(blocks + tail);
    }

    method ReadTree(pos: nat, num: nat) returns (blocks: seq<D>)
      requires Valid() && root.Some? && num > 0 && pos + num <= startPos
      ensures blocks == content[pos..pos + num]
    {
      hide Root, SearchHierarchy, TargetHeight, Walkable;
      SearchRoot(content[..startPos], pos, num);
      RootIsLast(content[..startPos]);
      var found := SearchHierarchy([root.value], root.value.height, pos, num);
      blocks := ReadDataNodes(found);
      assert content[..startPos][pos..pos + num] == content[pos..pos + num];
    }
  }

  /** Decrypting the found entries; an entry that is not a data node would not decrypt. */
  method ReadDataNodes<D>(entries: seq<Tree<D>>) returns (out: seq<D>)
    requires forall i :: 0 <= i < |entries| ==> entries[i].Data?
    ensures |out| == |entries| && forall i :: 0 <= i < |out| ==> entries[i] == Data(out[i])
  {
    out := [];
    var i := 0;
    while i < |entries|
      invariant 0 <= i <= |entries| && |out| == i
      invariant forall j :: 0 <= j < i ==> entries[j] == Data(out[j])
    {
      out := out + [entries[i].block];
      i := i + 1;
    }
  }

  lemma TailRead<D>(content: seq<D>, es: seq<D>, qs: seq<D>, n: nat, start: nat, end: nat)
    requires n <= |content| && content[n..] == es + qs && start < end <= |es| + |qs|
    ensures start == 0 || BufferSafe(|es|, |qs|, start, end) ==>
              BufferRead(es, qs, start, end) == content[n + start..n + end]
  {
    if BufferSafe(|es|, |qs|, start, end) {
      BufferReadRight(es, qs, start, end);
      assert (es + qs)[start..end] == content[n + start..n + end];
    }
  }

  /** The builds that can occur. */
  lemma BuildCases<D>(content: seq<D>, n: nat, root: Option<Tree<D>>, entries: seq<D>)
    requires n + |entries| == |content| && content[n..] == entries
    requires root.None? <==> n == 0
    requires root.Some? ==> root.value == Root(content[..n])
    requires content != []
    ensures root.Some? ==> Walkable(root.value) && root.value.numData == n
    ensures var built := Build(root, DataEntries(entries));
            && (entries == [] ==> built == if Buildable(n, n) then Some(Root(content)) else None)
            && (entries != [] ==> (built == Some(Root(content)) <==> n == 0 || Extendable(n)))
  {
    if n == 0 {
      assert content[0..] == content;
      BuildAnew(content);
    } else {
      assert content == content[..n] + entries;
      if entries == [] {
        assert content[..n] == content;
        BuildNothing(content);
        assert DataEntries(entries) == [];
      } else {
        BuildOnTop(content[..n], entries);
      }
    }
  }
}
