/** The tree over a list of chaining values, and why condensing such a list pair by pair keeps it. */
module Blake3Tree {
  import opened Bits
  import opened Blake3Spec

  /** The largest power of two strictly below `n`: how many of `n` leaves go left. */
  function LeftCount(n: nat): (h: nat)
    requires n >= 2
    ensures IsPow2(h) && h < n <= 2 * h
  {
    FloorPow2(n - 1)
  }

  /** The chaining value of the left-balanced tree whose leaves are `cvs`. */
  function TreeCv(mode: Mode, cvs: seq<Cv>): Cv
    requires |cvs| > 0
    decreases |cvs|
  {
    if |cvs| == 1 then cvs[0]
    else
      var (left, right) := TopPair(mode, cvs);
      ParentCv(mode, left, right)
  }

  /** The chaining values of the root's two children. */
  function TopPair(mode: Mode, cvs: seq<Cv>): (Cv, Cv)
    requires |cvs| >= 2
    decreases |cvs|, 0
  {
    var h := LeftCount(|cvs|);
    (TreeCv(mode, cvs[..h]), TreeCv(mode, cvs[h..]))
  }

  /** One layer of parents; an odd last value passes through. */
  function Condense(mode: Mode, cvs: seq<Cv>): (r: seq<Cv>)
    ensures |r| == (|cvs| + 1) / 2
  {
    if |cvs| <= 1 then cvs
    else [ParentCv(mode, cvs[0], cvs[1])] + Condense(mode, cvs[2..])
  }

  lemma {:induction false} CondenseAppend(mode: Mode, a: seq<Cv>, b: seq<Cv>)
    requires |a| % 2 == 0
    ensures Condense(mode, a + b) == Condense(mode, a) + Condense(mode, b)
  {
    hide ParentCv;
    if a == [] {
      assert a + b == b;
    } else {
      CondenseAppend(mode, a[2..], b);
      assert (a + b)[2..] == a[2..] + b;
    }
  }

  lemma LeftCountHalves(n: nat)
    requires n >= 3
    ensures LeftCount(n) % 2 == 0 && LeftCount((n + 1) / 2) == LeftCount(n) / 2
  {
    assert (n + 1) / 2 - 1 == (n - 1) / 2;
  }

  lemma CondenseHalves(mode: Mode, cvs: seq<Cv>)
    requires |cvs| >= 3
    ensures var h, r := LeftCount(|cvs|), Condense(mode, cvs);
            && h % 2 == 0 && LeftCount(|r|) == h / 2
            && r[..h / 2] == Condense(mode, cvs[..h]) && r[h / 2..] == Condense(mode, cvs[h..])
  {
    hide Condense, LeftCount, IsPow2;
    LeftCountHalves(|cvs|);
    var h := LeftCount(|cvs|);
    var left, right := cvs[..h], cvs[h..];
    CondenseAppend(mode, left, right);
    assert left + right == cvs;
  }

  /** Condensing keeps the root, and with three or more values it keeps both of the root's children. */
  lemma {:induction false} CondenseKeepsTree(mode: Mode, cvs: seq<Cv>)
    requires |cvs| >= 2
    ensures TreeCv(mode, Condense(mode, cvs)) == TreeCv(mode, cvs)
    ensures |cvs| >= 3 ==> TopPair(mode, Condense(mode, cvs)) == TopPair(mode, cvs)
    decreases |cvs|
  {
    hide ParentCv;
    if |cvs| == 2 {
      var p := ParentCv(mode, cvs[0], cvs[1]);
      assert Condense(mode, cvs[2..]) == [];
      assert Condense(mode, cvs) == [p];
      assert LeftCount(2) == 1;
      assert TopPair(mode, cvs) == (cvs[0], cvs[1]);
    } else {
      CondenseHalves(mode, cvs);
      var h := LeftCount(|cvs|);
      CondenseKeepsTree(mode, cvs[..h]);
      if h + 1 < |cvs| {
        CondenseKeepsTree(mode, cvs[h..]);
      }
      assert TopPair(mode, Condense(mode, cvs)) == TopPair(mode, cvs);
    }
  }

  // ---------------------------------------------------------------- the leaves of an input

  function ChunkCount(len: nat): nat {
    (len + CHUNK_LEN - 1) / CHUNK_LEN
  }

  /** The chaining values of the chunks of a non-empty input. */
  function Leaves(mode: Mode, input: seq<Byte>, counter: nat): (cvs: seq<Cv>)
    requires |input| > 0
    ensures |cvs| == ChunkCount(|input|)
    decreases |input|
  {
    if |input| <= CHUNK_LEN then [ChainingValue(mode, ChunkNode(mode, input, counter))]
    else
      [ChainingValue(mode, ChunkNode(mode, input[..CHUNK_LEN], counter))] +
      Leaves(mode, input[CHUNK_LEN..], counter + 1)
  }

  lemma {:induction false} LeavesAppend(mode: Mode, a: seq<Byte>, b: seq<Byte>, counter: nat, k: nat)
    requires |b| > 0 && k > 0 && |a| == k * CHUNK_LEN
    ensures Leaves(mode, a + b, counter) == Leaves(mode, a, counter) + Leaves(mode, b, counter + k)
    decreases k
  {
    hide ChainingValue, ChunkNode;
    var first := [ChainingValue(mode, ChunkNode(mode, a[..CHUNK_LEN], counter))];
    assert (a + b)[..CHUNK_LEN] == a[..CHUNK_LEN];
    assert (a + b)[CHUNK_LEN..] == a[CHUNK_LEN..] + b;
    assert Leaves(mode, a + b, counter) == first + Leaves(mode, a[CHUNK_LEN..] + b, counter + 1);
    if k == 1 {
      assert a[..CHUNK_LEN] == a && a[CHUNK_LEN..] + b == b;
    } else {
      LeavesAppend(mode, a[CHUNK_LEN..], b, counter + 1, k - 1);
      assert Leaves(mode, a, counter) == first + Leaves(mode, a[CHUNK_LEN..], counter + 1);
    }
  }

  lemma LeftLenIsLeftCount(len: nat)
    requires len > CHUNK_LEN
    ensures ChunkCount(len) >= 2
    ensures LeftLen(len) == LeftCount(ChunkCount(len)) * CHUNK_LEN
    ensures ChunkCount(LeftLen(len)) == LeftCount(ChunkCount(len)) == LeftLen(len) / CHUNK_LEN
    ensures ChunkCount(len - LeftLen(len)) == ChunkCount(len) - LeftCount(ChunkCount(len))
  {
    assert (len - 1) / CHUNK_LEN == ChunkCount(len) - 1;
  }

  /** The tree over the chunk chaining values is the recursive tree over the bytes. */
  lemma {:induction false} LeavesTree(mode: Mode, input: seq<Byte>, counter: nat)
    requires |input| > 0
    ensures TreeCv(mode, Leaves(mode, input, counter)) == NodeCv(mode, input, counter)
    ensures |input| > CHUNK_LEN ==>
              var (left, right) := TopPair(mode, Leaves(mode, input, counter));
              Node(mode, input, counter) == ParentNode(mode, left, right)
    decreases |input|
  {
    hide ChainingValue, ChunkNode, ParentNode, LeftLen, LeftCount;
    if |input| > CHUNK_LEN {
      var l := LeftLen(|input|);
      LeftLenIsLeftCount(|input|);
      LeavesSplit(mode, input, counter, l);
      LeavesTree(mode, input[..l], counter);
      LeavesTree(mode, input[l..], counter + l / CHUNK_LEN);
    }
  }

  lemma LeavesSplit(mode: Mode, input: seq<Byte>, counter: nat, l: nat)
    requires 0 < l < |input| && l % CHUNK_LEN == 0
    ensures var cvs, h := Leaves(mode, input, counter), l / CHUNK_LEN;
            && h < |cvs|
            && cvs[..h] == Leaves(mode, input[..l], counter) && cvs[h..] == Leaves(mode, input[l..], counter + h)
  {
    hide Leaves;
    assert input == input[..l] + input[l..];
    LeavesAppend(mode, input[..l], input[l..], counter, l / CHUNK_LEN);
  }

  /** Joining the condensed form of a left subtree to that of the right one: when the left list is
      a power of two and the right one is no longer, the two lists are the two halves of the tree. */
  lemma JoinHalves(mode: Mode, a: seq<Cv>, b: seq<Cv>)
    requires IsPow2(|a|) && 0 < |b| <= |a|
    ensures TopPair(mode, a + b) == (TreeCv(mode, a), TreeCv(mode, b))
  {
    hide TreeCv;
    FloorPow2Unique(|a + b| - 1, |a|);
    hide FloorPow2;
    var h := LeftCount(|a + b|);
    assert h == |a|;
    assert (a + b)[..h] == a && (a + b)[h..] == b;
  }
}
