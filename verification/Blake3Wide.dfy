/** The wide subtree hash: many chunks at once, then layers of parents, with every intermediate
    chaining value written into fixed-size arrays at computed offsets. */
module Blake3Wide {
  import opened Bits
  import opened Blake3Spec
  import opened Blake3Tree
  import opened Blake3Chunk

  /** blake3_simd_degree() and MAX_SIMD_DEGREE: powers of two, the second bounding the first. */
  datatype Platform = Platform(degree: nat, maxDegree: nat) {
    predicate Valid() {
      IsPow2(degree) && IsPow2(maxDegree) && degree <= maxDegree
    }
    /** MAX_SIMD_DEGREE_OR_2 */
    function MaxDegreeOr2(): nat {
      if maxDegree > 2 then maxDegree else 2
    }
  }

  // ---------------------------------------------------------------- how many values come out

  /** The number of chaining values compress_subtree_wide returns for `chunks` chunks. */
  function WideCount(degree: nat, chunks: nat): nat
    requires degree > 0
    decreases chunks
  {
    if chunks <= degree || chunks < 2 then chunks
    else
      var l := LeftCount(chunks);
      var left, right := WideCount(degree, l), WideCount(degree, chunks - l);
      if left == 1 then 2 else (left + right + 1) / 2
  }

  lemma WideCountFlat(degree: nat, chunks: nat)
    requires 0 < degree && (chunks <= degree || chunks < 2)
    ensures WideCount(degree, chunks) == chunks
  {
  }

  lemma WideCountSplit(degree: nat, chunks: nat)
    requires 0 < degree < chunks
    ensures var l := LeftCount(chunks);
            var left, right := WideCount(degree, l), WideCount(degree, chunks - l);
            WideCount(degree, chunks) == if left == 1 then 2 else (left + right + 1) / 2
  {
  }

  lemma LeftOfComplete(degree: nat, chunks: nat)
    requires IsPow2(degree) && IsPow2(chunks) && degree < chunks
    ensures chunks == 2 * (chunks / 2) && IsPow2(chunks / 2) && degree <= chunks / 2
    ensures LeftCount(chunks) == chunks / 2
  {
    Pow2Gap(degree, chunks);
    FloorPow2Unique(chunks - 1, chunks / 2);
  }

  /** A complete subtree of at least `degree` chunks yields exactly `degree` values, or two when the
      degree is 1 and there is more than one chunk. */
  lemma {:induction false} WideCountComplete(degree: nat, chunks: nat)
    requires IsPow2(degree) && IsPow2(chunks) && degree <= chunks
    ensures WideCount(degree, chunks) == if degree == 1 && chunks > 1 then 2 else degree
    decreases chunks
  {
    hide WideCount, LeftCount, IsPow2;
    Pow2Positive(degree);
    if chunks > degree {
      LeftOfComplete(degree, chunks);
      WideCountComplete(degree, chunks / 2);
      WideCountSplit(degree, chunks);
    } else {
      WideCountFlat(degree, chunks);
    }
  }

  /** The layout of one recursion step: the left half fills its slots exactly, so the values of the
      right half start where the left ones end, and there are never more of them. */
  lemma {:induction false} WideLayout(degree: nat, chunks: nat)
    requires IsPow2(degree) && 0 < chunks
    ensures 1 <= WideCount(degree, chunks) <= if degree == 1 then 2 else degree
    ensures chunks > 1 ==> WideCount(degree, chunks) >= 2 || degree >= chunks
    ensures chunks > degree ==>
              var l := LeftCount(chunks);
              var left, right := WideCount(degree, l), WideCount(degree, chunks - l);
              && left == (if l > 1 && degree == 1 then 2 else degree)
              && 1 <= right <= left && (left == 1 ==> right == 1)
    decreases chunks
  {
    hide WideCount, LeftCount, IsPow2;
    Pow2Positive(degree);
    if chunks <= degree {
      WideCountFlat(degree, chunks);
    } else {
      var l := LeftCount(chunks);
      if l < degree {
        Pow2Gap(l, degree);
      }
      WideCountComplete(degree, l);
      WideLayout(degree, chunks - l);
      WideCountSplit(degree, chunks);
    }
  }

  // ---------------------------------------------------------------- one layer

  lemma SliceOfSuffix(s: seq<Byte>, k: nat, a: nat, b: nat)
    requires k + b <= |s| && a <= b
    ensures s[k..][a..b] == s[k + a..k + b]
  {
  }

  lemma {:induction false} LeavesAt(mode: Mode, input: seq<Byte>, counter: nat, i: nat)
    requires i < ChunkCount(|input|)
    ensures |input| > 0 && CHUNK_LEN * i < |input|
    ensures var end := if CHUNK_LEN * (i + 1) <= |input| then CHUNK_LEN * (i + 1) else |input|;
            Leaves(mode, input, counter)[i] ==
            ChainingValue(mode, ChunkNode(mode, input[CHUNK_LEN * i..end], counter + i))
    decreases i
  {
    hide ChainingValue, ChunkNode;
    if |input| <= CHUNK_LEN {
      assert input[0..|input|] == input;
    } else if i > 0 {
      var rest := input[CHUNK_LEN..];
      LeavesAt(mode, rest, counter + 1, i - 1);
      var end := if CHUNK_LEN * (i + 1) <= |input| then CHUNK_LEN * (i + 1) else |input|;
      SliceOfSuffix(input, CHUNK_LEN, CHUNK_LEN * (i - 1), end - CHUNK_LEN);
    } else {
      assert input[0..CHUNK_LEN] == input[..CHUNK_LEN];
    }
  }

  /** A partial chunk on its own, through a chunk state. */
  method HashChunk(mode: Mode, input: seq<Byte>, counter: nat) returns (cv: Cv)
    requires |input| <= CHUNK_LEN
    ensures cv == ChainingValue(mode, ChunkNode(mode, input, counter))
  {
    var chunkState := new ChunkState.Init(mode.kernel, mode.key, mode.flags);
    chunkState.chunkCounter := counter;
    chunkState.Update(input);
    assert chunkState.data == input && chunkState.ModeOf() == mode;
    var output := chunkState.Finish();
    cv := OutputChainingValue(mode, output);
  }

  /** compress_chunks_parallel */
  method CompressChunksParallel(mode: Mode, p: Platform, input: seq<Byte>, counter: nat, out: array<Cv>, at: nat)
    returns (n: nat)
    requires 0 < |input| <= p.degree * CHUNK_LEN
    requires at + ChunkCount(|input|) <= out.Length
    modifies out
    ensures n == ChunkCount(|input|)
    ensures out[at..at + n] == Leaves(mode, input, counter)
    ensures out[..at] == old(out[..at]) && out[at + n..] == old(out[at + n..])
  {
    hide ChainingValue, ChunkNode, Leaves, HashOneCv;
    var chunks: seq<seq<Byte>> := [];
    var inputPosition := 0;
    while |input| - inputPosition >= CHUNK_LEN
      invariant inputPosition == CHUNK_LEN * |chunks| <= |input|
      invariant forall i | 0 <= i < |chunks| :: chunks[i] == input[CHUNK_LEN * i..CHUNK_LEN * (i + 1)]
    {
      chunks := chunks + [input[inputPosition..inputPosition + CHUNK_LEN]];
      inputPosition := inputPosition + CHUNK_LEN;
    }
    assert |chunks| <= p.degree;
    HashMany(mode, chunks, 16, counter, true, CHUNK_START, CHUNK_END, out, at);
    n := |chunks|;
    if |input| > inputPosition {
      var cv := HashChunk(mode, input[inputPosition..], counter + n);
      out[at + n] := cv;
      n := n + 1;
    }
    forall i: nat | i < n
      ensures out[at + i] == Leaves(mode, input, counter)[i]
    {
      LeavesAt(mode, input, counter, i);
      if i < |chunks| {
        assert chunks[i] == input[CHUNK_LEN * i..CHUNK_LEN * (i + 1)];
        HashOneIsChunk(mode, chunks[i], counter + i);
      } else {
        assert input[CHUNK_LEN * i..|input|] == input[inputPosition..];
      }
    }
  }

  /** The parents of adjacent pairs, by index. */
  lemma {:induction false} CondenseAt(mode: Mode, cvs: seq<Cv>, i: nat)
    requires i < (|cvs| + 1) / 2
    ensures Condense(mode, cvs)[i] ==
            if 2 * i + 1 < |cvs| then ParentCv(mode, cvs[2 * i], cvs[2 * i + 1]) else cvs[2 * i]
    decreases i
  {
    if |cvs| > 1 && i > 0 {
      CondenseAt(mode, cvs[2..], i - 1);
    }
  }

  /** compress_parents_parallel: `num` values in `children` become half as many in `out`. */
  method CompressParentsParallel(mode: Mode, children: array<Cv>, num: nat, out: array<Cv>, at: nat)
    returns (n: nat)
    requires 2 <= num <= children.Length && children != out
    requires at + (num + 1) / 2 <= out.Length
    modifies out
    ensures n == (num + 1) / 2
    ensures out[at..at + n] == Condense(mode, children[..num])
    ensures out[..at] == old(out[..at]) && out[at + n..] == old(out[at + n..])
  {
    hide Condense, HashOneCv, ParentCv;
    var cvs := children[..num];
    var parents: seq<seq<Byte>> := [];
    while num - 2 * |parents| >= 2
      invariant 2 * |parents| <= num
      invariant forall i | 0 <= i < |parents| :: parents[i] == Join(cvs[2 * i], cvs[2 * i + 1])
    {
      parents := parents + [Join(children[2 * |parents|], children[2 * |parents| + 1])];
    }
    HashMany(mode.ForParents(), parents, 1, 0, false, 0, 0, out, at);
    n := |parents|;
    if num > 2 * n {
      out[at + n] := children[2 * n];
      n := n + 1;
    }
    forall i: nat | i < n
      ensures out[at + i] == Condense(mode, cvs)[i]
    {
      CondenseAt(mode, cvs, i);
      if i < |parents| {
        HashOneIsParent(mode, cvs[2 * i], cvs[2 * i + 1]);
      }
    }
  }

  // ---------------------------------------------------------------- the recursion

  /** left_len */
  method LeftLength(contentLen: nat) returns (l: nat)
    requires CHUNK_LEN < contentLen < TWO_TO_64
    ensures l == LeftLen(contentLen)
  {
    var fullChunks := (contentLen - 1) / CHUNK_LEN;
    var p := RoundDownToPowerOf2(fullChunks);
    l := p * CHUNK_LEN;
  }

  /** What a list of chaining values says about an input: the same tree, and the root's children
      when there is a parent at all. */
  ghost predicate Represents(mode: Mode, cvs: seq<Cv>, input: seq<Byte>, counter: nat) {
    && |cvs| > 0
    && TreeCv(mode, cvs) == NodeCv(mode, input, counter)
    && (|input| > CHUNK_LEN ==>
          && |cvs| >= 2
          && Node(mode, input, counter) == ParentNode(mode, TopPair(mode, cvs).0, TopPair(mode, cvs).1))
  }

  lemma LeavesRepresent(mode: Mode, input: seq<Byte>, counter: nat)
    requires |input| > 0
    ensures Represents(mode, Leaves(mode, input, counter), input, counter)
  {
    LeavesTree(mode, input, counter);
  }

  lemma HalvesRepresent(mode: Mode, left: seq<Cv>, right: seq<Cv>, input: seq<Byte>, counter: nat)
    requires |input| > CHUNK_LEN
    requires var l := LeftLen(|input|);
             && Represents(mode, left, input[..l], counter)
             && Represents(mode, right, input[l..], counter + l / CHUNK_LEN)
    requires IsPow2(|left|) && |right| <= |left|
    ensures Represents(mode, left + right, input, counter)
  {
    hide ChunkNode, ChainingValue, ParentNode, LeftLen;
    JoinHalves(mode, left, right);
    TreeOfPair(mode, left + right);
    hide TopPair, TreeCv;
    assert Node(mode, input, counter) == ParentNode(mode, TreeCv(mode, left), TreeCv(mode, right));
  }

  lemma TreeOfPair(mode: Mode, cvs: seq<Cv>)
    requires |cvs| >= 2
    ensures TreeCv(mode, cvs) == ParentCv(mode, TopPair(mode, cvs).0, TopPair(mode, cvs).1)
  {
  }

  lemma CondensedRepresents(mode: Mode, cvs: seq<Cv>, input: seq<Byte>, counter: nat)
    requires |input| > CHUNK_LEN && |cvs| >= 3
    requires Represents(mode, cvs, input, counter)
    ensures Represents(mode, Condense(mode, cvs), input, counter)
  {
    hide Node, NodeCv, ParentNode;
    CondenseKeepsTree(mode, cvs);
  }

  /** The end of compress_subtree_wide: two single values are returned as they are, so that the
      root is never compressed here; otherwise one layer of parents is formed. */
  method CombineHalves(mode: Mode, cvArray: array<Cv>, leftN: nat, rightN: nat, out: array<Cv>, at: nat)
    returns (n: nat)
    requires 1 <= leftN && 1 <= rightN && (leftN == 1 ==> rightN == 1)
    requires leftN + rightN <= cvArray.Length && cvArray != out
    requires at + (if leftN == 1 then 2 else (leftN + rightN + 1) / 2) <= out.Length
    modifies out
    ensures n == if leftN == 1 then 2 else (leftN + rightN + 1) / 2
    ensures var cvs := cvArray[..leftN + rightN];
            out[at..at + n] == if leftN == 1 then cvs else Condense(mode, cvs)
    ensures out[..at] == old(out[..at]) && out[at + n..] == old(out[at + n..])
  {
    hide Condense;
    if leftN == 1 {
      out[at] := cvArray[0];
      out[at + 1] := cvArray[1];
      n := 2;
      assert out[at..at + 2] == cvArray[..2];
      return;
    }
    n := CompressParentsParallel(mode, cvArray, leftN + rightN, out, at);
  }

  /** blake3_compress_subtree_wide */
  method CompressSubtreeWide(mode: Mode, p: Platform, input: seq<Byte>, counter: nat, out: array<Cv>, at: nat)
    returns (n: nat)
    requires p.Valid() && 0 < |input| < TWO_TO_64
    requires at + (if p.degree == 1 then 2 else p.degree) <= out.Length
    modifies out
    ensures n == WideCount(p.degree, ChunkCount(|input|))
    ensures 1 <= n <= if p.degree == 1 then 2 else p.degree
    ensures Represents(mode, out[at..at + n], input, counter)
    ensures out[..at] == old(out[..at]) && out[at + n..] == old(out[at + n..])
    decreases |input|, 1
  {
    hide TreeCv, TopPair, Node, NodeCv, ParentCv, Condense, Leaves, Represents, WideCount;
    hide IsPow2, FloorPow2, LeftCount, LeftLen, ChunkCount;
    if |input| <= p.degree * CHUNK_LEN {
      WideFlat(p.degree, |input|);
      n := CompressChunksParallel(mode, p, input, counter, out, at);
      LeavesRepresent(mode, input, counter);
      return;
    }

    WideStep(p.degree, |input|);
    var cvArray, leftN, rightN := CompressHalves(mode, p, input, counter);
    n := CombineHalves(mode, cvArray, leftN, rightN, out, at);
    if leftN > 1 {
      CondensedRepresents(mode, cvArray[..leftN + rightN], input, counter);
    }
  }

  /** The two recursive calls of compress_subtree_wide, into one array: the left subtree fills exactly
      the slots before the right one's. */
  method CompressHalves(mode: Mode, p: Platform, input: seq<Byte>, counter: nat)
    returns (cvArray: array<Cv>, leftN: nat, rightN: nat)
    requires p.Valid() && p.degree * CHUNK_LEN < |input| < TWO_TO_64 && |input| > CHUNK_LEN
    ensures fresh(cvArray) && leftN + rightN <= cvArray.Length
    ensures var l := LeftLen(|input|);
            && leftN == WideCount(p.degree, ChunkCount(l)) && rightN == WideCount(p.degree, ChunkCount(|input| - l))
            && 1 <= rightN <= leftN
    ensures Represents(mode, cvArray[..leftN + rightN], input, counter)
    decreases |input|, 0
  {
    hide TreeCv, TopPair, Node, NodeCv, ParentCv, Condense, Leaves, Represents, WideCount;
    hide IsPow2, FloorPow2, LeftCount, LeftLen, ChunkCount;
    WideStep(p.degree, |input|);
    var leftInputLen := LeftLength(|input|);
    var rightInput := input[leftInputLen..];
    var rightChunkCounter := counter + leftInputLen / CHUNK_LEN;

    cvArray := new Cv[2 * p.MaxDegreeOr2()];
    var degree := p.degree;
    if leftInputLen > CHUNK_LEN && degree == 1 {
      degree := 2;
    }
    leftN := CompressSubtreeWide(mode, p, input[..leftInputLen], counter, cvArray, 0);
    ghost var leftCvs := cvArray[0..leftN];
    assert leftN == degree;
    rightN := CompressSubtreeWide(mode, p, rightInput, rightChunkCounter, cvArray, degree);
    ghost var rightCvs := cvArray[degree..degree + rightN];
    assert cvArray[..degree] == leftCvs;
    assert cvArray[..leftN + rightN] == leftCvs + rightCvs;
    HalvesRepresent(mode, leftCvs, rightCvs, input, counter);
  }

  lemma WideFlat(degree: nat, len: nat)
    requires 0 < len <= degree * CHUNK_LEN
    ensures WideCount(degree, ChunkCount(len)) == ChunkCount(len)
    ensures 1 <= ChunkCount(len) <= degree
  {
  }

  /** WideLayout in terms of input lengths. */
  lemma WideStep(degree: nat, len: nat)
    requires IsPow2(degree) && len > degree * CHUNK_LEN
    ensures len > CHUNK_LEN
    ensures var l := LeftLen(len);
            var left, right := WideCount(degree, ChunkCount(l)), WideCount(degree, ChunkCount(len - l));
            && left == (if l > CHUNK_LEN && degree == 1 then 2 else degree)
            && 1 <= right <= left && (left == 1 ==> right == 1) && IsPow2(left)
            && WideCount(degree, ChunkCount(len)) == if left == 1 then 2 else (left + right + 1) / 2
  {
    hide WideCount, LeftCount, IsPow2, LeftLen;
    Pow2Positive(degree);
    AlignedOne(0);
    DoublePow2(1);
    var chunks := ChunkCount(len);
    LeftLenIsLeftCount(len);
    WideLayout(degree, chunks);
    WideCountSplit(degree, chunks);
  }

  /** compress_subtree_to_parent_node: whatever the SIMD degree, the two values returned are the
      chaining values of the root's children, and the root itself is left uncompressed. */
  method CompressSubtreeToParentNode(mode: Mode, p: Platform, input: seq<Byte>, counter: nat)
    returns (left: Cv, right: Cv)
    requires p.Valid() && CHUNK_LEN < |input| < TWO_TO_64
    ensures var l := LeftLen(|input|);
            left == NodeCv(mode, input[..l], counter) && right == NodeCv(mode, input[l..], counter + l / CHUNK_LEN)
  {
    hide TreeCv, TopPair, NodeCv, ParentCv, Condense, Leaves;
    var cvArray := new Cv[p.MaxDegreeOr2()];
    var numCvs := CompressSubtreeWide(mode, p, input, counter, cvArray, 0);
    assert cvArray[0..numCvs] == cvArray[..numCvs];
    var outArray := new Cv[p.MaxDegreeOr2() / 2];
    while numCvs > 2 && numCvs <= p.MaxDegreeOr2()
      invariant 2 <= numCvs <= p.MaxDegreeOr2()
      invariant Represents(mode, cvArray[..numCvs], input, counter)
      decreases numCvs
    {
      ghost var cvs := cvArray[..numCvs];
      CondensedRepresents(mode, cvs, input, counter);
      numCvs := CompressParentsParallel(mode, cvArray, numCvs, outArray, 0);
      forall i | 0 <= i < numCvs {
        cvArray[i] := outArray[i];
      }
      assert cvArray[..numCvs] == Condense(mode, cvs);
    }
    left, right := cvArray[0], cvArray[1];
    TopPairOfTwo(mode, cvArray[..2]);
    NodeChildren(mode, input, counter, left, right);
  }

  /** The message of a parent node determines the two chaining values in it. */
  lemma NodeChildren(mode: Mode, input: seq<Byte>, counter: nat, left: Cv, right: Cv)
    requires |input| > CHUNK_LEN && Node(mode, input, counter) == ParentNode(mode, left, right)
    ensures var l := LeftLen(|input|);
            left == NodeCv(mode, input[..l], counter) && right == NodeCv(mode, input[l..], counter + l / CHUNK_LEN)
  {
    hide NodeCv;
    var l := LeftLen(|input|);
    var a, b := NodeCv(mode, input[..l], counter), NodeCv(mode, input[l..], counter + l / CHUNK_LEN);
    assert Join(a, b)[..32] == a && Join(left, right)[..32] == left;
    assert Join(a, b)[32..] == b && Join(left, right)[32..] == right;
  }

  lemma TopPairOfTwo(mode: Mode, cvs: seq<Cv>)
    requires |cvs| == 2
    ensures TopPair(mode, cvs) == (cvs[0], cvs[1])
  {
    assert LeftCount(2) == 1;
  }
}
