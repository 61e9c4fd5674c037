/** What the tree hash rests on: whenever two different messages, or one message in two modes, have the
    same root, the compression function itself gives the same result for two different inputs, both of
    which are compressed on the way. */
module Blake3Collision {
  import opened Bits
  import opened Blake3Spec

  /** The flags of the four modes. */
  predicate IsModeFlag(f: bv8) {
    f == 0 || f == KEYED_HASH || f == DERIVE_KEY_CONTEXT || f == DERIVE_KEY_MATERIAL
  }

  /** All five inputs of a compression, as a node. */
  function ResultOf(kernel: Kernel, x: Output): Words {
    kernel.compress(x.inputCv, x.block, x.blockLen, x.counter, x.flags)
  }

  /** The compression of block `i` of a chunk, not its last. */
  function BlockInput(mode: Mode, data: seq<Byte>, counter: nat, i: nat): Output
    requires BLOCK_LEN * (i + 1) <= |data|
  {
    Output(ChainBlocks(mode, data, counter, i), data[BLOCK_LEN * i..BLOCK_LEN * (i + 1)], BLOCK_LEN, counter,
           With(mode.flags, StartFlag(i)))
  }

  /** `x` is compressed before the node over `input` is there. */
  ghost predicate Compressed(mode: Mode, input: seq<Byte>, counter: nat, x: Output)
    decreases |input|
  {
    if |input| <= CHUNK_LEN then
      exists i: nat :: i < BlocksBeforeLast(|input|) && x == BlockInput(mode, input, counter, i)
    else
      var l := LeftLen(|input|);
      var left, right, next := input[..l], input[l..], counter + l / CHUNK_LEN;
      || x == Node(mode, left, counter) || x == Node(mode, right, next)
      || Compressed(mode, left, counter, x) || Compressed(mode, right, next, x)
  }

  /** Two different inputs with the same result, one compressed for each message. */
  ghost predicate Collision(m1: Mode, a: seq<Byte>, ca: nat, m2: Mode, b: seq<Byte>, cb: nat) {
    exists x, y :: Compressed(m1, a, ca, x) && Compressed(m2, b, cb, y) && x != y &&
                   ResultOf(m1.kernel, x) == ResultOf(m2.kernel, y)
  }

  // ---------------------------------------------------------------- what the flags tell apart

  /** The flags of a node tell a chunk from a parent, the mode, and whether a chunk has one block. */
  lemma FlagsOfNodes(f: bv8, g: bv8, i: nat, j: nat)
    requires IsModeFlag(f) && IsModeFlag(g)
    ensures With(With(f, StartFlag(i)), CHUNK_END) == With(With(g, StartFlag(j)), CHUNK_END) <==>
            f == g && (i == 0 <==> j == 0)
    ensures With(f, PARENT) == With(g, PARENT) <==> f == g
    ensures With(With(f, StartFlag(i)), CHUNK_END) != With(g, PARENT)
  {
  }

  /** Those of a block before the last tell whether it is the first, and tell it from every node. */
  lemma FlagsOfBlocks(f: bv8, g: bv8, i: nat, j: nat)
    requires IsModeFlag(f) && IsModeFlag(g)
    ensures With(f, StartFlag(i)) == With(g, StartFlag(j)) <==> f == g && (i == 0 <==> j == 0)
    ensures With(f, StartFlag(i)) != With(With(g, StartFlag(j)), CHUNK_END)
    ensures With(f, StartFlag(i)) != With(g, PARENT)
  {
  }

  /** The last block of a chunk and a parent are never compressed like a block in the middle of a chunk. */
  lemma BlocksAreNotNodes(m1: Mode, data: seq<Byte>, ca: nat, i: nat, m2: Mode, input: seq<Byte>, cb: nat)
    requires IsModeFlag(m1.flags) && IsModeFlag(m2.flags) && BLOCK_LEN * (i + 1) <= |data|
    ensures BlockInput(m1, data, ca, i) != Node(m2, input, cb)
  {
    hide With, IsModeFlag, ChainBlocks, NodeCv, LeftLen;
    FlagsOfBlocks(m1.flags, m2.flags, i, BlocksBeforeLast(|input|));
  }

  // ---------------------------------------------------------------- chunks

  /** Two different blocks with the same result, among the first `na` and `nb`. */
  ghost predicate BlocksCollide(m1: Mode, a: seq<Byte>, ca: nat, na: nat, m2: Mode, b: seq<Byte>, cb: nat, nb: nat)
    requires BLOCK_LEN * na <= |a| && BLOCK_LEN * nb <= |b|
  {
    exists i: nat, j: nat ::
      i < na && j < nb && BlockInput(m1, a, ca, i) != BlockInput(m2, b, cb, j) &&
      ResultOf(m1.kernel, BlockInput(m1, a, ca, i)) == ResultOf(m2.kernel, BlockInput(m2, b, cb, j))
  }

  /** Equal chaining values, both after no block or both after some: equal blocks, or a collision. */
  lemma {:induction false} EqualChains(m1: Mode, a: seq<Byte>, na: nat, m2: Mode, b: seq<Byte>, nb: nat, c: nat)
    requires m1.kernel == m2.kernel && m1.flags == m2.flags && IsModeFlag(m1.flags)
    requires BLOCK_LEN * na <= |a| && BLOCK_LEN * nb <= |b| && (na == 0 <==> nb == 0)
    requires ChainBlocks(m1, a, c, na) == ChainBlocks(m2, b, c, nb)
    ensures (m1 == m2 && na == nb && a[..BLOCK_LEN * na] == b[..BLOCK_LEN * nb]) ||
            BlocksCollide(m1, a, c, na, m2, b, c, nb)
    decreases na
  {
    hide With, IsModeFlag;
    if na > 0 {
      var x, y := BlockInput(m1, a, c, na - 1), BlockInput(m2, b, c, nb - 1);
      assert ResultOf(m1.kernel, x) == ResultOf(m2.kernel, y);
      if x == y {
        FlagsOfBlocks(m1.flags, m2.flags, na - 1, nb - 1);
        EqualChains(m1, a, na - 1, m2, b, nb - 1, c);
        OneMoreBlock(a, na);
        OneMoreBlock(b, nb);
      }
    }
  }

  lemma OneMoreBlock(data: seq<Byte>, n: nat)
    requires n > 0 && BLOCK_LEN * n <= |data|
    ensures data[..BLOCK_LEN * n] == data[..BLOCK_LEN * (n - 1)] + data[BLOCK_LEN * (n - 1)..BLOCK_LEN * n]
  {
  }

  lemma SamePadding(a: seq<Byte>, b: seq<Byte>)
    requires |a| == |b| <= BLOCK_LEN
    ensures ZeroPad(a) == ZeroPad(b) <==> a == b
  {
    assert ZeroPad(a)[..|a|] == a && ZeroPad(b)[..|b|] == b;
  }

  /** Equal chunk nodes: the same chunk in the same mode, or a collision among its blocks. */
  lemma EqualChunks(m1: Mode, a: seq<Byte>, ca: nat, m2: Mode, b: seq<Byte>, cb: nat)
    requires m1.kernel == m2.kernel && IsModeFlag(m1.flags) && IsModeFlag(m2.flags)
    requires |a| <= CHUNK_LEN && |b| <= CHUNK_LEN && ChunkNode(m1, a, ca) == ChunkNode(m2, b, cb)
    ensures (m1 == m2 && a == b && ca == cb) || Collision(m1, a, ca, m2, b, cb)
  {
    hide With, IsModeFlag, ChainBlocks, ZeroPad, BlockInput, ResultOf;
    var na, nb := BlocksBeforeLast(|a|), BlocksBeforeLast(|b|);
    FlagsOfNodes(m1.flags, m2.flags, na, nb);
    EqualChains(m1, a, na, m2, b, nb, ca);
    if BlocksCollide(m1, a, ca, na, m2, b, cb, nb) {
      var i: nat, j: nat :|
        i < na && j < nb && BlockInput(m1, a, ca, i) != BlockInput(m2, b, cb, j) &&
        ResultOf(m1.kernel, BlockInput(m1, a, ca, i)) == ResultOf(m2.kernel, BlockInput(m2, b, cb, j));
      assert Compressed(m1, a, ca, BlockInput(m1, a, ca, i));
      assert Compressed(m2, b, cb, BlockInput(m2, b, cb, j));
    } else {
      SamePadding(a[BLOCK_LEN * na..], b[BLOCK_LEN * nb..]);
      assert a == a[..BLOCK_LEN * na] + a[BLOCK_LEN * na..];
      assert b == b[..BLOCK_LEN * nb] + b[BLOCK_LEN * nb..];
    }
  }

  // ---------------------------------------------------------------- trees

  lemma EqualCvs(m1: Mode, x: Output, m2: Mode, y: Output)
    requires ChainingValue(m1, x) == ChainingValue(m2, y)
    ensures ResultOf(m1.kernel, x) == ResultOf(m2.kernel, y)
  {
    LoadStoreWords(ResultOf(m1.kernel, x));
    LoadStoreWords(ResultOf(m2.kernel, y));
  }

  /** A node over one chunk and one over more are never equal. */
  lemma ChunkIsNoParent(m1: Mode, a: seq<Byte>, ca: nat, m2: Mode, b: seq<Byte>, cb: nat)
    requires IsModeFlag(m1.flags) && IsModeFlag(m2.flags) && |a| <= CHUNK_LEN < |b|
    ensures Node(m1, a, ca) != Node(m2, b, cb)
  {
    hide With, IsModeFlag, ChainBlocks, NodeCv, LeftLen, ZeroPad;
    FlagsOfNodes(m1.flags, m2.flags, BlocksBeforeLast(|a|), 0);
  }

  /** Equal parents have equal children's chaining values, the same key and the same mode flags. */
  lemma EqualParents(m1: Mode, l1: Cv, r1: Cv, m2: Mode, l2: Cv, r2: Cv)
    requires IsModeFlag(m1.flags) && IsModeFlag(m2.flags)
    requires ParentNode(m1, l1, r1) == ParentNode(m2, l2, r2)
    ensures l1 == l2 && r1 == r2 && m1.key == m2.key && m1.flags == m2.flags
  {
    hide With, IsModeFlag;
    FlagsOfNodes(m1.flags, m2.flags, 0, 0);
    assert Join(l1, r1)[..32] == l1 && Join(l2, r2)[..32] == l2;
    assert Join(l1, r1)[32..] == r1 && Join(l2, r2)[32..] == r2;
  }

  /** A collision below a child is one below the parent; so are two different children with one value. */
  lemma CollisionAbove(m1: Mode, a: seq<Byte>, ca: nat, m2: Mode, b: seq<Byte>, cb: nat, x: Output, y: Output)
    requires |a| > CHUNK_LEN && |b| > CHUNK_LEN && x != y && ResultOf(m1.kernel, x) == ResultOf(m2.kernel, y)
    requires var l := LeftLen(|a|);
             || x == Node(m1, a[..l], ca) || x == Node(m1, a[l..], ca + l / CHUNK_LEN)
             || Compressed(m1, a[..l], ca, x) || Compressed(m1, a[l..], ca + l / CHUNK_LEN, x)
    requires var l := LeftLen(|b|);
             || y == Node(m2, b[..l], cb) || y == Node(m2, b[l..], cb + l / CHUNK_LEN)
             || Compressed(m2, b[..l], cb, y) || Compressed(m2, b[l..], cb + l / CHUNK_LEN, y)
    ensures Collision(m1, a, ca, m2, b, cb)
  {
    hide Node, LeftLen, ResultOf;
    assert Compressed(m1, a, ca, x) && Compressed(m2, b, cb, y);
  }

  /** Equal roots: the same message in the same mode at the same place, or a collision of the compression
      function between two inputs that were compressed. */
  lemma {:induction false} EqualNodes(m1: Mode, a: seq<Byte>, ca: nat, m2: Mode, b: seq<Byte>, cb: nat)
    requires m1.kernel == m2.kernel && IsModeFlag(m1.flags) && IsModeFlag(m2.flags)
    requires Node(m1, a, ca) == Node(m2, b, cb)
    ensures (m1 == m2 && a == b && ca == cb) || Collision(m1, a, ca, m2, b, cb)
    decreases |a|, 0
  {
    hide With, IsModeFlag, ChunkNode, ParentNode, ChainingValue, Compressed, Collision, ResultOf, LeftLen;
    if |a| <= CHUNK_LEN && |b| <= CHUNK_LEN {
      EqualChunks(m1, a, ca, m2, b, cb);
    } else if |a| <= CHUNK_LEN {
      ChunkIsNoParent(m1, a, ca, m2, b, cb);
    } else if |b| <= CHUNK_LEN {
      ChunkIsNoParent(m2, b, cb, m1, a, ca);
    } else {
      var l, k := LeftLen(|a|), LeftLen(|b|);
      EqualParents(m1, NodeCv(m1, a[..l], ca), NodeCv(m1, a[l..], ca + l / CHUNK_LEN),
                   m2, NodeCv(m2, b[..k], cb), NodeCv(m2, b[k..], cb + k / CHUNK_LEN));
      EqualChildren(m1, a, ca, m2, b, cb, a[..l], ca, b[..k], cb);
      EqualChildren(m1, a, ca, m2, b, cb, a[l..], ca + l / CHUNK_LEN, b[k..], cb + k / CHUNK_LEN);
      assert a == a[..l] + a[l..] && b == b[..k] + b[k..];
    }
  }

  /** Two children in the same place with the same chaining value. */
  lemma {:induction false} EqualChildren(m1: Mode, a: seq<Byte>, ca: nat, m2: Mode, b: seq<Byte>, cb: nat,
                                         a': seq<Byte>, ca': nat, b': seq<Byte>, cb': nat)
    requires m1.kernel == m2.kernel && IsModeFlag(m1.flags) && IsModeFlag(m2.flags)
    requires |a| > CHUNK_LEN && |b| > CHUNK_LEN && |a'| < |a|
    requires var l := LeftLen(|a|); (a' == a[..l] && ca' == ca) || (a' == a[l..] && ca' == ca + l / CHUNK_LEN)
    requires var l := LeftLen(|b|); (b' == b[..l] && cb' == cb) || (b' == b[l..] && cb' == cb + l / CHUNK_LEN)
    requires NodeCv(m1, a', ca') == NodeCv(m2, b', cb')
    ensures (m1 == m2 && a' == b' && ca' == cb') || Collision(m1, a, ca, m2, b, cb)
    decreases |a'|, 1
  {
    hide With, IsModeFlag, Node, ChainingValue, Compressed, ResultOf, LeftLen;
    var x, y := Node(m1, a', ca'), Node(m2, b', cb');
    EqualCvs(m1, x, m2, y);
    if x != y {
      CollisionAbove(m1, a, ca, m2, b, cb, x, y);
    } else {
      EqualNodes(m1, a', ca', m2, b', cb');
      if Collision(m1, a', ca', m2, b', cb') {
        var u, v :| Compressed(m1, a', ca', u) && Compressed(m2, b', cb', v) && u != v &&
                    ResultOf(m1.kernel, u) == ResultOf(m2.kernel, v);
        CollisionAbove(m1, a, ca, m2, b, cb, u, v);
      }
    }
  }

  /** Up to one block there is nothing to collide: the node tells the message, zeros at its end included. */
  lemma ShortMessages(mode: Mode, a: seq<Byte>, b: seq<Byte>, counter: nat)
    requires |a| <= BLOCK_LEN && |b| <= BLOCK_LEN
    ensures Node(mode, a, counter) == Node(mode, b, counter) <==> a == b
  {
    hide ZeroPad, With;
    if |a| == |b| {
      SamePadding(a, b);
    }
    assert a[BLOCK_LEN * 0..] == a && b[BLOCK_LEN * 0..] == b;
  }

  /** Two messages, or two modes, with the same 32-byte hash: the compression function has the same result
      for two different inputs below the root, or its extended form has the same first 32 bytes for the two
      different roots. */
  lemma EqualHashes(m1: Mode, a: seq<Byte>, m2: Mode, b: seq<Byte>)
    requires m1.kernel == m2.kernel && IsModeFlag(m1.flags) && IsModeFlag(m2.flags)
    requires Hash(m1, a, 0, 32) == Hash(m2, b, 0, 32) && (m1 != m2 || a != b)
    ensures Collision(m1, a, 0, m2, b, 0) || RootsCollide(m1.kernel, Node(m1, a, 0), Node(m2, b, 0))
  {
    hide Node, Collision, With, IsModeFlag;
    var x, y := Node(m1, a, 0), Node(m2, b, 0);
    if x == y {
      EqualNodes(m1, a, 0, m2, b, 0);
    } else {
      FirstBlock(m1.kernel, x);
      FirstBlock(m2.kernel, y);
    }
  }

  ghost predicate RootsCollide(kernel: Kernel, x: Output, y: Output) {
    && x != y
    && kernel.compressXof(x.inputCv, x.block, x.blockLen, 0, With(x.flags, ROOT))[..32] ==
       kernel.compressXof(y.inputCv, y.block, y.blockLen, 0, With(y.flags, ROOT))[..32]
  }

  lemma FirstBlock(kernel: Kernel, x: Output)
    ensures Stream(kernel, x, 0, 32) == kernel.compressXof(x.inputCv, x.block, x.blockLen, 0, With(x.flags, ROOT))[..32]
  {
    hide With;
    var s := Stream(kernel, x, 0, 32);
    var block := kernel.compressXof(x.inputCv, x.block, x.blockLen, 0, With(x.flags, ROOT));
    forall i | 0 <= i < 32
      ensures s[i] == block[i]
    {
      assert s[i] == StreamByte(kernel, x, 0 + i);
    }
  }
}
