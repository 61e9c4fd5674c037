/** What BLAKE3 means: the recursive, left-balanced tree of sections 2.1 and 2.4 to 2.6 of
    "BLAKE3: one function, fast everywhere", over an arbitrary compression function. */
module Blake3Spec {
  import opened Bits

  type Words = s: seq<Word> | |s| == 8 witness [0, 0, 0, 0, 0, 0, 0, 0]
  type Cv = s: seq<Byte> | |s| == 32 witness seq(32, _ => 0)
  type Block = s: seq<Byte> | |s| == 64 witness seq(64, _ => 0)

  const BLOCK_LEN: nat := 64
  const CHUNK_LEN: nat := 1024

  const CHUNK_START: bv8 := 1
  const CHUNK_END: bv8 := 2
  const PARENT: bv8 := 4
  const ROOT: bv8 := 8
  const KEYED_HASH: bv8 := 16
  const DERIVE_KEY_CONTEXT: bv8 := 32
  const DERIVE_KEY_MATERIAL: bv8 := 64

  /** `flags` with the given flag set. */
  function With(flags: bv8, flag: bv8): bv8 {
    flags | flag
  }

  predicate BelowRoot(flags: bv8) {
    flags & ROOT == 0
  }

  /** The flags of a mode and of every compression but those of the output: any without ROOT. */
  type InnerFlags = f: bv8 | BelowRoot(f)

  lemma WithBelowRoot(flags: bv8, flag: bv8)
    requires BelowRoot(flags) && BelowRoot(flag)
    ensures BelowRoot(With(flags, flag))
  {
  }

  const IV: Words :=
    [0x6A09E667, 0xBB67AE85, 0x3C6EF372, 0xA54FF53A, 0x510E527F, 0x9B05688C, 0x1F83D9AB, 0x5BE0CD19]

  /** The two entry points to the compression function, both arbitrary. The arguments are the
      input chaining value, the block, its length, the counter and the flags. */
  datatype Kernel = Kernel(
    compress: (Words, Block, nat, nat, bv8) -> Words,
    compressXof: (Words, Block, nat, nat, bv8) -> Block)

  /** What stays fixed while one message is hashed: the kernel, the key words and the mode flags. */
  datatype Mode = Mode(kernel: Kernel, key: Words, flags: InnerFlags) {
    /** The mode in which hash_many forms parents. */
    function ForParents(): Mode {
      WithBelowRoot(flags, PARENT);
      Mode(kernel, key, With(flags, PARENT))
    }
  }

  /** A node that has not been compressed yet. */
  datatype Output = Output(inputCv: Words, block: Block, blockLen: nat, counter: nat, flags: bv8)

  // ---------------------------------------------------------------- words and bytes

  function Store32(w: Word): (b: seq<Byte>)
    ensures |b| == 4
  {
    [w % 0x100, w / 0x100 % 0x100, w / 0x1_0000 % 0x100, w / 0x100_0000 % 0x100]
  }

  function Load32(b: seq<Byte>): Word
    requires |b| == 4
  {
    (b[0] as int) + 0x100 * (b[1] as int) + 0x1_0000 * (b[2] as int) + 0x100_0000 * (b[3] as int)
  }

  function StoreWords(ws: seq<Word>): (b: seq<Byte>)
    ensures |b| == 4 * |ws|
  {
    if ws == [] then [] else Store32(ws[0]) + StoreWords(ws[1..])
  }

  function LoadWords(b: seq<Byte>): (ws: seq<Word>)
    requires |b| % 4 == 0
    ensures 4 * |ws| == |b|
  {
    if b == [] then [] else [Load32(b[..4])] + LoadWords(b[4..])
  }

  function StoreCvWords(cv: Words): Cv {
    StoreWords(cv)
  }

  function LoadKeyWords(key: Cv): Words {
    LoadWords(key)
  }

  lemma LoadStore32(w: Word)
    ensures Load32(Store32(w)) == w
  {
    var q, r, s := w / 0x100, w / 0x1_0000, w / 0x100_0000;
    assert w == 0x100 * q + w % 0x100;
    assert q == 0x100 * (q / 0x100) + q % 0x100;
    assert r == 0x100 * (r / 0x100) + r % 0x100;
    assert q / 0x100 == r && r / 0x100 == s && s < 0x100;
  }

  /** load_key_words undoes store_cv_words, so a chaining value can become a key (derive_key). */
  lemma {:induction false} LoadStoreWords(ws: seq<Word>)
    ensures LoadWords(StoreWords(ws)) == ws
  {
    if ws != [] {
      LoadStore32(ws[0]);
      LoadStoreWords(ws[1..]);
      var b := StoreWords(ws);
      assert b[..4] == Store32(ws[0]) && b[4..] == StoreWords(ws[1..]);
    }
  }

  // ---------------------------------------------------------------- nodes

  function ChainingValue(mode: Mode, o: Output): Cv {
    StoreCvWords(mode.kernel.compress(o.inputCv, o.block, o.blockLen, o.counter, o.flags))
  }

  /** The program's two ways to compress a node or a block that is not the root: they do not take ROOT. */
  function Compress(kernel: Kernel, cv: Words, block: Block, blockLen: nat, counter: nat, flags: InnerFlags): Words {
    kernel.compress(cv, block, blockLen, counter, flags)
  }

  /** output_chaining_value */
  function OutputChainingValue(mode: Mode, o: Output): Cv
    requires BelowRoot(o.flags)
  {
    ChainingValue(mode, o)
  }

  function ZeroPad(b: seq<Byte>): Block
    requires |b| <= BLOCK_LEN
  {
    b + seq(BLOCK_LEN - |b|, _ => 0)
  }

  /** Section 2.4: only the first block of a chunk carries CHUNK_START. */
  function StartFlag(blocksBefore: nat): bv8 {
    if blocksBefore == 0 then CHUNK_START else 0
  }

  /** The blocks of a chunk that are compressed before its last block: that one is kept back, and
      it is never empty unless the chunk is. */
  function BlocksBeforeLast(len: nat): (n: nat)
    ensures BLOCK_LEN * n <= len <= BLOCK_LEN * n + BLOCK_LEN
    ensures len > 0 ==> BLOCK_LEN * n < len
  {
    if len == 0 then 0 else (len - 1) / BLOCK_LEN
  }

  /** The chaining value after the first `n` whole blocks of `data`. */
  function ChainBlocks(mode: Mode, data: seq<Byte>, counter: nat, n: nat): Words
    requires BLOCK_LEN * n <= |data|
  {
    if n == 0 then mode.key
    else
      mode.kernel.compress(ChainBlocks(mode, data, counter, n - 1),
                           data[BLOCK_LEN * (n - 1)..BLOCK_LEN * n], BLOCK_LEN, counter,
                           With(mode.flags, StartFlag(n - 1)))
  }

  /** Section 2.4: a chunk, its last block not yet compressed. */
  function ChunkNode(mode: Mode, data: seq<Byte>, counter: nat): Output
    requires |data| <= CHUNK_LEN
  {
    var n := BlocksBeforeLast(|data|);
    Output(ChainBlocks(mode, data, counter, n), ZeroPad(data[BLOCK_LEN * n..]),
           |data| - BLOCK_LEN * n, counter, With(With(mode.flags, StartFlag(n)), CHUNK_END))
  }

  /** The message of a parent: its children's chaining values, one after the other. */
  function Join(left: Cv, right: Cv): Block {
    left + right
  }

  /** Section 2.5: a parent of two chaining values. */
  function ParentNode(mode: Mode, left: Cv, right: Cv): Output {
    Output(mode.key, Join(left, right), BLOCK_LEN, 0, With(mode.flags, PARENT))
  }

  function ParentCv(mode: Mode, left: Cv, right: Cv): Cv {
    ChainingValue(mode, ParentNode(mode, left, right))
  }

  /** Section 2.1: the left subtree takes the largest power of two of whole chunks that leaves at
      least one byte for the right one. */
  function LeftLen(len: nat): (l: nat)
    requires len > CHUNK_LEN
    ensures CHUNK_LEN <= l < len
  {
    var fullChunks := (len - 1) / CHUNK_LEN;
    assert CHUNK_LEN * fullChunks < len;
    FloorPow2(fullChunks) * CHUNK_LEN
  }

  /** Section 2.1: the tree over `input`, whose first chunk has number `counter`. */
  function Node(mode: Mode, input: seq<Byte>, counter: nat): Output
    decreases |input|, 0
  {
    if |input| <= CHUNK_LEN then ChunkNode(mode, input, counter)
    else
      var l := LeftLen(|input|);
      ParentNode(mode, NodeCv(mode, input[..l], counter), NodeCv(mode, input[l..], counter + l / CHUNK_LEN))
  }

  function NodeCv(mode: Mode, input: seq<Byte>, counter: nat): Cv
    decreases |input|, 1
  {
    ChainingValue(mode, Node(mode, input, counter))
  }

  /** Section 2.6: byte `i` of the output stream of a root node. */
  function StreamByte(kernel: Kernel, root: Output, i: nat): Byte {
    kernel.compressXof(root.inputCv, root.block, root.blockLen, i / BLOCK_LEN, With(root.flags, ROOT))[i % BLOCK_LEN]
  }

  function Stream(kernel: Kernel, root: Output, seek: nat, n: nat): (out: seq<Byte>)
    ensures |out| == n
  {
    seq<Byte>(n, i requires 0 <= i < n => StreamByte(kernel, root, seek + i))
  }

  /** The hash of a message: `n` output bytes from position `seek`. */
  function Hash(mode: Mode, message: seq<Byte>, seek: nat, n: nat): (out: seq<Byte>)
    ensures |out| == n
  {
    Stream(mode.kernel, Node(mode, message, 0), seek, n)
  }

  // ---------------------------------------------------------------- facts about the specification

  lemma {:induction false} ChainBlocksPrefix(mode: Mode, a: seq<Byte>, b: seq<Byte>, counter: nat, n: nat)
    requires BLOCK_LEN * n <= |a|
    ensures ChainBlocks(mode, a, counter, n) == ChainBlocks(mode, a + b, counter, n)
  {
    if n > 0 {
      ChainBlocksPrefix(mode, a, b, counter, n - 1);
      assert a[BLOCK_LEN * (n - 1)..BLOCK_LEN * n] == (a + b)[BLOCK_LEN * (n - 1)..BLOCK_LEN * n];
    }
  }

  /** Two stretches of the output agree where they overlap, and adjacent ones make up a longer one. */
  lemma StretchesAgree(mode: Mode, message: seq<Byte>, seek1: nat, n1: nat, seek2: nat, n2: nat)
    ensures var x, y := Hash(mode, message, seek1, n1), Hash(mode, message, seek2, n2);
            && (forall i, j | 0 <= i < n1 && 0 <= j < n2 && seek1 + i == seek2 + j :: x[i] == y[j])
            && (seek2 == seek1 + n1 ==> x + y == Hash(mode, message, seek1, n1 + n2))
  {
    hide Node;
  }

  /** Two kernels that agree on every compression without the ROOT flag. */
  ghost predicate AgreeBelowRoot(k1: Kernel, k2: Kernel) {
    forall cv: Words, block: Block, len: nat, counter: nat, flags: bv8 ::
      BelowRoot(flags) ==> k1.compress(cv, block, len, counter, flags) == k2.compress(cv, block, len, counter, flags)
  }

  lemma StartBelowRoot(flags: InnerFlags, n: nat)
    ensures BelowRoot(With(flags, StartFlag(n)))
    ensures BelowRoot(With(With(flags, StartFlag(n)), CHUNK_END))
  {
    WithBelowRoot(flags, StartFlag(n));
    WithBelowRoot(With(flags, StartFlag(n)), CHUNK_END);
  }

  lemma ParentBelowRoot(mode: Mode, left: Cv, right: Cv)
    ensures BelowRoot(ParentNode(mode, left, right).flags)
  {
    WithBelowRoot(mode.flags, PARENT);
  }

  lemma NodeBelowRoot(mode: Mode, input: seq<Byte>, counter: nat)
    ensures BelowRoot(Node(mode, input, counter).flags)
  {
    hide NodeCv, ChainBlocks, With, BelowRoot, LeftLen;
    if |input| <= CHUNK_LEN {
      StartBelowRoot(mode.flags, BlocksBeforeLast(|input|));
    } else {
      WithBelowRoot(mode.flags, PARENT);
    }
  }

  lemma {:induction false} ChainBlocksNotRoot(m1: Mode, m2: Mode, data: seq<Byte>, counter: nat, n: nat)
    requires AgreeBelowRoot(m1.kernel, m2.kernel) && m1.key == m2.key && m1.flags == m2.flags
    requires BLOCK_LEN * n <= |data|
    ensures ChainBlocks(m1, data, counter, n) == ChainBlocks(m2, data, counter, n)
  {
    hide With, BelowRoot;
    if n > 0 {
      ChainBlocksNotRoot(m1, m2, data, counter, n - 1);
      StartBelowRoot(m1.flags, n - 1);
    }
  }

  lemma ChunkNodeNotRoot(m1: Mode, m2: Mode, data: seq<Byte>, counter: nat)
    requires AgreeBelowRoot(m1.kernel, m2.kernel) && m1.key == m2.key && m1.flags == m2.flags
    requires |data| <= CHUNK_LEN
    ensures ChunkNode(m1, data, counter) == ChunkNode(m2, data, counter)
  {
    ChainBlocksNotRoot(m1, m2, data, counter, BlocksBeforeLast(|data|));
  }

  lemma ParentNodeNotRoot(m1: Mode, m2: Mode, l1: Output, r1: Output)
    requires AgreeBelowRoot(m1.kernel, m2.kernel) && m1.key == m2.key && m1.flags == m2.flags
    requires BelowRoot(l1.flags) && BelowRoot(r1.flags)
    ensures ParentNode(m1, ChainingValue(m1, l1), ChainingValue(m1, r1)) ==
            ParentNode(m2, ChainingValue(m2, l1), ChainingValue(m2, r1))
  {
    hide BelowRoot, With;
  }

  /** No node below the root is compressed with ROOT: the root node, and with it every input of
      the output compressions, depends on the kernel only through compressions without that flag. */
  lemma {:induction false} RootFlagOnlyAtRoot(m1: Mode, m2: Mode, input: seq<Byte>, counter: nat)
    requires AgreeBelowRoot(m1.kernel, m2.kernel) && m1.key == m2.key && m1.flags == m2.flags
    ensures Node(m1, input, counter) == Node(m2, input, counter)
    decreases |input|
  {
    hide ChunkNode, ChainingValue, ParentNode, LeftLen, With, AgreeBelowRoot, BelowRoot;
    if |input| <= CHUNK_LEN {
      ChunkNodeNotRoot(m1, m2, input, counter);
    } else {
      var l := LeftLen(|input|);
      RootFlagOnlyAtRoot(m1, m2, input[..l], counter);
      RootFlagOnlyAtRoot(m1, m2, input[l..], counter + l / CHUNK_LEN);
      NodeBelowRoot(m1, input[..l], counter);
      NodeBelowRoot(m1, input[l..], counter + l / CHUNK_LEN);
      var left, right := Node(m1, input[..l], counter), Node(m1, input[l..], counter + l / CHUNK_LEN);
      ParentNodeNotRoot(m1, m2, left, right);
      assert Node(m1, input, counter) == ParentNode(m1, ChainingValue(m1, left), ChainingValue(m1, right));
      assert Node(m2, input, counter) == ParentNode(m2, ChainingValue(m2, left), ChainingValue(m2, right));
    }
  }
}
