/** Chunks and output: the buffered chunk state, the block loop of hash_one, and the output loop. */
module Blake3Chunk {
  import opened Bits
  import opened Blake3Spec

  /** blake3_chunk_state. The ghost fields remember what the state stands for: the key it started
      from and the bytes it has absorbed. */
  class ChunkState {
    const kernel: Kernel
    var cv: Words
    var chunkCounter: nat
    const buf: array<Byte>
    var bufLen: nat
    var blocksCompressed: nat
    var flags: InnerFlags
    ghost var key: Words
    ghost var data: seq<Byte>

    ghost function ModeOf(): Mode
      reads this
    {
      Mode(kernel, key, flags)
    }

    /** Some whole blocks are in `cv`, the rest of the data is in the zero-padded buffer. */
    ghost predicate Consistent()
      reads this, buf
    {
      && buf.Length == BLOCK_LEN && bufLen <= BLOCK_LEN
      && |data| <= CHUNK_LEN && |data| == BLOCK_LEN * blocksCompressed + bufLen
      && cv == ChainBlocks(ModeOf(), data, chunkCounter, blocksCompressed)
      && buf[..] == ZeroPad(data[BLOCK_LEN * blocksCompressed..])
    }

    /** The last block is never compressed early. */
    ghost predicate Valid()
      reads this, buf
    {
      Consistent() && blocksCompressed == BlocksBeforeLast(|data|)
    }

    /** chunk_state_init */
    constructor Init(kernel: Kernel, key: Words, flags: InnerFlags)
      ensures Valid() && fresh(buf)
      ensures this.kernel == kernel && this.key == key && this.flags == flags
      ensures chunkCounter == 0 && data == []
    {
      this.kernel := kernel;
      cv := key;
      chunkCounter := 0;
      buf := new Byte[BLOCK_LEN](_ => 0);
      bufLen := 0;
      blocksCompressed := 0;
      this.flags := flags;
      this.key := key;
      data := [];
    }

    method ClearBuf()
      requires buf.Length == BLOCK_LEN
      modifies this`bufLen, buf
      ensures bufLen == 0 && buf[..] == ZeroPad([])
    {
      forall i | 0 <= i < buf.Length {
        buf[i] := 0;
      }
      bufLen := 0;
    }

    /** chunk_state_reset */
    method Reset(key: Words, chunkCounter: nat)
      requires buf.Length == BLOCK_LEN
      modifies this, buf
      ensures Valid()
      ensures this.key == key && this.chunkCounter == chunkCounter && flags == old(flags) && data == []
    {
      cv := key;
      this.chunkCounter := chunkCounter;
      blocksCompressed := 0;
      ClearBuf();
      this.key := key;
      data := [];
    }

    /** The chunk number moves on while the chunk is empty. */
    method Advance(chunks: nat)
      requires Valid() && data == []
      modifies this`chunkCounter
      ensures Valid() && chunkCounter == old(chunkCounter) + chunks
    {
      chunkCounter := chunkCounter + chunks;
    }

    /** chunk_state_len */
    function Len(): (n: nat)
      requires Consistent()
      reads this, buf
      ensures n == |data|
    {
      BLOCK_LEN * blocksCompressed + bufLen
    }

    /** chunk_state_fill_buf */
    method FillBuf(input: seq<Byte>) returns (take: nat)
      requires Consistent() && |data| + |input| <= CHUNK_LEN
      modifies this`bufLen, this`data, buf
      ensures Consistent()
      ensures take <= |input| && data == old(data) + input[..take] && bufLen == old(bufLen) + take
      ensures take == |input| || bufLen == BLOCK_LEN
    {
      hide ChainBlocks, ZeroPad;
      ghost var before := buf[..];
      take := BLOCK_LEN - bufLen;
      if take > |input| {
        take := |input|;
      }
      forall i | 0 <= i < take {
        buf[bufLen + i] := input[i];
      }
      assert buf[..] == before[..bufLen] + input[..take] + before[bufLen + take..];
      PadGrows(data[BLOCK_LEN * blocksCompressed..], input[..take]);
      bufLen := bufLen + take;
      ChainBlocksPrefix(ModeOf(), data, input[..take], chunkCounter, blocksCompressed);
      SuffixGrows(data, input[..take], BLOCK_LEN * blocksCompressed);
      data := data + input[..take];
    }

    /** Compressing one more whole block: the block's bytes are the next ones of the data. */
    ghost method AbsorbBlock(block: Block)
      requires BLOCK_LEN * blocksCompressed + BLOCK_LEN == |data|
      requires data[BLOCK_LEN * blocksCompressed..] == block
      ensures ChainBlocks(ModeOf(), data, chunkCounter, blocksCompressed + 1) ==
              kernel.compress(ChainBlocks(ModeOf(), data, chunkCounter, blocksCompressed), block, BLOCK_LEN,
                              chunkCounter, With(flags, StartFlag(blocksCompressed)))
    {
      assert data[BLOCK_LEN * blocksCompressed..BLOCK_LEN * (blocksCompressed + 1)] == block;
    }

    /** The full buffer is compressed and cleared. */
    method CompressBuf()
      requires Consistent() && bufLen == BLOCK_LEN
      modifies this`cv, this`bufLen, this`blocksCompressed, buf
      ensures Consistent() && bufLen == 0
    {
      AbsorbBlock(buf[..]);
      StartBelowRoot(flags, blocksCompressed);
      cv := Compress(kernel, cv, buf[..], BLOCK_LEN, chunkCounter, With(flags, StartFlag(blocksCompressed)));
      blocksCompressed := blocksCompressed + 1;
      ClearBuf();
    }

    /** A whole block is compressed straight from the input. */
    method CompressInput(block: Block)
      requires Consistent() && bufLen == 0 && |data| + BLOCK_LEN <= CHUNK_LEN
      modifies this`cv, this`blocksCompressed, this`data
      ensures Consistent() && bufLen == 0 && data == old(data) + block
    {
      ChainBlocksPrefix(ModeOf(), data, block, chunkCounter, blocksCompressed);
      data := data + block;
      AbsorbBlock(block);
      StartBelowRoot(flags, blocksCompressed);
      cv := Compress(kernel, cv, block, BLOCK_LEN, chunkCounter, With(flags, StartFlag(blocksCompressed)));
      blocksCompressed := blocksCompressed + 1;
    }

    /** chunk_state_update */
    method Update(input: seq<Byte>)
      requires Valid() && |data| + |input| <= CHUNK_LEN
      modifies this, buf
      ensures Valid()
      ensures data == old(data) + input
      ensures key == old(key) && flags == old(flags) && chunkCounter == old(chunkCounter)
    {
      hide ChainBlocks, ZeroPad;
      var rest := input;
      if bufLen > 0 {
        var take := FillBuf(rest);
        rest := rest[take..];
        if |rest| > 0 {
          CompressBuf();
        }
      }

      while |rest| > BLOCK_LEN
        invariant Consistent() && data + rest == old(data) + input
        invariant key == old(key) && flags == old(flags) && chunkCounter == old(chunkCounter)
        invariant bufLen > 0 ==> rest == []
        invariant |data| > 0 ==> bufLen > 0 || |rest| > 0
        decreases |rest|
      {
        CompressInput(rest[..BLOCK_LEN]);
        rest := rest[BLOCK_LEN..];
      }

      var take := FillBuf(rest);
      rest := rest[take..];
    }

    /** chunk_state_output */
    method Finish() returns (o: Output)
      requires Valid()
      ensures o == ChunkNode(ModeOf(), data, chunkCounter) && BelowRoot(o.flags)
    {
      StartBelowRoot(flags, blocksCompressed);
      o := Output(cv, buf[..], bufLen, chunkCounter, With(With(flags, StartFlag(blocksCompressed)), CHUNK_END));
    }
  }

  /** Bytes written after the data in a zero-padded buffer. */
  lemma PadGrows(a: seq<Byte>, b: seq<Byte>)
    requires |a| + |b| <= BLOCK_LEN
    ensures ZeroPad(a + b) == ZeroPad(a)[..|a|] + b + ZeroPad(a)[|a| + |b|..]
  {
  }

  lemma SuffixGrows(a: seq<Byte>, b: seq<Byte>, k: nat)
    requires k <= |a|
    ensures (a + b)[k..] == a[k..] + b
  {
  }

  // ---------------------------------------------------------------- output bytes

  /** Bytes `offset` to `offset + len` of output block `counter` are that stretch of the stream. */
  lemma StreamWithinBlock(kernel: Kernel, o: Output, counter: nat, offset: nat, len: nat)
    requires offset + len <= BLOCK_LEN
    ensures Stream(kernel, o, BLOCK_LEN * counter + offset, len) ==
            kernel.compressXof(o.inputCv, o.block, o.blockLen, counter, With(o.flags, ROOT))[offset..offset + len]
  {
    var seek := BLOCK_LEN * counter + offset;
    var stream := Stream(kernel, o, seek, len);
    var block := kernel.compressXof(o.inputCv, o.block, o.blockLen, counter, With(o.flags, ROOT));
    forall i | 0 <= i < len
      ensures stream[i] == block[offset + i]
    {
      DivModUnique(seek + i, BLOCK_LEN, counter, offset + i);
      assert stream[i] == StreamByte(kernel, o, seek + i);
    }
  }

  method Memcpy(dest: array<Byte>, at: nat, src: seq<Byte>)
    requires at + |src| <= dest.Length
    modifies dest
    ensures dest[at..at + |src|] == src
    ensures dest[..at] == old(dest[..at]) && dest[at + |src|..] == old(dest[at + |src|..])
  {
    forall i | 0 <= i < |src| {
      dest[at + i] := src[i];
    }
  }

  lemma StreamSplit(kernel: Kernel, o: Output, seek: nat, m: nat, n: nat)
    ensures Stream(kernel, o, seek, m + n) == Stream(kernel, o, seek, m) + Stream(kernel, o, seek + m, n)
  {
  }

  /** How many output blocks the bytes `seek` to `seek + n` lie in. */
  function BlocksTouched(seek: nat, n: nat): nat {
    if n == 0 then 0 else (seek + n - 1) / BLOCK_LEN + 1 - seek / BLOCK_LEN
  }

  /** The counters and flags of the compressions that give these bytes. */
  ghost predicate OnePerBlock(calls: seq<(nat, bv8)>, flags: bv8, seek: nat, n: nat) {
    && |calls| == BlocksTouched(seek, n)
    && forall i | 0 <= i < |calls| :: calls[i] == (seek / BLOCK_LEN + i, With(flags, ROOT))
  }

  /** output_root_bytes: one compression per output block, the first and last possibly cut short.
      `calls` records the compressions. */
  method OutputRootBytes(kernel: Kernel, o: Output, seek: nat, out: array<Byte>)
    returns (ghost calls: seq<(nat, bv8)>)
    modifies out
    ensures out[..] == Stream(kernel, o, seek, out.Length)
    ensures OnePerBlock(calls, o.flags, seek, out.Length)
  {
    hide Stream, With;
    StreamSplit(kernel, o, seek, 0, 0);
    var outputBlockCounter := seek / BLOCK_LEN;
    var offsetWithinBlock := seek % BLOCK_LEN;
    var done := 0;
    calls := [];
    while done < out.Length
      invariant 0 <= done <= out.Length
      invariant OnePerBlock(calls, o.flags, seek, done)
      invariant outputBlockCounter == seek / BLOCK_LEN + |calls|
      invariant done < out.Length ==> seek + done == BLOCK_LEN * outputBlockCounter + offsetWithinBlock
      invariant 0 <= offsetWithinBlock < BLOCK_LEN
      invariant out[..done] == Stream(kernel, o, seek, done)
    {
      var wideBuf := kernel.compressXof(o.inputCv, o.block, o.blockLen, outputBlockCounter, With(o.flags, ROOT));
      calls := calls + [(outputBlockCounter, With(o.flags, ROOT))];
      var available := BLOCK_LEN - offsetWithinBlock;
      var len := if out.Length - done > available then available else out.Length - done;
      StreamWithinBlock(kernel, o, outputBlockCounter, offsetWithinBlock, len);
      Memcpy(out, done, wideBuf[offsetWithinBlock..offsetWithinBlock + len]);
      assert out[..done + len] == out[..done] + out[done..done + len];
      StreamSplit(kernel, o, seek, done, len);
      done := done + len;
      outputBlockCounter := outputBlockCounter + 1;
      offsetWithinBlock := 0;
    }
  }

  // ---------------------------------------------------------------- whole inputs, block by block

  /** The flags of block `i` of `blocks`: the start flags on the first, the end flags on the last. */
  function BlockFlags(flags: bv8, flagsStart: bv8, flagsEnd: bv8, i: nat, blocks: nat): bv8 {
    var f := if i == 0 then With(flags, flagsStart) else flags;
    if i + 1 == blocks then With(f, flagsEnd) else f
  }

  /** The chaining value after the first `n` of `blocks` blocks. */
  function HashBlocks(mode: Mode, input: seq<Byte>, blocks: nat, n: nat, counter: nat,
                      flagsStart: bv8, flagsEnd: bv8): Words
    requires |input| == BLOCK_LEN * blocks && n <= blocks
    decreases n
  {
    if n == 0 then mode.key
    else
      mode.kernel.compress(HashBlocks(mode, input, blocks, n - 1, counter, flagsStart, flagsEnd),
                           input[BLOCK_LEN * (n - 1)..BLOCK_LEN * n], BLOCK_LEN, counter,
                           BlockFlags(mode.flags, flagsStart, flagsEnd, n - 1, blocks))
  }

  lemma HashBlocksStart(mode: Mode, input: seq<Byte>, blocks: nat, counter: nat, flagsStart: bv8, flagsEnd: bv8)
    requires |input| == BLOCK_LEN * blocks
    ensures HashBlocks(mode, input, blocks, 0, counter, flagsStart, flagsEnd) == mode.key
  {
  }

  lemma HashBlocksStep(mode: Mode, input: seq<Byte>, blocks: nat, n: nat, counter: nat, flagsStart: bv8, flagsEnd: bv8)
    requires |input| == BLOCK_LEN * blocks && n < blocks
    ensures HashBlocks(mode, input, blocks, n + 1, counter, flagsStart, flagsEnd) ==
            mode.kernel.compress(HashBlocks(mode, input, blocks, n, counter, flagsStart, flagsEnd),
                                 input[BLOCK_LEN * n..BLOCK_LEN * (n + 1)], BLOCK_LEN, counter,
                                 BlockFlags(mode.flags, flagsStart, flagsEnd, n, blocks))
  {
  }

  function HashOneCv(mode: Mode, input: seq<Byte>, blocks: nat, counter: nat, flagsStart: bv8, flagsEnd: bv8): Cv
    requires |input| == BLOCK_LEN * blocks
  {
    StoreCvWords(HashBlocks(mode, input, blocks, blocks, counter, flagsStart, flagsEnd))
  }

  /** hash_one_portable */
  method HashOne(mode: Mode, input: seq<Byte>, blocks: nat, counter: nat,
                 flagsStart: InnerFlags, flagsEnd: InnerFlags) returns (out: Cv)
    requires |input| == BLOCK_LEN * blocks
    ensures out == HashOneCv(mode, input, blocks, counter, flagsStart, flagsEnd)
  {
    hide HashBlocks, StoreCvWords, With, BelowRoot;
    HashBlocksStart(mode, input, blocks, counter, flagsStart, flagsEnd);
    var cv := mode.key;
    WithBelowRoot(mode.flags, flagsStart);
    var blockFlags: InnerFlags := With(mode.flags, flagsStart);
    var n := 0;
    while n < blocks
      invariant n <= blocks
      invariant cv == HashBlocks(mode, input, blocks, n, counter, flagsStart, flagsEnd)
      invariant blockFlags == if n == 0 then With(mode.flags, flagsStart) else mode.flags
    {
      if n + 1 == blocks {
        WithBelowRoot(blockFlags, flagsEnd);
        blockFlags := With(blockFlags, flagsEnd);
      }
      HashBlocksStep(mode, input, blocks, n, counter, flagsStart, flagsEnd);
      cv := Compress(mode.kernel, cv, input[BLOCK_LEN * n..BLOCK_LEN * (n + 1)], BLOCK_LEN, counter, blockFlags);
      n := n + 1;
      blockFlags := mode.flags;
    }
    out := StoreCvWords(cv);
  }

  lemma {:induction false} HashBlocksIsChain(mode: Mode, chunk: seq<Byte>, n: nat, counter: nat)
    requires |chunk| == CHUNK_LEN && n < 16
    ensures HashBlocks(mode, chunk, 16, n, counter, CHUNK_START, CHUNK_END) == ChainBlocks(mode, chunk, counter, n)
  {
    if n > 0 {
      HashBlocksIsChain(mode, chunk, n - 1, counter);
    }
  }

  /** A full chunk hashed by hash_one's sixteen blocks is the chunk of the specification. */
  lemma HashOneIsChunk(mode: Mode, chunk: seq<Byte>, counter: nat)
    requires |chunk| == CHUNK_LEN
    ensures HashOneCv(mode, chunk, 16, counter, CHUNK_START, CHUNK_END) ==
            ChainingValue(mode, ChunkNode(mode, chunk, counter))
  {
    HashBlocksIsChain(mode, chunk, 15, counter);
    assert BlocksBeforeLast(CHUNK_LEN) == 15;
    assert ZeroPad(chunk[BLOCK_LEN * 15..]) == chunk[BLOCK_LEN * 15..BLOCK_LEN * 16];
  }

  /** One block with the PARENT flag and counter 0 is a parent of the specification. */
  lemma HashOneIsParent(mode: Mode, left: Cv, right: Cv)
    ensures HashOneCv(mode.ForParents(), Join(left, right), 1, 0, 0, 0) == ParentCv(mode, left, right)
  {
    var m := mode.ForParents();
    assert Join(left, right)[BLOCK_LEN * 0..BLOCK_LEN * 1] == Join(left, right);
    assert HashBlocks(m, Join(left, right), 1, 0, 0, 0, 0) == mode.key;
    assert BlockFlags(m.flags, 0, 0, 0, 1) == With(mode.flags, PARENT);
  }

  function CounterAt(counter: nat, incrementCounter: bool, i: nat): nat {
    counter + if incrementCounter then i else 0
  }

  /** blake3_hash_many_portable: one chaining value per input, written from `at` on. */
  method HashMany(mode: Mode, inputs: seq<seq<Byte>>, blocks: nat, counter: nat, incrementCounter: bool,
                  flagsStart: InnerFlags, flagsEnd: InnerFlags, out: array<Cv>, at: nat)
    requires forall i | 0 <= i < |inputs| :: |inputs[i]| == BLOCK_LEN * blocks
    requires at + |inputs| <= out.Length
    modifies out
    ensures out[..at] == old(out[..at]) && out[at + |inputs|..] == old(out[at + |inputs|..])
    ensures forall i | 0 <= i < |inputs| ::
              out[at + i] ==
              HashOneCv(mode, inputs[i], blocks, CounterAt(counter, incrementCounter, i), flagsStart, flagsEnd)
  {
    var n := 0;
    var ctr := counter;
    while n < |inputs|
      invariant 0 <= n <= |inputs|
      invariant ctr == counter + (if incrementCounter then n else 0)
      invariant out[..at] == old(out[..at]) && out[at + n..] == old(out[at + n..])
      invariant forall i | 0 <= i < n ::
                  out[at + i] ==
                  HashOneCv(mode, inputs[i], blocks, CounterAt(counter, incrementCounter, i), flagsStart, flagsEnd)
    {
      var cv := HashOne(mode, inputs[n], blocks, ctr, flagsStart, flagsEnd);
      out[at + n] := cv;
      if incrementCounter {
        ctr := ctr + 1;
      }
      n := n + 1;
    }
  }
}
