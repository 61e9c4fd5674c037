/** The streaming hasher: update in any pieces, then finalize, gives the recursive tree hash. */
module Blake3Hasher {
  import opened Bits
  import opened Blake3Spec
  import opened Blake3Tree
  import opened Blake3Chunk
  import opened Blake3Wide
  import opened Blake3Stack

  const MAX_DEPTH: nat := 54

  // ---------------------------------------------------------------- what the stack stands for

  /** Chunks `from` to `to` of the message. */
  function Chunks(message: seq<Byte>, from: nat, to: nat): (s: seq<Byte>)
    requires from <= to && CHUNK_LEN * to <= |message|
    ensures |s| == CHUNK_LEN * (to - from)
  {
    message[CHUNK_LEN * from..CHUNK_LEN * to]
  }

  /** A stack entry that covers chunks `from` to `to` is the chaining value of their subtree. */
  ghost predicate Covers(mode: Mode, message: seq<Byte>, from: nat, to: nat, cv: Cv) {
    from <= to && CHUNK_LEN * to <= |message| && cv == NodeCv(mode, Chunks(message, from, to), from)
  }

  /** Entry `i` of the stack covers chunks `bounds[i]` to `bounds[i + 1]`. */
  ghost predicate StackHolds(mode: Mode, message: seq<Byte>, bounds: seq<nat>, stack: seq<Cv>) {
    && |bounds| == |stack| + 1
    && forall i {:trigger stack[i]} | 0 <= i < |stack| :: Covers(mode, message, bounds[i], bounds[i + 1], stack[i])
  }

  lemma StackHoldsPrefix(mode: Mode, message: seq<Byte>, more: seq<Byte>, bounds: seq<nat>, stack: seq<Cv>)
    requires StackHolds(mode, message, bounds, stack)
    ensures StackHolds(mode, message + more, bounds, stack)
  {
    hide NodeCv;
    forall i | 0 <= i < |stack|
      ensures Covers(mode, message + more, bounds[i], bounds[i + 1], stack[i])
    {
      assert Covers(mode, message, bounds[i], bounds[i + 1], stack[i]);
      assert Chunks(message, bounds[i], bounds[i + 1]) == Chunks(message + more, bounds[i], bounds[i + 1]);
    }
  }

  lemma StackHoldsPush(mode: Mode, message: seq<Byte>, bounds: seq<nat>, stack: seq<Cv>, cv: Cv, to: nat)
    requires StackHolds(mode, message, bounds, stack) && Covers(mode, message, bounds[|stack|], to, cv)
    ensures StackHolds(mode, message, bounds + [to], stack + [cv])
  {
    hide Covers;
  }

  lemma CoversWithin(mode: Mode, message: seq<Byte>, from: nat, to: nat, cv: Cv)
    requires Covers(mode, message, from, to, cv)
    ensures CHUNK_LEN * from <= CHUNK_LEN * to <= |message|
  {
  }

  /** A complete subtree of `2p` chunks is the parent of its two halves. */
  lemma CompleteSubtree(mode: Mode, message: seq<Byte>, from: nat, p: nat)
    requires IsPow2(p) && CHUNK_LEN * (from + 2 * p) <= |message|
    ensures NodeCv(mode, Chunks(message, from, from + 2 * p), from) ==
            ParentCv(mode, NodeCv(mode, Chunks(message, from, from + p), from),
                     NodeCv(mode, Chunks(message, from + p, from + 2 * p), from + p))
  {
    hide ChunkNode, ChainingValue, ParentNode;
    var s := Chunks(message, from, from + 2 * p);
    FloorPow2Unique(2 * p - 1, p);
    assert (|s| - 1) / CHUNK_LEN == 2 * p - 1;
    assert LeftLen(|s|) == CHUNK_LEN * p;
    assert s[..CHUNK_LEN * p] == Chunks(message, from, from + p);
    assert s[CHUNK_LEN * p..] == Chunks(message, from + p, from + 2 * p);
  }

  /** Merging the top two entries when both cover `p` chunks. */
  lemma StackHoldsMerge(mode: Mode, message: seq<Byte>, bounds: seq<nat>, stack: seq<Cv>, t: nat, p: nat)
    requires StackHolds(mode, message, bounds, stack) && |stack| >= 2
    requires IsPow2(p) && p <= t
    requires bounds[|stack| - 2..] == [t - p, t, t + p]
    ensures StackHolds(mode, message, bounds[..|stack| - 1] + [t + p],
                       stack[..|stack| - 2] + [ParentCv(mode, stack[|stack| - 2], stack[|stack| - 1])])
  {
    hide NodeCv, ParentCv;
    var n := |stack|;
    assert bounds[n - 2] == t - p && bounds[n - 1] == t && bounds[n] == t + p;
    assert Covers(mode, message, t - p, t, stack[n - 2]) && Covers(mode, message, t, t + p, stack[n - 1]);
    CompleteSubtree(mode, message, t - p, p);
    var merged := stack[..n - 2] + [ParentCv(mode, stack[n - 2], stack[n - 1])];
    assert Covers(mode, message, t - p, t + p, merged[n - 2]);
    hide Covers;
  }

  /** One step of the final roll-up: the tree from boundary `i` on is the parent of entry `i` and of
      the tree from boundary `i + 1` on, when the entry is as long as the left subtree must be. */
  lemma SpineParent(mode: Mode, message: seq<Byte>, from: nat, to: nat)
    requires from < to && IsPow2(to - from)
    requires CHUNK_LEN * to < |message|
    requires (|message| - CHUNK_LEN * from - 1) / CHUNK_LEN < 2 * (to - from)
    ensures Node(mode, message[CHUNK_LEN * from..], from) ==
            ParentNode(mode, NodeCv(mode, Chunks(message, from, to), from), NodeCv(mode, message[CHUNK_LEN * to..], to))
  {
    hide ChunkNode, ChainingValue, ParentNode;
    var s := message[CHUNK_LEN * from..];
    FloorPow2Unique((|s| - 1) / CHUNK_LEN, to - from);
    assert LeftLen(|s|) == CHUNK_LEN * (to - from);
    assert s[..CHUNK_LEN * (to - from)] == Chunks(message, from, to);
    assert s[CHUNK_LEN * (to - from)..] == message[CHUNK_LEN * to..];
  }

  /** The stack is merged, or its last entry, `p` chunks long, is not merged yet. */
  ghost predicate LazyFor(bounds: seq<nat>, total: nat, p: nat) {
    p <= total && Lazy(bounds, total - p, p)
  }

  ghost predicate Mergeable(bounds: seq<nat>, total: nat) {
    bounds == Canon(total) || exists p :: LazyFor(bounds, total, p)
  }

  lemma CanonMergeable(bounds: seq<nat>, total: nat)
    requires bounds == Canon(total)
    ensures Mergeable(bounds, total)
  {
  }

  lemma LazyTop(bounds: seq<nat>, t: nat, p: nat)
    requires bounds == Canon(t) + [t + p] && IsPow2(p) && Aligned(t, p)
    ensures LazyFor(bounds, t + p, p)
  {
  }

  /** What merging does to the boundaries: either they are those of a merged stack, with one entry
      per set bit, or the stack is longer than that and its top two entries have the same length. */
  lemma MergeStep(bounds: seq<nat>, total: nat, p: nat)
    requires LazyFor(bounds, total, p)
    ensures |bounds| - 1 <= Popcount(total) ==> bounds == Canon(total) && |bounds| - 1 == Popcount(total)
    ensures |bounds| - 1 > Popcount(total) ==>
              var n := |bounds| - 1;
              && n >= 2 && IsPow2(p) && 2 * p <= total && bounds[n - 2..] == [total - 2 * p, total - p, total]
              && LazyFor(bounds[..n - 1] + [total], total, 2 * p)
  {
    hide Canon, Popcount, LowBit, Aligned, IsPow2;
    var t := total - p;
    LazyStep(t, p);
    CanonLength(t);
    assert |bounds| == Popcount(t) + 2;
    if Popcount(total) <= Popcount(t) {
      MergeTwins(bounds, t, p);
    }
  }

  lemma MergeTwins(bounds: seq<nat>, t: nat, p: nat)
    requires bounds == Canon(t) + [t + p] && IsPow2(p) && p <= t && LowBit(t) == p && Aligned(t - p, 2 * p)
    ensures var n := |bounds| - 1;
            && n >= 2 && bounds[n - 2..] == [t - p, t, t + p]
            && LazyFor(bounds[..n - 1] + [t + p], t + p, 2 * p)
  {
    hide Canon, LowBit, IsPow2, Aligned;
    var c := Canon(t - p);
    CanonUnfold(t);
    DoublePow2(p);
    assert c[|c| - 1] == t - p;
    assert Lazy(c + [t - p + 2 * p], t - p, 2 * p);
    assert bounds == c + [t, t + p];
    LastThree(bounds, c, t, t + p);
    assert LazyFor(c + [t + p], t + p, 2 * p);
  }

  lemma LastThree(bounds: seq<nat>, c: seq<nat>, y: nat, z: nat)
    requires |c| > 0 && bounds == c + [y, z]
    ensures var n := |bounds| - 1;
            n >= 2 && bounds[n - 2..] == [c[|c| - 1], y, z] && bounds[..n - 1] == c
  {
  }

  lemma MergeableLength(bounds: seq<nat>, total: nat)
    requires Mergeable(bounds, total)
    ensures |bounds| - 1 >= Popcount(total)
    ensures |bounds| - 1 == Popcount(total) ==> bounds == Canon(total)
    ensures |bounds| - 1 > Popcount(total) ==> exists p :: LazyFor(bounds, total, p)
  {
    CanonLength(total);
    if p :| LazyFor(bounds, total, p) {
      MergeStep(bounds, total, p);
    }
  }

  lemma ChunkCountBound(message: seq<Byte>, t: nat)
    requires |message| < TWO_TO_64 && CHUNK_LEN * t <= |message|
    ensures Popcount(t) <= MAX_DEPTH
  {
    SmallPow2();
    PopcountBound(t, 54);
  }

  // ---------------------------------------------------------------- choosing a subtree

  /** A subtree length that update may choose: it fits the input and divides the bytes so far. */
  ghost predicate Fits(q: nat, inputLen: nat, countSoFar: nat) {
    IsPow2(q) && q <= inputLen && countSoFar % q == 0
  }

  ghost predicate NoneAbove(p: nat, inputLen: nat, countSoFar: nat) {
    forall q: nat | Fits(q, inputLen, countSoFar) :: q <= p
  }

  /** The loop in blake3_hasher_update that shrinks the next subtree: the result is the largest power
      of two that fits the input and divides the bytes so far, and it is at least one chunk. */
  method ChooseSubtree(inputLen: nat, countSoFar: nat) returns (subtreeLen: nat)
    requires CHUNK_LEN < inputLen < TWO_TO_64 && countSoFar % CHUNK_LEN == 0
    ensures CHUNK_LEN <= subtreeLen <= inputLen
    ensures Fits(subtreeLen, inputLen, countSoFar) && NoneAbove(subtreeLen, inputLen, countSoFar)
    ensures Aligned(countSoFar, subtreeLen)
  {
    hide Aligned, BitAnd, FloorPow2, NoneAbove, IsPow2;
    subtreeLen := RoundDownToPowerOf2(inputLen);
    StartAtFloor(subtreeLen, inputLen, countSoFar);
    while BitAnd(subtreeLen - 1, countSoFar) != 0
      invariant IsPow2(subtreeLen) && CHUNK_LEN <= subtreeLen <= inputLen
      invariant NoneAbove(subtreeLen, inputLen, countSoFar)
      decreases subtreeLen
    {
      MaskIsMod(subtreeLen, countSoFar);
      ShrinkStep(subtreeLen, inputLen, countSoFar);
      subtreeLen := subtreeLen / 2;
    }
    MaskIsMod(subtreeLen, countSoFar);
    AlignedIsDivisible(countSoFar, subtreeLen);
  }

  lemma ChunkLenIsPow2()
    ensures IsPow2(CHUNK_LEN)
  {
    assert IsPow2(16);
    assert IsPow2(128);
  }

  lemma StartAtFloor(p: nat, len: nat, count: nat)
    requires IsPow2(p) && p <= len < 2 * p && len > CHUNK_LEN
    ensures p >= CHUNK_LEN && NoneAbove(p, len, count)
  {
    ChunkLenIsPow2();
    if p < CHUNK_LEN {
      Pow2Gap(p, CHUNK_LEN);
    }
    forall q: nat | Fits(q, len, count)
      ensures q <= p
    {
      if q > p {
        Pow2Gap(p, q);
      }
    }
  }

  lemma ShrinkStep(p: nat, len: nat, count: nat)
    requires IsPow2(p) && p >= CHUNK_LEN && count % p != 0 && count % CHUNK_LEN == 0
    requires NoneAbove(p, len, count)
    ensures IsPow2(p / 2) && p / 2 >= CHUNK_LEN && NoneAbove(p / 2, len, count)
  {
    ChunkLenIsPow2();
    assert p > CHUNK_LEN;
    Pow2Gap(CHUNK_LEN, p);
    forall q: nat | Fits(q, len, count)
      ensures q <= p / 2
    {
      assert q != p;
      Pow2Gap(q, p);
    }
  }

  /** Byte alignment is chunk alignment. */
  lemma AlignedChunks(count: nat, p: nat)
    requires IsPow2(p) && p >= CHUNK_LEN && Aligned(CHUNK_LEN * count, p)
    ensures p % CHUNK_LEN == 0 && IsPow2(p / CHUNK_LEN) && Aligned(count, p / CHUNK_LEN)
  {
    AlignedScale(count, p, 10);
    assert Pow2(4) == 16;
    assert Pow2(7) == 8 * Pow2(4);
    assert Pow2(10) == 8 * Pow2(7);
  }

  lemma {:induction false} AlignedScale(count: nat, p: nat, e: nat)
    requires IsPow2(p) && p >= Pow2(e) && Aligned(Pow2(e) * count, p)
    ensures p % Pow2(e) == 0 && IsPow2(p / Pow2(e)) && Aligned(count, p / Pow2(e))
  {
    if e > 0 {
      assert Pow2(e) * count == 2 * (Pow2(e - 1) * count);
      AlignedScale(count, p / 2, e - 1);
      HalveDiv(p, Pow2(e - 1));
      HalveMod(p, Pow2(e - 1));
    }
  }

  // ---------------------------------------------------------------- the hasher

  /** blake3_hasher. The ghost fields are the message so far and the boundaries of the stack. */
  class Hasher {
    const kernel: Kernel
    const platform: Platform
    var key: Words
    const chunk: ChunkState
    var cvStackLen: nat
    const cvStack: array<Cv>
    ghost var message: seq<Byte>
    ghost var bounds: seq<nat>

    ghost function ModeOf(): Mode
      reads this, chunk
    {
      Mode(kernel, key, chunk.flags)
    }

    /** The stack covers the first `total` chunks of the message. */
    ghost predicate StackOk(total: nat)
      reads this, chunk, cvStack
    {
      && platform.Valid() && |message| < TWO_TO_64
      && cvStack.Length == MAX_DEPTH + 1 && cvStackLen <= cvStack.Length
      && StackHolds(ModeOf(), message, bounds, cvStack[..cvStackLen])
      && bounds[0] == 0 && bounds[cvStackLen] == total
    }

    /** The chunk state holds the message from its own chunk number on, up to `consumed` bytes. */
    ghost predicate ChunkOk(consumed: nat)
      reads this, chunk, chunk.buf
    {
      && chunk.Valid() && chunk.kernel == kernel && chunk.key == key
      && CHUNK_LEN * chunk.chunkCounter + |chunk.data| == consumed <= |message|
      && chunk.data == message[CHUNK_LEN * chunk.chunkCounter..consumed]
    }

    /** The first `consumed` bytes of the message are in the stack and the chunk state. */
    ghost predicate Consumed(consumed: nat)
      reads this, chunk, chunk.buf, cvStack
    {
      StackOk(chunk.chunkCounter) && ChunkOk(consumed)
    }

    /** Between calls: all of the message is consumed; when the chunk state holds bytes, or nothing
        has been hashed, the stack is merged; otherwise its last entry is not merged yet and there
        are at least two entries. */
    ghost predicate Valid()
      reads this, chunk, chunk.buf, cvStack
    {
      && Consumed(|message|)
      && (if chunk.data != [] || message == [] then bounds == Canon(chunk.chunkCounter)
          else cvStackLen >= 2 && exists p :: LazyFor(bounds, chunk.chunkCounter, p))
    }

    /** hasher_init_base */
    constructor Init(kernel: Kernel, platform: Platform, key: Words, flags: InnerFlags)
      requires platform.Valid()
      ensures Valid() && fresh(chunk) && fresh(chunk.buf) && fresh(cvStack)
      ensures this.kernel == kernel && this.platform == platform
      ensures ModeOf() == Mode(kernel, key, flags) && message == []
    {
      this.kernel := kernel;
      this.platform := platform;
      this.key := key;
      chunk := new ChunkState.Init(kernel, key, flags);
      cvStackLen := 0;
      cvStack := new Cv[MAX_DEPTH + 1];
      message := [];
      bounds := [0];
    }

    /** blake3_hasher_reset */
    method Reset()
      requires Valid()
      modifies this, chunk, chunk.buf
      ensures Valid() && ModeOf() == old(ModeOf()) && message == []
    {
      chunk.Reset(key, 0);
      cvStackLen := 0;
      message := [];
      bounds := [0];
    }

    /** hasher_merge_cv_stack: afterwards there is one entry per set bit of the chunk count. */
    method MergeCvStack(total: nat)
      requires StackOk(total) && Mergeable(bounds, total)
      modifies this`cvStackLen, this`bounds, cvStack
      ensures StackOk(total)
      ensures bounds == Canon(total) && cvStackLen == Popcount(total)
    {
      hide NodeCv, LazyFor, Canon, Covers, Popcount;
      var postMergeStackLen := Popcnt(total);
      MergeableLength(bounds, total);
      while cvStackLen > postMergeStackLen
        invariant StackOk(total) && Mergeable(bounds, total)
        invariant cvStackLen >= postMergeStackLen
        invariant cvStackLen == postMergeStackLen ==> bounds == Canon(total)
        invariant cvStackLen > postMergeStackLen ==> exists p :: LazyFor(bounds, total, p)
        decreases cvStackLen
      {
        ghost var p :| LazyFor(bounds, total, p);
        MergeStep(bounds, total, p);
        MergeTop(total, p);
        MergeableLength(bounds, total);
      }
    }

    /** The body of the merging loop: the top two entries become their parent. */
    method MergeTop(ghost total: nat, ghost p: nat)
      requires StackOk(total) && cvStackLen >= 2
      requires IsPow2(p) && 2 * p <= total && bounds[cvStackLen - 2..] == [total - 2 * p, total - p, total]
      modifies this`cvStackLen, this`bounds, cvStack
      ensures StackOk(total)
      ensures cvStackLen == old(cvStackLen) - 1
      ensures bounds == old(bounds)[..cvStackLen] + [total]
    {
      assert |bounds| == cvStackLen + 1;
      hide NodeCv, Covers, StackHolds;
      ghost var stack := cvStack[..cvStackLen];
      StackHoldsMerge(ModeOf(), message, bounds, stack, total - p, p);
      var mode := Mode(kernel, key, chunk.flags);
      var output := ParentNode(mode, cvStack[cvStackLen - 2], cvStack[cvStackLen - 1]);
      ParentBelowRoot(mode, cvStack[cvStackLen - 2], cvStack[cvStackLen - 1]);
      cvStack[cvStackLen - 2] := OutputChainingValue(mode, output);
      cvStackLen := cvStackLen - 1;
      bounds := bounds[..cvStackLen] + [total];
      assert cvStack[..cvStackLen] == stack[..|stack| - 2] + [ParentCv(mode, stack[|stack| - 2], stack[|stack| - 1])];
    }

    /** hasher_push_cv: the stack is merged first, so the new entry lies on top unmerged. There is
        always room for it. */
    method PushCv(newCv: Cv, chunkCounter: nat, ghost p: nat)
      requires StackOk(chunkCounter) && Mergeable(bounds, chunkCounter)
      requires Covers(ModeOf(), message, chunkCounter, chunkCounter + p, newCv)
      modifies this`cvStackLen, this`bounds, cvStack
      ensures StackOk(chunkCounter + p)
      ensures bounds == Canon(chunkCounter) + [chunkCounter + p]
      ensures cvStackLen == Popcount(chunkCounter) + 1
    {
      hide NodeCv, Covers, Popcount, Canon, StackHolds, Mergeable;
      assert CHUNK_LEN * chunkCounter <= |message| by {
        CoversWithin(ModeOf(), message, chunkCounter, chunkCounter + p, newCv);
      }
      ChunkCountBound(message, chunkCounter);
      MergeCvStack(chunkCounter);
      assert |bounds| == cvStackLen + 1 by { CanonLength(chunkCounter); }
      StackHoldsPush(ModeOf(), message, bounds, cvStack[..cvStackLen], newCv, chunkCounter + p);
      ghost var stack := cvStack[..cvStackLen];
      cvStack[cvStackLen] := newCv;
      cvStackLen := cvStackLen + 1;
      bounds := bounds + [chunkCounter + p];
      assert cvStack[..cvStackLen] == stack + [newCv];
    }

    /** The first part of update: a chunk that is already begun is filled up, and pushed when more
        input follows it. */
    method FinishChunk(input: seq<Byte>, ghost consumed: nat) returns (rest: seq<Byte>)
      requires Consumed(consumed) && bounds == Canon(chunk.chunkCounter)
      requires chunk.data != [] && input != [] && message[consumed..] == input
      modifies this`cvStackLen, this`bounds, cvStack, chunk, chunk.buf
      ensures ModeOf() == old(ModeOf())
      ensures |rest| <= |message| && Consumed(|message| - |rest|) && message[|message| - |rest|..] == rest
      ensures rest == [] ==> bounds == Canon(chunk.chunkCounter) && chunk.data != []
      ensures rest != [] ==> chunk.data == [] && Mergeable(bounds, chunk.chunkCounter)
    {
      hide Node, NodeCv, ChunkNode, ChainingValue, Canon, StackHolds, Covers, ChainBlocks, LazyFor;
      var take := CHUNK_LEN - chunk.Len();
      if take > |input| {
        take := |input|;
      }
      SliceGrows(message, CHUNK_LEN * chunk.chunkCounter, consumed, take);
      chunk.Update(input[..take]);
      rest := input[take..];
      if |rest| > 0 {
        var output := chunk.Finish();
        var chunkCv := OutputChainingValue(Mode(kernel, key, chunk.flags), output);
        var c := chunk.chunkCounter;
        WholeChunk(ModeOf(), message, c, chunk.data);
        PushCv(chunkCv, c, 1);
        AlignedOne(c);
        LazyTop(bounds, c, 1);
        chunk.Reset(key, c + 1);
      }
    }

    /** The body of update's main loop: the largest whole subtree that may come next is hashed and
        pushed, as one value if it is a single chunk and as the two halves of the tree otherwise. */
    method HashSubtree(input: seq<Byte>) returns (rest: seq<Byte>)
      requires |input| <= |message| && Consumed(|message| - |input|) && message[|message| - |input|..] == input
      requires chunk.data == [] && Mergeable(bounds, chunk.chunkCounter)
      requires |input| > CHUNK_LEN
      modifies this`cvStackLen, this`bounds, cvStack, chunk`chunkCounter
      ensures ModeOf() == old(ModeOf())
      ensures |rest| < |input| && Consumed(|message| - |rest|) && message[|message| - |rest|..] == rest
      ensures chunk.data == [] && Mergeable(bounds, chunk.chunkCounter)
      ensures rest == [] ==> cvStackLen >= 2 && exists p :: LazyFor(bounds, chunk.chunkCounter, p)
    {
      hide Node, NodeCv, Canon, StackHolds, Covers, Fits, NoneAbove, Aligned, IsPow2, ChainBlocks, LeftLen, LazyFor;
      var counter := chunk.chunkCounter;
      var subtreeLen := ChooseSubtree(|input|, counter * CHUNK_LEN);
      var subtreeChunks := subtreeLen / CHUNK_LEN;
      SubtreeFacts(subtreeLen, |input|, counter);
      if subtreeLen <= CHUNK_LEN {
        PushSingle(input, counter);
      } else {
        PushPair(input, counter, subtreeChunks / 2);
      }
      chunk.Advance(subtreeChunks);
      rest := input[subtreeLen..];
    }

    method PushSingle(input: seq<Byte>, counter: nat)
      requires StackOk(counter) && Mergeable(bounds, counter)
      requires |input| + CHUNK_LEN * counter == |message| && message[CHUNK_LEN * counter..] == input
      requires |input| > CHUNK_LEN
      modifies this`cvStackLen, this`bounds, cvStack
      ensures StackOk(counter + 1) && LazyFor(bounds, counter + 1, 1)
    {
      hide Node, NodeCv, Canon, StackHolds, Covers;
      var cv := HashChunk(Mode(kernel, key, chunk.flags), input[..CHUNK_LEN], counter);
      SubtreeCovers(ModeOf(), message, input, counter);
      PushCv(cv, counter, 1);
      LazyTop(bounds, counter, 1);
    }

    /** Two entries for a subtree of `2 * half` chunks; the second one stays unmerged. */
    method PushPair(input: seq<Byte>, counter: nat, half: nat)
      requires StackOk(counter) && Mergeable(bounds, counter)
      requires |input| + CHUNK_LEN * counter == |message| && message[CHUNK_LEN * counter..] == input
      requires IsPow2(half) && Aligned(counter, 2 * half) && CHUNK_LEN * (2 * half) <= |input|
      modifies this`cvStackLen, this`bounds, cvStack
      ensures StackOk(counter + 2 * half) && LazyFor(bounds, counter + 2 * half, half)
      ensures cvStackLen == Popcount(counter) + 2
    {
      hide Canon, StackHolds, Covers, Popcount, Aligned, Mergeable, Lazy, LazyFor, IsPow2;
      var left, right := HashPair(input, counter, half);
      PairPush(counter, half);
      PushCv(left, counter, half);
      CanonMergeable(bounds, counter + half);
      PushCv(right, counter + half, half);
      LazyTop(bounds, counter + half, half);
    }

    method HashPair(input: seq<Byte>, counter: nat, half: nat) returns (left: Cv, right: Cv)
      requires platform.Valid() && |message| < TWO_TO_64
      requires |input| + CHUNK_LEN * counter == |message| && message[CHUNK_LEN * counter..] == input
      requires IsPow2(half) && CHUNK_LEN * (2 * half) <= |input|
      ensures Covers(ModeOf(), message, counter, counter + half, left)
      ensures Covers(ModeOf(), message, counter + half, counter + 2 * half, right)
    {
      hide Node, NodeCv, Covers, LeftLen;
      PairCovers(ModeOf(), message, input, counter, half);
      left, right := CompressSubtreeToParentNode(Mode(kernel, key, chunk.flags), platform,
                                                 input[..CHUNK_LEN * (2 * half)], counter);
    }

    /** blake3_hasher_update */
    method Update(input: seq<Byte>)
      requires Valid() && |message| + |input| < TWO_TO_64
      modifies this, chunk, chunk.buf, cvStack
      ensures Valid() && ModeOf() == old(ModeOf())
      ensures message == old(message) + input
    {
      if |input| == 0 {
        assert message == old(message) + input;
        return;
      }
      Extend(input);
      hide Canon, StackHolds, ChainBlocks, Mergeable, ZeroPad;
      var rest := input;
      if chunk.Len() > 0 {
        rest := FinishChunk(rest, |old(message)|);
      }
      if |rest| > 0 {
        HashRest(rest);
      }
    }

    /** The main loop of update, and what is left after it. */
    method HashRest(input: seq<Byte>)
      requires 0 < |input| <= |message| && Consumed(|message| - |input|) && message[|message| - |input|..] == input
      requires chunk.data == [] && Mergeable(bounds, chunk.chunkCounter)
      modifies this`cvStackLen, this`bounds, cvStack, chunk, chunk.buf
      ensures Valid() && ModeOf() == old(ModeOf())
    {
      hide Canon, StackHolds, ChainBlocks, Mergeable, LazyFor, ZeroPad;
      var rest := input;
      while |rest| > CHUNK_LEN
        invariant ModeOf() == old(ModeOf())
        invariant |rest| <= |message| && Consumed(|message| - |rest|) && message[|message| - |rest|..] == rest
        invariant chunk.data == [] && Mergeable(bounds, chunk.chunkCounter)
        invariant rest == [] ==> cvStackLen >= 2 && exists p :: LazyFor(bounds, chunk.chunkCounter, p)
        decreases |rest|
      {
        rest := HashSubtree(rest);
      }
      if |rest| > 0 {
        KeepRemainder(rest);
      }
    }

    /** The message grows by the new input, none of which has been consumed yet. */
    ghost method Extend(input: seq<Byte>)
      requires Valid() && input != [] && |message| + |input| < TWO_TO_64
      modifies this`message
      ensures message == old(message) + input
      ensures Consumed(|old(message)|) && message[|old(message)|..] == input
      ensures chunk.data != [] ==> bounds == Canon(chunk.chunkCounter)
      ensures chunk.data == [] ==> Mergeable(bounds, chunk.chunkCounter)
    {
      hide Node, NodeCv, Canon, Covers, ChainBlocks, LazyFor;
      StackHoldsPrefix(ModeOf(), message, input, bounds, cvStack[..cvStackLen]);
      hide StackHolds;
      message := message + input;
    }

    /** The last part of update: at most one chunk is left, and the stack is merged before it. */
    method KeepRemainder(rest: seq<Byte>)
      requires 0 < |rest| <= CHUNK_LEN && |rest| <= |message|
      requires Consumed(|message| - |rest|) && message[|message| - |rest|..] == rest
      requires chunk.data == [] && Mergeable(bounds, chunk.chunkCounter)
      modifies this`cvStackLen, this`bounds, cvStack, chunk, chunk.buf
      ensures Valid() && ModeOf() == old(ModeOf())
    {
      hide Node, NodeCv, Canon, StackHolds, Covers, ChainBlocks, Mergeable;
      chunk.Update(rest);
      MergeCvStack(chunk.chunkCounter);
    }

    /** What the roll-up in finalize needs: from boundary `i` on, entry `i` is the left subtree. */
    lemma RollUp(i: nat)
      requires Valid() && i + (if chunk.data == [] then 1 else 0) < cvStackLen
      ensures CHUNK_LEN * bounds[i] <= CHUNK_LEN * bounds[i + 1] < |message|
      ensures Node(ModeOf(), message[CHUNK_LEN * bounds[i]..], bounds[i]) ==
              ParentNode(ModeOf(), cvStack[i], NodeCv(ModeOf(), message[CHUNK_LEN * bounds[i + 1]..], bounds[i + 1]))
    {
      hide Node, NodeCv, ParentNode, ChainBlocks;
      var c := chunk.chunkCounter;
      assert Covers(ModeOf(), message, bounds[i], bounds[i + 1], cvStack[..cvStackLen][i]);
      if chunk.data == [] {
        var p :| LazyFor(bounds, c, p);
        SpineLazy(bounds, c, p, i);
      } else {
        SpineMerged(bounds, c, i);
      }
      hide StackHolds, Canon, Lazy, LazyFor;
      SpineParent(ModeOf(), message, bounds[i], bounds[i + 1]);
    }

    /** The unmerged top of the stack is the rest of the message. */
    lemma TopEntry()
      requires Valid() && chunk.data == [] && cvStackLen > 0
      ensures CHUNK_LEN * bounds[cvStackLen - 1] <= |message|
      ensures cvStack[cvStackLen - 1] ==
              NodeCv(ModeOf(), message[CHUNK_LEN * bounds[cvStackLen - 1]..], bounds[cvStackLen - 1])
    {
      hide NodeCv;
      var n := cvStackLen;
      assert Covers(ModeOf(), message, bounds[n - 1], bounds[n], cvStack[..n][n - 1]);
      assert Chunks(message, bounds[n - 1], bounds[n]) == message[CHUNK_LEN * bounds[n - 1]..];
    }

    /** The chunk being filled is the rest of the message. */
    lemma LastChunk()
      requires Valid() && (chunk.data != [] || message == [])
      ensures CHUNK_LEN * bounds[cvStackLen] <= |message|
      ensures ChunkNode(ModeOf(), chunk.data, chunk.chunkCounter) ==
              Node(ModeOf(), message[CHUNK_LEN * bounds[cvStackLen]..], bounds[cvStackLen])
    {
      assert |bounds| == cvStackLen + 1;
      hide ChunkNode, StackHolds;
      assert chunk.data == message[CHUNK_LEN * bounds[cvStackLen]..];
    }

    /** blake3_hasher_finalize_seek: the output is that stretch of the hash of the whole message, and
        the hasher is left as it was. `calls` records the compressions with ROOT: there is one for each
        output block, and everything else is compressed without it. */
    method FinalizeSeek(seek: nat, out: array<Byte>) returns (ghost calls: seq<(nat, bv8)>)
      requires Valid() && out != chunk.buf
      modifies out
      ensures out[..] == Hash(ModeOf(), message, seek, out.Length)
      ensures OnePerBlock(calls, Node(ModeOf(), message, 0).flags, seek, out.Length)
    {
      hide Node, NodeCv, ChunkNode, ParentNode, Stream, StackHolds, ChainBlocks;
      calls := [];
      if out.Length == 0 {
        return;
      }
      var output := RootNode();
      calls := OutputRootBytes(kernel, output, seek, out);
    }

    /** The tree from boundary `i` on. */
    ghost predicate IsTail(output: Output, i: nat)
      reads this, chunk
    {
      && i < |bounds| && CHUNK_LEN * bounds[i] <= |message|
      && output == Node(ModeOf(), message[CHUNK_LEN * bounds[i]..], bounds[i])
    }

    /** Where the roll-up starts: the chunk being filled, or the parent of the top two entries. */
    method LastNode() returns (output: Output, cvsRemaining: nat)
      requires Valid()
      ensures IsTail(output, cvsRemaining)
      ensures cvsRemaining + (if chunk.data == [] && cvStackLen > 0 then 2 else 0) == cvStackLen
    {
      assert |bounds| == cvStackLen + 1;
      hide Node, NodeCv, ChunkNode, ParentNode, StackHolds, ChainBlocks, Canon, LazyFor;
      var mode := Mode(kernel, key, chunk.flags);
      if cvStackLen == 0 || chunk.Len() > 0 {
        LastChunk();
        cvsRemaining := cvStackLen;
        output := chunk.Finish();
      } else {
        cvsRemaining := cvStackLen - 2;
        TopEntry();
        RollUp(cvsRemaining);
        output := ParentNode(mode, cvStack[cvsRemaining], cvStack[cvsRemaining + 1]);
      }
    }

    /** The root of the tree, not yet compressed. */
    method RootNode() returns (output: Output)
      requires Valid()
      ensures output == Node(ModeOf(), message, 0)
    {
      hide Node, NodeCv, ChunkNode, ParentNode, StackHolds, ChainBlocks, Canon, LazyFor;
      var mode := Mode(kernel, key, chunk.flags);
      var cvsRemaining: nat;
      output, cvsRemaining := LastNode();
      while cvsRemaining > 0
        invariant cvsRemaining + (if chunk.data == [] && cvStackLen > 0 then 2 else 0) <= cvStackLen
        invariant IsTail(output, cvsRemaining)
      {
        cvsRemaining := cvsRemaining - 1;
        RollUp(cvsRemaining);
        NodeCvOf(mode, message[CHUNK_LEN * bounds[cvsRemaining + 1]..], bounds[cvsRemaining + 1]);
        output := ParentNode(mode, cvStack[cvsRemaining], OutputChainingValue(mode, output));
      }
      assert message[CHUNK_LEN * bounds[0]..] == message;
    }
  }

  lemma NodeCvOf(mode: Mode, input: seq<Byte>, counter: nat)
    ensures NodeCv(mode, input, counter) == ChainingValue(mode, Node(mode, input, counter))
    ensures BelowRoot(Node(mode, input, counter).flags)
  {
    NodeBelowRoot(mode, input, counter);
  }

  lemma SpineMerged(bounds: seq<nat>, c: nat, i: nat)
    requires bounds == Canon(c) && i + 1 < |bounds|
    ensures bounds[i] < bounds[i + 1] <= c && IsPow2(bounds[i + 1] - bounds[i])
    ensures c - bounds[i] < 2 * (bounds[i + 1] - bounds[i])
  {
    hide Canon, Aligned, IsPow2;
    AlignedOne(c);
    SpineGaps(c, 1, i);
  }

  lemma SpineLazy(bounds: seq<nat>, c: nat, p: nat, i: nat)
    requires LazyFor(bounds, c, p) && i + 2 < |bounds|
    ensures bounds[i] < bounds[i + 1] < c && IsPow2(bounds[i + 1] - bounds[i])
    ensures c - 1 - bounds[i] < 2 * (bounds[i + 1] - bounds[i])
  {
    hide Canon, Aligned, IsPow2;
    Pow2Positive(p);
    var t := c - p;
    SpineGaps(t, p, i);
    assert bounds[i] == Canon(t)[i] && bounds[i + 1] == Canon(t)[i + 1];
  }


  lemma SubtreeFacts(subtreeLen: nat, inputLen: nat, counter: nat)
    requires CHUNK_LEN <= subtreeLen && Fits(subtreeLen, inputLen, counter * CHUNK_LEN)
    requires Aligned(counter * CHUNK_LEN, subtreeLen)
    ensures var p := subtreeLen / CHUNK_LEN;
            && subtreeLen == CHUNK_LEN * p && p >= 1
            && (subtreeLen > CHUNK_LEN ==> p == 2 * (p / 2) && IsPow2(p / 2) && Aligned(counter, p))
  {
    AlignedChunks(counter, subtreeLen);
  }

  /** The first chunk of the input is the next chunk of the message. */
  lemma SubtreeCovers(mode: Mode, message: seq<Byte>, input: seq<Byte>, counter: nat)
    requires |input| + CHUNK_LEN * counter == |message| && message[CHUNK_LEN * counter..] == input
    requires |input| > CHUNK_LEN
    ensures Covers(mode, message, counter, counter + 1,
                   ChainingValue(mode, ChunkNode(mode, input[..CHUNK_LEN], counter)))
  {
    hide ChainingValue, ChunkNode, Covers;
    assert input[..CHUNK_LEN] == Chunks(message, counter, counter + 1);
    WholeChunk(mode, message, counter, input[..CHUNK_LEN]);
  }

  lemma SliceGrows(s: seq<Byte>, from: nat, to: nat, n: nat)
    requires from <= to && to + n <= |s|
    ensures s[from..to + n] == s[from..to] + s[to..][..n]
    ensures s[to..][n..] == s[to + n..]
  {
  }

  /** The two halves of a subtree of `2p` chunks cover the next chunks of the message. */
  lemma PairCovers(mode: Mode, message: seq<Byte>, input: seq<Byte>, counter: nat, p: nat)
    requires |input| + CHUNK_LEN * counter == |message| && message[CHUNK_LEN * counter..] == input
    requires IsPow2(p) && CHUNK_LEN * (2 * p) <= |input|
    ensures var s := input[..CHUNK_LEN * (2 * p)];
            var l := LeftLen(|s|);
            && Covers(mode, message, counter, counter + p, NodeCv(mode, s[..l], counter))
            && Covers(mode, message, counter + p, counter + 2 * p, NodeCv(mode, s[l..], counter + l / CHUNK_LEN))
  {
    hide NodeCv;
    var s := input[..CHUNK_LEN * (2 * p)];
    FloorPow2Unique(2 * p - 1, p);
    assert (|s| - 1) / CHUNK_LEN == 2 * p - 1;
    assert LeftLen(|s|) == CHUNK_LEN * p;
    hide LeftLen;
    SliceOfSuffix(message, CHUNK_LEN * counter, 0, CHUNK_LEN * p);
    SliceOfSuffix(message, CHUNK_LEN * counter, CHUNK_LEN * p, CHUNK_LEN * (2 * p));
    assert s[..CHUNK_LEN * p] == Chunks(message, counter, counter + p);
    assert s[CHUNK_LEN * p..] == Chunks(message, counter + p, counter + 2 * p);
  }

  lemma WholeChunk(mode: Mode, message: seq<Byte>, c: nat, chunk: seq<Byte>)
    requires CHUNK_LEN * (c + 1) <= |message| && chunk == Chunks(message, c, c + 1)
    ensures Covers(mode, message, c, c + 1, ChainingValue(mode, ChunkNode(mode, chunk, c)))
  {
  }
}
