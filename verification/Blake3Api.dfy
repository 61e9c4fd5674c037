/** Whole hashing sessions: any number of updates, the keyed and key-derivation modes. */
module Blake3Api {
  import opened Blake3Spec
  import opened Blake3Wide
  import opened Blake3Hasher
  import opened Bits

  const HASH_LEN: nat := 32

  function Flatten(pieces: seq<seq<Byte>>): seq<Byte> {
    if pieces == [] then [] else Flatten(pieces[..|pieces| - 1]) + pieces[|pieces| - 1]
  }

  lemma {:induction false} FlattenPrefix(pieces: seq<seq<Byte>>, n: nat)
    requires n <= |pieces|
    ensures |Flatten(pieces[..n])| <= |Flatten(pieces)|
    decreases |pieces| - n
  {
    if n == |pieces| {
      assert pieces[..n] == pieces;
    } else {
      FlattenPrefix(pieces, n + 1);
      assert pieces[..n + 1][..n] == pieces[..n];
    }
  }

  /** Streaming equals the specification: however a message is cut into pieces, on whatever
      platform, initialising, updating with each piece and finalizing yields the bytes of the
      recursive tree hash of the whole message. */
  method HashPieces(mode: Mode, platform: Platform, pieces: seq<seq<Byte>>, seek: nat, n: nat)
    returns (out: seq<Byte>)
    requires platform.Valid() && |Flatten(pieces)| < TWO_TO_64
    ensures out == Hash(mode, Flatten(pieces), seek, n)
  {
    hide Hash;
    var hasher := new Hasher.Init(mode.kernel, platform, mode.key, mode.flags);
    for i := 0 to |pieces|
      invariant hasher.Valid() && hasher.ModeOf() == mode
      invariant fresh(hasher) && fresh(hasher.chunk) && fresh(hasher.chunk.buf) && fresh(hasher.cvStack)
      invariant hasher.message == Flatten(pieces[..i])
    {
      FlattenPrefix(pieces, i + 1);
      assert pieces[..i + 1][..i] == pieces[..i];
      hasher.Update(pieces[i]);
    }
    assert pieces[..|pieces|] == pieces;
    var buffer := new Byte[n];
    ghost var calls := hasher.FinalizeSeek(seek, buffer);
    out := buffer[..];
  }

  /** Two reads of a hasher's output: overlapping bytes agree, and reading on where the first read ended
      continues it. */
  method ReadTwice(hasher: Hasher, seek1: nat, n1: nat, seek2: nat, n2: nat)
    returns (x: seq<Byte>, y: seq<Byte>)
    requires hasher.Valid()
    ensures |x| == n1 && |y| == n2
    ensures forall i, j | 0 <= i < n1 && 0 <= j < n2 && seek1 + i == seek2 + j :: x[i] == y[j]
    ensures seek2 == seek1 + n1 ==> x + y == Hash(hasher.ModeOf(), hasher.message, seek1, n1 + n2)
  {
    hide Hash;
    StretchesAgree(hasher.ModeOf(), hasher.message, seek1, n1, seek2, n2);
    x := Read(hasher, seek1, n1);
    y := Read(hasher, seek2, n2);
  }

  method Read(hasher: Hasher, seek: nat, n: nat) returns (x: seq<Byte>)
    requires hasher.Valid()
    ensures x == Hash(hasher.ModeOf(), hasher.message, seek, n)
  {
    hide Hash;
    var buffer := new Byte[n];
    ghost var calls := hasher.FinalizeSeek(seek, buffer);
    x := buffer[..];
  }

  /** Two ways of cutting one message give the same output, on any two platforms. */
  method SameMessageSameHash(mode: Mode, p1: Platform, p2: Platform, a: seq<seq<Byte>>, b: seq<seq<Byte>>, n: nat)
    returns (x: seq<Byte>, y: seq<Byte>)
    requires p1.Valid() && p2.Valid()
    requires Flatten(a) == Flatten(b) && |Flatten(a)| < TWO_TO_64
    ensures x == y && |x| == n
  {
    x := HashPieces(mode, p1, a, 0, n);
    y := HashPieces(mode, p2, b, 0, n);
  }

  /** blake3_hasher_init, with blake3_hasher_update and blake3_hasher_finalize, over one piece. */
  method HashOnce(kernel: Kernel, platform: Platform, input: seq<Byte>) returns (out: Cv)
    requires platform.Valid() && |input| < TWO_TO_64
    ensures out == Hash(Mode(kernel, IV, 0), input, 0, HASH_LEN)
  {
    hide Hash;
    var hasher := new Hasher.Init(kernel, platform, IV, 0);
    hasher.Update(input);
    assert hasher.message == input;
    var buffer := new Byte[HASH_LEN];
    ghost var calls := hasher.FinalizeSeek(0, buffer);
    out := buffer[..];
  }

  /** blake3_hasher_init_keyed */
  method InitKeyed(kernel: Kernel, platform: Platform, key: Cv) returns (hasher: Hasher)
    requires platform.Valid()
    ensures hasher.Valid() && fresh(hasher) && hasher.message == []
    ensures hasher.ModeOf() == Mode(kernel, LoadKeyWords(key), KEYED_HASH)
  {
    hasher := new Hasher.Init(kernel, platform, LoadKeyWords(key), KEYED_HASH);
  }

  /** blake3_hasher_init_derive_key_raw: the key is the hash of the context, in a mode of its own. */
  method InitDeriveKey(kernel: Kernel, platform: Platform, context: seq<Byte>) returns (hasher: Hasher)
    requires platform.Valid() && |context| < TWO_TO_64
    ensures hasher.Valid() && fresh(hasher) && hasher.message == []
    ensures var contextKey := Hash(Mode(kernel, IV, DERIVE_KEY_CONTEXT), context, 0, HASH_LEN);
            hasher.ModeOf() == Mode(kernel, LoadKeyWords(contextKey), DERIVE_KEY_MATERIAL)
  {
    hide Hash, LoadKeyWords;
    var contextHasher := new Hasher.Init(kernel, platform, IV, DERIVE_KEY_CONTEXT);
    contextHasher.Update(context);
    assert contextHasher.message == context;
    var contextKey := new Byte[HASH_LEN];
    ghost var calls := contextHasher.FinalizeSeek(0, contextKey);
    hasher := new Hasher.Init(kernel, platform, LoadKeyWords(contextKey[..]), DERIVE_KEY_MATERIAL);
  }
}
