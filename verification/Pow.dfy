/** Proof of work: a candidate is a random base with the nonce added to its first eight bytes; it is a
    solution when the hash of the previous block's hash and the candidate ends in enough zero bits. */
module ProofOfWork {
  import opened Bits
  import opened Radix
  import opened Blake3Spec
  import opened Blake3Wide
  import opened Blake3Hasher
  import opened Coin
  import opened Digest

  /** The hash of two pieces, as one message. */
  function HashOf(kernel: Kernel, message: seq<Byte>): Hash32 {
    Hash(Mode(kernel, IV, 0), message, 0, 32)
  }

  /** `base[i] + nonce_buf[i]` in the first eight bytes, on 8-bit numbers. */
  function Candidate(base: Hash32, nonce: nat): Hash32 {
    seq<Byte>(32, i requires 0 <= i < 32 => if i < 8 then (base[i] + NonceByte(nonce, i)) % 0x100 else base[i])
  }

  /** Byte `i` of the 64-bit nonce in memory, low byte first. */
  function NonceByte(nonce: nat, i: nat): Byte {
    nonce / Pow(256, i) % 0x100
  }

  /** The nonce as it lies in memory. */
  function NonceBytes(nonce: nat): (b: seq<Byte>)
    ensures |b| == 8
  {
    seq<Byte>(8, i requires 0 <= i < 8 => NonceByte(nonce, i))
  }

  ghost predicate IsSolution(kernel: Kernel, prevHash: Hash32, candidate: Hash32, difficulty: nat)
    requires difficulty <= 256
  {
    AgreeBits(HashOf(kernel, prevHash + candidate), ZeroBytes(32), difficulty)
  }

  /** The hash of the two pieces, with one update for each. */
  method HashTwo(kernel: Kernel, platform: Platform, a: Hash32, b: Hash32) returns (result: Hash32)
    requires platform.Valid()
    ensures result == HashOf(kernel, a + b)
  {
    hide Hash;
    var hasher := new Hasher.Init(kernel, platform, IV, 0);
    hasher.Update(a);
    hasher.Update(b);
    assert hasher.message == a + b;
    var buffer := new Byte[32];
    ghost var calls := hasher.FinalizeSeek(0, buffer);
    result := buffer[..];
  }

  /** verify_solution */
  method VerifySolution(kernel: Kernel, platform: Platform, currHash: Hash32, prevHash: Hash32, difficulty: nat)
    returns (c: Checked)
    requires platform.Valid()
    ensures c.BadDifficulty? <==> difficulty > 256
    ensures c.Answer? ==> (c.ok <==> IsSolution(kernel, prevHash, currHash, difficulty))
    ensures c.Answer? ==>
              var result := Hash(Mode(kernel, IV, 0), prevHash + currHash, 0, 32);
              c.ok <==> LittleEndian(result) % Pow2(difficulty) == 0
  {
    hide LittleEndian, Pow2, Hash, AgreeBits;
    var result := HashTwo(kernel, platform, prevHash, currHash);
    c := CheckLeadingZeros(result, difficulty);
  }

  datatype Outcome = BadSearch | NotFound | Found(solution: Hash32)

  /** The candidate of round `n`; the 64-bit nonce starts again after 2^64 rounds. */
  function Try(base: Hash32, n: nat): Hash32 {
    Candidate(base, n % TWO_TO_64)
  }

  /** solve_hash. The clock allows `attempts` rounds. What is found is a solution, and the first round's
      that gives one; when nothing is found, no round gave one. */
  method SolveHash(kernel: Kernel, platform: Platform, prevHash: Hash32, difficulty: nat, base: Hash32, attempts: nat)
    returns (o: Outcome)
    requires platform.Valid()
    ensures o.BadSearch? <==> difficulty > 256 && attempts > 0
    ensures o.Found? ==> difficulty <= 256 && IsSolution(kernel, prevHash, o.solution, difficulty)
    ensures o.Found? ==>
              exists n: nat :: n < attempts && o.solution == Try(base, n) &&
                forall m: nat | m < n :: !IsSolution(kernel, prevHash, Try(base, m), difficulty)
    ensures o.NotFound? && difficulty <= 256 ==>
              forall m: nat | m < attempts :: !IsSolution(kernel, prevHash, Try(base, m), difficulty)
  {
    hide Candidate, IsSolution;
    var input := new Byte[32](i requires 0 <= i < 32 => base[i]);
    var nonce, round := 0, 0;
    while round < attempts
      invariant round <= attempts && nonce == round % TWO_TO_64
      invariant round > 0 ==> difficulty <= 256
      invariant input[8..] == base[8..]
      invariant difficulty <= 256 ==>
                  forall m: nat | m < round :: !IsSolution(kernel, prevHash, Try(base, m), difficulty)
    {
      WriteCandidate(input, base, nonce);
      assert input[..] == Try(base, round);
      var c := VerifySolution(kernel, platform, input[..], prevHash, difficulty);
      if c.BadDifficulty? {
        return BadSearch;
      }
      if c.ok {
        return Found(input[..]);
      }
      NextNonce(round);
      nonce, round := (nonce + 1) % TWO_TO_64, round + 1;
    }
    return NotFound;
  }

  lemma NextNonce(n: nat)
    ensures (n % TWO_TO_64 + 1) % TWO_TO_64 == (n + 1) % TWO_TO_64
  {
    var r := n % TWO_TO_64 + 1;
    if r == TWO_TO_64 {
      DivModUnique(n + 1, TWO_TO_64, n / TWO_TO_64 + 1, 0);
    } else {
      DivModUnique(n + 1, TWO_TO_64, n / TWO_TO_64, r);
    }
  }

  /** The inner loop of solve_hash rewrites the first eight bytes. */
  method WriteCandidate(input: array<Byte>, base: Hash32, nonce: nat)
    requires input.Length == 32 && input[8..] == base[8..]
    modifies input
    ensures input[..] == Candidate(base, nonce) && input[8..] == base[8..]
  {
    hide NonceByte;
    var i := 0;
    while i < 8
      invariant 0 <= i <= 8 && input[8..] == base[8..]
      invariant forall k | 0 <= k < i :: input[k] == (base[k] + NonceByte(nonce, k)) % 0x100
    {
      input[i] := (base[i] + NonceByte(nonce, i)) % 0x100;
      i := i + 1;
    }
    assert forall k | 8 <= k < 32 :: input[k] == input[8..][k - 8] && base[k] == base[8..][k - 8];
  }

  // ---------------------------------------------------------------- distinct candidates

  lemma {:induction false} LittleEndianSnoc(b: seq<Byte>, x: Byte)
    ensures LittleEndian(b + [x]) == LittleEndian(b) + Pow(256, |b|) * x
  {
    if b == [] {
      assert [] + [x] == [x];
      assert LittleEndian([x]) == x + 0x100 * LittleEndian([x][1..]);
    } else {
      assert (b + [x])[1..] == b[1..] + [x];
      LittleEndianSnoc(b[1..], x);
      MulAssoc(256, Pow(256, |b| - 1), x);
    }
  }

  /** The first `n` bytes in memory are the number modulo 256^n, low byte first. */
  lemma {:induction false} LowBytes(x: nat, n: nat)
    requires n <= 8
    ensures LittleEndian(NonceBytes(x)[..n]) == x % Pow(256, n)
  {
    hide NonceByte, LittleEndian;
    if n == 0 {
      assert NonceBytes(x)[..0] == [];
      assert LittleEndian([]) == 0 by { EmptyIsZero(); }
      assert Pow(256, 0) == 1;
    } else {
      LowBytes(x, n - 1);
      assert NonceBytes(x)[..n] == NonceBytes(x)[..n - 1] + [NonceByte(x, n - 1)];
      LittleEndianSnoc(NonceBytes(x)[..n - 1], NonceByte(x, n - 1));
      OneMoreByte(x, Pow(256, n - 1));
      assert NonceByte(x, n - 1) == x / Pow(256, n - 1) % 0x100 by { NonceByteIs(x, n - 1); }
    }
  }

  lemma EmptyIsZero()
    ensures LittleEndian([]) == 0
  {
  }

  lemma NonceByteIs(x: nat, i: nat)
    ensures NonceByte(x, i) == x / Pow(256, i) % 0x100
  {
  }

  lemma OneMoreByte(x: nat, p: nat)
    requires p > 0
    ensures 256 * p > 0 && x % (256 * p) == x % p + p * (x / p % 256)
  {
    var q, r := x / p, x % p;
    var d, m := q / 256, q % 256;
    DivModIdentity(x, p);
    Remainder(p, 256, m, r);
    calc {
      x;
      q * p + r;
      (d * 256 + m) * p + r;
      { Distribute(d * 256, m, p); MulAssoc(d, 256, p); }
      d * (256 * p) + (m * p + r);
    }
    DivMod(x, 256 * p, d, m * p + r);
  }

  /** The eight bytes of a 64-bit nonce are the nonce, low byte first. */
  lemma NonceInMemory(nonce: nat)
    requires nonce < TWO_TO_64
    ensures LittleEndian(NonceBytes(nonce)) == nonce
  {
    hide NonceByte, Pow, LittleEndian;
    EightBytes();
    LowBytes(nonce, 8);
    assert NonceBytes(nonce)[..8] == NonceBytes(nonce);
  }

  /** A candidate is the base with its first eight bytes shifted by the nonce's, so the first candidate is
      the base itself and small nonces change its first byte alone. */
  lemma CandidateShape(base: Hash32, nonce: nat)
    ensures Candidate(base, 0) == base
    ensures Candidate(base, nonce)[8..] == base[8..]
    ensures nonce < 0x100 ==>
              Candidate(base, nonce)[0] == (base[0] + nonce) % 0x100 && Candidate(base, nonce)[1..] == base[1..]
  {
    forall i | 0 <= i < 8
      ensures NonceByte(0, i) == 0
      ensures nonce < 0x100 ==> NonceByte(nonce, i) == if i == 0 then nonce else 0
    {
      SmallNonce(0, i);
      if nonce < 0x100 {
        SmallNonce(nonce, i);
      }
    }
  }

  lemma SmallNonce(nonce: nat, i: nat)
    requires nonce < 0x100
    ensures NonceByte(nonce, i) == if i == 0 then nonce else 0
  {
    if i == 0 {
      assert Pow(256, 0) == 1;
    } else {
      assert Pow(256, 1) == 256;
      PowMono(256, 1, i);
      DivMod(nonce, Pow(256, i), 0, nonce);
    }
  }

  lemma AddCancels(b: Byte, x: Byte, y: Byte)
    ensures (b + x) % 0x100 == (b + y) % 0x100 <==> x == y
  {
  }

  /** Numbers below 256^n whose first `n` bytes agree are equal. */
  lemma {:induction false} SameBytes(x: nat, y: nat, n: nat)
    requires x < Pow(256, n) && y < Pow(256, n)
    requires forall i: nat | i < n :: NonceByte(x, i) == NonceByte(y, i)
    ensures x == y
  {
    if n > 0 {
      assert NonceByte(x, 0) == NonceByte(y, 0) && Pow(256, 0) == 1;
      forall i: nat | i < n - 1
        ensures NonceByte(x / 256, i) == NonceByte(y / 256, i)
      {
        NextByte(x, i);
        NextByte(y, i);
        assert NonceByte(x, i + 1) == NonceByte(y, i + 1);
      }
      QuotientBound(x, 256, Pow(256, n - 1));
      QuotientBound(y, 256, Pow(256, n - 1));
      SameBytes(x / 256, y / 256, n - 1);
    }
  }

  lemma NextByte(x: nat, i: nat)
    ensures NonceByte(x, i + 1) == NonceByte(x / 256, i)
  {
    DivTwice(x, 256, Pow(256, i));
  }

  lemma DivTwice(x: nat, a: nat, b: nat)
    requires a > 0 && b > 0
    ensures a * b > 0 && x / (a * b) == x / a / b
  {
    var q, r := x / a, x % a;
    var d, m := q / b, q % b;
    DivModIdentity(x, a);
    DivModIdentity(q, b);
    Remainder(a, b, m, r);
    PushDigit(d, b, m, r, a);
    DivMod(x, a * b, d, m * a + r);
  }

  lemma Remainder(a: nat, b: nat, m: nat, r: nat)
    requires m < b && r < a
    ensures a * b > 0 && m * a + r < a * b
  {
    MulMono(a, m + 1, b);
    Distribute(m, 1, a);
    MulMono(a, 1, b);
  }

  /** Every 64-bit nonce gives a candidate of its own. */
  lemma DistinctCandidates(base: Hash32, x: nat, y: nat)
    requires x < TWO_TO_64 && y < TWO_TO_64
    ensures Candidate(base, x) == Candidate(base, y) <==> x == y
  {
    hide NonceByte, Pow;
    if Candidate(base, x) == Candidate(base, y) {
      forall i: nat | i < 8
        ensures NonceByte(x, i) == NonceByte(y, i)
      {
        assert Candidate(base, x)[i] == Candidate(base, y)[i];
        AddCancels(base[i], NonceByte(x, i), NonceByte(y, i));
      }
      EightBytes();
      SameBytes(x, y, 8);
    }
  }

  /** The search tries 2^64 different candidates before the first one comes again. */
  lemma TriesAreDistinct(base: Hash32, m: nat, n: nat)
    ensures Try(base, m) == Try(base, n) <==> m % TWO_TO_64 == n % TWO_TO_64
  {
    hide Candidate;
    DistinctCandidates(base, m % TWO_TO_64, n % TWO_TO_64);
  }

  lemma EightBytes()
    ensures Pow(256, 8) == TWO_TO_64
  {
    assert Pow(256, 2) == 0x1_0000;
    assert Pow(256, 4) == 0x1_0000 * Pow(256, 2);
    assert Pow(256, 6) == 0x1_0000 * Pow(256, 4);
    assert Pow(256, 8) == 0x1_0000 * Pow(256, 6);
  }
}
