/** Hashes as strings of bits, lowest bit of the first byte first, and as little-endian numbers. */
module Digest {
  import opened Bits
  import Blake3Spec

  /** `byte >> j & 1` */
  function BitOf(x: nat, j: nat): nat {
    BitAnd(ShiftRight(x, j), 1)
  }

  lemma BitAndOne(x: nat)
    ensures BitAnd(x, 1) == x % 2
  {
    BitAndCommutes(x, 1);
    assert BitAnd(1, x) == x % 2;
  }

  /** Bit `k` of a string of bytes. */
  function BitAt(bytes: seq<Byte>, k: nat): nat
    requires k < 8 * |bytes|
  {
    BitOf(bytes[k / 8], k % 8)
  }

  /** The first `d` bits agree. */
  ghost predicate AgreeBits(a: seq<Byte>, b: seq<Byte>, d: nat)
    requires d <= 8 * |a| && |a| == |b|
  {
    forall k: nat | k < d :: BitAt(a, k) == BitAt(b, k)
  }

  function LittleEndian(bytes: seq<Byte>): nat {
    if bytes == [] then 0 else bytes[0] + 0x100 * LittleEndian(bytes[1..])
  }

  // ---------------------------------------------------------------- numbers

  /** The lowest `d` bits of two numbers agree, bit by bit. */
  predicate AgreeLow(x: nat, y: nat, d: nat)
    decreases d
  {
    d == 0 || (x % 2 == y % 2 && AgreeLow(x / 2, y / 2, d - 1))
  }

  lemma {:induction false} AgreeLowIsMod(x: nat, y: nat, d: nat)
    ensures AgreeLow(x, y, d) <==> x % Pow2(d) == y % Pow2(d)
    decreases d
  {
    if d > 0 {
      AgreeLowIsMod(x / 2, y / 2, d - 1);
      HalveMod(x, Pow2(d - 1));
      HalveMod(y, Pow2(d - 1));
    } else {
      assert x % 1 == 0 && y % 1 == 0;
    }
  }

  lemma {:induction false} AgreeLowAt(x: nat, y: nat, d: nat, k: nat)
    requires AgreeLow(x, y, d) && k < d
    ensures ShiftRight(x, k) % 2 == ShiftRight(y, k) % 2
    decreases d
  {
    if k > 0 {
      AgreeLowAt(x / 2, y / 2, d - 1, k - 1);
    }
  }

  lemma {:induction false} AgreeLowFrom(x: nat, y: nat, d: nat)
    requires forall k: nat | k < d :: ShiftRight(x, k) % 2 == ShiftRight(y, k) % 2
    ensures AgreeLow(x, y, d)
    decreases d
  {
    if d > 0 {
      assert ShiftRight(x, 0) == x && ShiftRight(y, 0) == y;
      forall k: nat | k < d - 1
        ensures ShiftRight(x / 2, k) % 2 == ShiftRight(y / 2, k) % 2
      {
        assert ShiftRight(x, k + 1) == ShiftRight(x / 2, k) && ShiftRight(y, k + 1) == ShiftRight(y / 2, k);
      }
      AgreeLowFrom(x / 2, y / 2, d - 1);
    }
  }

  lemma {:induction false} LowPart(b: nat, m: nat, w: nat, k: nat)
    requires k < w
    ensures ShiftRight(b + ShiftLeft(m, w), k) % 2 == ShiftRight(b, k) % 2
    decreases k
  {
    var h := ShiftLeft(m, w - 1);
    assert ShiftLeft(m, w) == 2 * h;
    if k > 0 {
      LowPart(b / 2, m, w - 1, k - 1);
      assert (b + 2 * h) / 2 == b / 2 + h;
    }
  }

  lemma {:induction false} HighPart(b: nat, m: nat, w: nat)
    requires b < Pow2(w)
    ensures ShiftRight(b + ShiftLeft(m, w), w) == m
    decreases w
  {
    if w > 0 {
      var h := ShiftLeft(m, w - 1);
      HighPart(b / 2, m, w - 1);
      assert (b + 2 * h) / 2 == b / 2 + h;
    }
  }

  /** Bit `k` of the bytes is bit `k` of the number. */
  lemma {:induction false} BitAtIsBit(bytes: seq<Byte>, k: nat)
    requires k < 8 * |bytes|
    ensures BitAt(bytes, k) == ShiftRight(LittleEndian(bytes), k) % 2
    decreases |bytes|
  {
    hide ShiftRight, ShiftLeft, BitAnd;
    var b, m := bytes[0], LittleEndian(bytes[1..]);
    EightBits(b, m);
    BitAndOne(ShiftRight(bytes[k / 8], k % 8));
    if k < 8 {
      LowPart(b, m, 8, k);
    } else {
      BitAtIsBit(bytes[1..], k - 8);
      assert (k - 8) / 8 == k / 8 - 1 && (k - 8) % 8 == k % 8;
      ShiftRightAdd(LittleEndian(bytes), 8, k - 8);
    }
  }

  lemma EightBits(b: Byte, m: nat)
    ensures b + 0x100 * m == b + ShiftLeft(m, 8)
    ensures ShiftRight(b + 0x100 * m, 8) == m
  {
    ShiftLeftBytes(m);
    SmallPow2();
    HighPart(b, m, 8);
  }

  /** Agreeing on the first `d` bits is being congruent modulo `2^d` as little-endian numbers. */
  lemma AgreeIsCongruent(a: seq<Byte>, b: seq<Byte>, d: nat)
    requires d <= 8 * |a| && |a| == |b|
    ensures AgreeBits(a, b, d) <==> LittleEndian(a) % Pow2(d) == LittleEndian(b) % Pow2(d)
  {
    hide BitAt, ShiftRight, LittleEndian, Pow2;
    var x, y := LittleEndian(a), LittleEndian(b);
    AgreeLowIsMod(x, y, d);
    forall k: nat | k < d
      ensures BitAt(a, k) == ShiftRight(x, k) % 2 && BitAt(b, k) == ShiftRight(y, k) % 2
    {
      BitAtIsBit(a, k);
      BitAtIsBit(b, k);
    }
    if AgreeBits(a, b, d) {
      forall k: nat | k < d
        ensures ShiftRight(x, k) % 2 == ShiftRight(y, k) % 2
      {
        assert BitAt(a, k) == BitAt(b, k);
      }
      AgreeLowFrom(x, y, d);
    }
    if AgreeLow(x, y, d) {
      forall k: nat | k < d
        ensures BitAt(a, k) == BitAt(b, k)
      {
        AgreeLowAt(x, y, d, k);
      }
    }
  }

  // ---------------------------------------------------------------- whole bytes

  /** Agreement on `8w` bits is equality of the first `w` bytes. */
  lemma AgreeWholeBytes(a: seq<Byte>, b: seq<Byte>, w: nat)
    requires w <= |a| == |b|
    ensures AgreeBits(a, b, 8 * w) <==> a[..w] == b[..w]
  {
    hide BitOf;
    if AgreeBits(a, b, 8 * w) {
      forall i | 0 <= i < w
        ensures a[i] == b[i]
      {
        SameByte(a, b, w, i);
      }
    }
    if a[..w] == b[..w] {
      forall k: nat | k < 8 * w
        ensures BitAt(a, k) == BitAt(b, k)
      {
        assert a[k / 8] == a[..w][k / 8] && b[k / 8] == b[..w][k / 8];
      }
    }
  }

  lemma SameByte(a: seq<Byte>, b: seq<Byte>, w: nat, i: nat)
    requires i < w <= |a| == |b| && AgreeBits(a, b, 8 * w)
    ensures a[i] == b[i]
  {
    hide ShiftRight, Pow2, AgreeBits, AgreeLow;
    forall j: nat | j < 8
      ensures ShiftRight(a[i], j) % 2 == ShiftRight(b[i], j) % 2
    {
      SameBit(a, b, w, i, j);
    }
    AgreeLowFrom(a[i], b[i], 8);
    AgreeLowIsMod(a[i], b[i], 8);
    SmallPow2();
  }

  lemma SameBit(a: seq<Byte>, b: seq<Byte>, w: nat, i: nat, j: nat)
    requires i < w <= |a| == |b| && j < 8 && AgreeBits(a, b, 8 * w)
    ensures ShiftRight(a[i], j) % 2 == ShiftRight(b[i], j) % 2
  {
    hide ShiftRight, BitAnd;
    var k := 8 * i + j;
    assert k / 8 == i && k % 8 == j;
    assert BitAt(a, k) == BitAt(b, k);
    BitAndOne(ShiftRight(a[i], j));
    BitAndOne(ShiftRight(b[i], j));
  }

  lemma AgreeFewer(a: seq<Byte>, b: seq<Byte>, d: nat, e: nat)
    requires |a| == |b| && e <= d <= 8 * |a| && AgreeBits(a, b, d)
    ensures AgreeBits(a, b, e)
  {
  }

  // ---------------------------------------------------------------- the two checks

  /** The program's run-time errors. */
  datatype Checked = BadDifficulty | Answer(ok: bool)

  /** check_prefix: the bits in order, up to the first that differs. */
  method CheckPrefix(result: seq<Byte>, target: seq<Byte>, difficulty: nat) returns (c: Checked)
    requires |result| == |target|
    ensures c.BadDifficulty? <==> difficulty > 8 * |result|
    ensures c.Answer? ==> (c.ok <==> AgreeBits(result, target, difficulty))
  {
    hide BitOf;
    if difficulty > |result| * 8 {
      return BadDifficulty;
    }
    var correct := 0;
    var i := 0;
    while i < |result|
      invariant 0 <= i <= |result| && correct == 8 * i
      invariant forall k: nat | k < correct :: BitAt(result, k) == BitAt(target, k)
    {
      var j := 0;
      while j < 8
        invariant 0 <= j <= 8 && correct == 8 * i + j
        invariant forall k: nat | k < correct :: BitAt(result, k) == BitAt(target, k)
      {
        assert correct < 8 * |result| && correct / 8 == i && correct % 8 == j;
        if BitOf(result[i], j) == BitOf(target[i], j) {
          assert BitAt(result, correct) == BitAt(target, correct);
          correct := correct + 1;
        } else {
          assert BitAt(result, correct) != BitAt(target, correct);
          return Answer(correct >= difficulty);
        }
        j := j + 1;
      }
      i := i + 1;
    }
    return Answer(correct >= difficulty);
  }

  function ZeroBytes(n: nat): (z: seq<Byte>)
    ensures |z| == n && forall i | 0 <= i < n :: z[i] == 0
  {
    seq<Byte>(n, _ => 0)
  }

  lemma {:induction false} ZeroBit(j: nat)
    ensures BitOf(0, j) == 0
  {
    ShiftRightZero(j);
  }

  /** check_leading_zeros: the case of an all-zero target. */
  method CheckLeadingZeros(result: seq<Byte>, difficulty: nat) returns (c: Checked)
    ensures c.BadDifficulty? <==> difficulty > 8 * |result|
    ensures c.Answer? ==> (c.ok <==> AgreeBits(result, ZeroBytes(|result|), difficulty))
    ensures c.Answer? ==> (c.ok <==> LittleEndian(result) % Pow2(difficulty) == 0)
  {
    hide BitOf, LittleEndian, Pow2;
    ghost var zero := ZeroBytes(|result|);
    if difficulty > |result| * 8 {
      return BadDifficulty;
    }
    AgreeIsCongruent(result, zero, difficulty);
    ZeroValue(|result|, difficulty);
    var correct := 0;
    var i := 0;
    while i < |result|
      invariant 0 <= i <= |result| && correct == 8 * i
      invariant forall k: nat | k < correct :: BitAt(result, k) == BitAt(zero, k)
    {
      var j := 0;
      while j < 8
        invariant 0 <= j <= 8 && correct == 8 * i + j
        invariant forall k: nat | k < correct :: BitAt(result, k) == BitAt(zero, k)
      {
        assert correct < 8 * |result| && correct / 8 == i && correct % 8 == j;
        ZeroBit(j);
        if BitOf(result[i], j) != 0 {
          assert BitAt(result, correct) != BitAt(zero, correct);
          return Answer(correct >= difficulty);
        } else {
          assert BitAt(result, correct) == BitAt(zero, correct);
          correct := correct + 1;
        }
        j := j + 1;
      }
      i := i + 1;
    }
    return Answer(correct >= difficulty);
  }

  lemma {:induction false} ZeroValue(n: nat, d: nat)
    ensures LittleEndian(ZeroBytes(n)) == 0 && 0 % Pow2(d) == 0
  {
    if n > 0 {
      ZeroValue(n - 1, d);
      assert ZeroBytes(n)[1..] == ZeroBytes(n - 1);
    }
  }

  /** The words of a BLAKE3 block are little-endian numbers. */
  lemma WordsAreLittleEndian(b: seq<Byte>)
    requires |b| == 4
    ensures Blake3Spec.Load32(b) == LittleEndian(b)
  {
    assert b[1..][1..] == b[2..] && b[2..][1..] == b[3..] && b[3..][1..] == [];
    assert LittleEndian(b[3..]) == b[3];
    assert LittleEndian(b[2..]) == b[2] + 0x100 * LittleEndian(b[3..]);
    assert LittleEndian(b[1..]) == b[1] + 0x100 * LittleEndian(b[2..]);
  }
}
