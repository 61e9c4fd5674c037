/** The 64-bit helpers of blake3_impl.h: powers of two, masks, the highest set bit and the
    population count. Machine words are natural numbers below 2^64; the bitwise `and` is
    defined digit by digit, so nothing here depends on a bit-vector encoding. */
module Bits {

  const TWO_TO_32: nat := 0x1_0000_0000
  const TWO_TO_64: nat := 0x1_0000_0000_0000_0000

  type Byte = b: nat | b < 0x100
  type Word = w: nat | w < 0x1_0000_0000

  predicate IsPow2(n: nat) {
    n == 1 || (n > 0 && n % 2 == 0 && IsPow2(n / 2))
  }

  function Pow2(e: nat): (p: nat)
    ensures p > 0
  {
    if e == 0 then 1 else 2 * Pow2(e - 1)
  }

  lemma {:induction false} Pow2IsPow2(e: nat)
    ensures IsPow2(Pow2(e))
  {
    if e != 0 {
      Pow2IsPow2(e - 1);
    }
  }

  lemma Pow2Positive(p: nat)
    requires IsPow2(p)
    ensures p > 0
  {
  }

  lemma DoublePow2(p: nat)
    requires IsPow2(p)
    ensures IsPow2(2 * p)
  {
  }

  /** Bitwise `and` of two unsigned words. */
  function BitAnd(a: nat, b: nat): nat
    decreases a
  {
    if a == 0 || b == 0 then 0 else 2 * BitAnd(a / 2, b / 2) + if a % 2 == 1 && b % 2 == 1 then 1 else 0
  }

  /** The largest power of two that is at most `n`, and 1 for 0. */
  function FloorPow2(n: nat): (p: nat)
    ensures IsPow2(p)
    ensures n > 0 ==> p <= n < 2 * p
  {
    if n <= 1 then 1 else 2 * FloorPow2(n / 2)
  }

  lemma {:induction false} FloorPow2Unique(n: nat, p: nat)
    requires IsPow2(p) && p <= n < 2 * p
    ensures FloorPow2(n) == p
  {
    if p > 1 {
      FloorPow2Unique(n / 2, p / 2);
    }
  }

  /** Distinct powers of two are at least a factor of two apart. */
  lemma {:induction false} Pow2Gap(p: nat, q: nat)
    requires IsPow2(p) && IsPow2(q) && p < q
    ensures 2 * p <= q
  {
    if p > 1 {
      Pow2Gap(p / 2, q / 2);
    }
  }

  /** `t` is a multiple of the power of two `p`. */
  predicate Aligned(t: nat, p: nat)
    decreases p
  {
    p <= 1 || (t % 2 == 0 && Aligned(t / 2, p / 2))
  }

  lemma AlignedOne(c: nat)
    ensures Aligned(c, 1) && IsPow2(1)
  {
  }

  lemma {:induction false} AlignedIsDivisible(t: nat, p: nat)
    requires IsPow2(p)
    ensures Aligned(t, p) <==> t % p == 0
  {
    if p > 1 {
      var q, u := p / 2, t / 2;
      AlignedIsDivisible(u, q);
      HalveMod(t, q);
    }
  }

  /** Reducing modulo an even number reduces the halves and keeps the lowest bit. */
  lemma HalveMod(t: nat, q: nat)
    requires q > 0
    ensures t % (2 * q) == 2 * ((t / 2) % q) + t % 2
  {
    var d, m := (t / 2) / q, (t / 2) % q;
    assert t == (2 * q) * d + (2 * m + t % 2) by {
      assert t / 2 == q * d + m;
      assert t == 2 * (q * d + m) + t % 2;
    }
    DivModUnique(t, 2 * q, d, 2 * m + t % 2);
  }

  lemma DivModUnique(x: int, q: int, d: int, r: int)
    requires q > 0 && x == q * d + r && 0 <= r < q
    ensures x / q == d && x % q == r
  {
    var e, s := x / q, x % q;
    assert q * (d - e) == s - r;
    MultipleIsFar(q, d - e);
  }

  lemma MultipleIsFar(q: int, k: int)
    requires q > 0
    ensures k >= 1 ==> q * k >= q
    ensures k <= -1 ==> q * k <= -q
  {
  }

  /** The mask trick of blake3_hasher_update: for a power of two, `(p - 1) & c` is `c mod p`. */
  lemma {:induction false} MaskIsMod(p: nat, c: nat)
    requires IsPow2(p)
    ensures BitAnd(p - 1, c) == c % p
  {
    if p > 1 {
      var q := p / 2;
      MaskIsMod(q, c / 2);
      HalveMod(c, q);
      assert (p - 1) / 2 == q - 1 && (p - 1) % 2 == 1;
    }
  }

  lemma {:induction false} AlignedSmaller(t: nat, p: nat, q: nat)
    requires IsPow2(p) && IsPow2(q) && q <= p && Aligned(t, p)
    ensures Aligned(t, q)
  {
    if q > 1 {
      AlignedSmaller(t / 2, p / 2, q / 2);
    }
  }

  // ---------------------------------------------------------------- population count

  function Popcount(n: nat): nat {
    if n == 0 then 0 else n % 2 + Popcount(n / 2)
  }

  /** The value of the lowest set bit. */
  function LowBit(t: nat): (b: nat)
    requires t > 0
    ensures 0 < b <= t
  {
    if t % 2 == 1 then 1 else 2 * LowBit(t / 2)
  }

  /** `x & (x - 1)` clears exactly the lowest set bit. */
  lemma {:induction false} ClearLowBit(x: nat)
    requires x > 0
    ensures BitAnd(x, x - 1) == x - LowBit(x)
    ensures Popcount(x - LowBit(x)) + 1 == Popcount(x)
  {
    if x % 2 == 1 {
      BitAndSelf(x / 2);
      assert (x - 1) / 2 == x / 2 && (x - 1) % 2 == 0;
    } else {
      ClearLowBit(x / 2);
      assert (x - 1) / 2 == x / 2 - 1 && (x - 1) % 2 == 1;
      assert (x - LowBit(x)) / 2 == x / 2 - LowBit(x / 2);
    }
  }

  lemma {:induction false} BitAndSelf(x: nat)
    ensures BitAnd(x, x) == x
  {
    if x != 0 {
      BitAndSelf(x / 2);
    }
  }

  /** popcnt, the fallback loop. */
  method Popcnt(x: nat) returns (count: nat)
    ensures count == Popcount(x)
  {
    var y := x;
    count := 0;
    while y != 0
      invariant count + Popcount(y) == Popcount(x)
      decreases y
    {
      ClearLowBit(y);
      count := count + 1;
      y := BitAnd(y, y - 1);
    }
  }

  lemma {:induction false} PopcountSucc(n: nat)
    ensures Popcount(n + 1) <= Popcount(n) + 1
  {
    if n % 2 == 1 {
      PopcountSucc(n / 2);
      assert (n + 1) / 2 == n / 2 + 1;
    } else {
      assert (n + 1) / 2 == n / 2;
    }
  }

  lemma {:induction false} PopcountBound(n: nat, e: nat)
    requires n < Pow2(e)
    ensures Popcount(n) <= e
  {
    if e > 0 && n > 0 {
      PopcountBound(n / 2, e - 1);
    }
  }

  // ---------------------------------------------------------------- highest set bit

  function ShiftLeft(x: nat, s: nat): nat {
    if s == 0 then x else 2 * ShiftLeft(x, s - 1)
  }

  function ShiftRight(x: nat, s: nat): nat {
    if s == 0 then x else ShiftRight(x / 2, s - 1)
  }

  /** Shifting by `s` bits is division by `2^s`. */
  lemma {:induction false} ShiftRightIsDivision(x: nat, s: nat)
    ensures ShiftRight(x, s) == x / Pow2(s)
  {
    if s > 0 {
      ShiftRightIsDivision(x / 2, s - 1);
      HalveDiv(x, Pow2(s - 1));
    }
  }

  lemma HalveDiv(x: nat, q: nat)
    requires q > 0
    ensures x / (2 * q) == (x / 2) / q
  {
    var d, m := (x / 2) / q, (x / 2) % q;
    assert x / 2 == q * d + m;
    assert 2 * (q * d) == (2 * q) * d;
    DivModUnique(x, 2 * q, d, 2 * m + x % 2);
  }

  lemma {:induction false} ShiftRightBound(x: nat, s: nat, t: nat)
    ensures ShiftRight(x, s) < Pow2(t) <==> x < Pow2(s + t)
  {
    if s > 0 {
      ShiftRightBound(x / 2, s - 1, t);
    }
  }

  /** Masking with shifted ones is shifting, masking and shifting back. */
  lemma {:induction false} MaskShift(x: nat, m: nat, s: nat)
    ensures BitAnd(x, ShiftLeft(m, s)) == ShiftLeft(BitAnd(ShiftRight(x, s), m), s)
    ensures BitAnd(x, ShiftLeft(m, s)) != 0 <==> BitAnd(ShiftRight(x, s), m) != 0
  {
    if s > 0 {
      MaskShift(x / 2, m, s - 1);
      BitAndDouble(x, ShiftLeft(m, s - 1));
    }
  }

  lemma BitAndDouble(x: nat, w: nat)
    ensures BitAnd(x, 2 * w) == 2 * BitAnd(x / 2, w)
  {
    assert (2 * w) / 2 == w;
  }

  lemma {:induction false} ShiftBack(x: nat, s: nat)
    ensures ShiftRight(ShiftLeft(x, s), s) == x
  {
    if s > 0 {
      ShiftBack(x, s - 1);
      assert ShiftLeft(x, s) / 2 == ShiftLeft(x, s - 1);
    }
  }

  lemma {:induction false} ShiftRightZero(s: nat)
    ensures ShiftRight(0, s) == 0
  {
    if s > 0 {
      ShiftRightZero(s - 1);
    }
  }

  lemma BitAndZero(x: nat)
    ensures BitAnd(x, 0) == 0
  {
  }

  lemma {:induction false} BitAndCommutes(a: nat, b: nat)
    ensures BitAnd(a, b) == BitAnd(b, a)
    decreases a
  {
    if a != 0 && b != 0 {
      BitAndCommutes(a / 2, b / 2);
    }
  }

  lemma {:induction false} BitAndAllOnes(x: nat, s: nat)
    requires x < Pow2(s)
    ensures BitAnd(x, Pow2(s) - 1) == x
  {
    if s > 0 {
      BitAndAllOnes(x / 2, s - 1);
      assert (Pow2(s) - 1) / 2 == Pow2(s - 1) - 1 && (Pow2(s) - 1) % 2 == 1;
    }
  }

  /** Shifting right by `s` lowers the index of the highest set bit by `s`. */
  lemma {:induction false} ShiftRightHighest(x: nat, s: nat, c: nat)
    requires ShiftRight(x, s) > 0
    requires FloorPow2(ShiftRight(x, s)) == Pow2(c)
    ensures FloorPow2(x) == Pow2(c + s)
  {
    if s > 0 {
      ShiftRightHighest(x / 2, s - 1, c);
      ShiftRightBound(x / 2, s - 1, 0);
      assert x / 2 > 0;
    }
  }

  lemma ShiftLeftByte(m: nat, s: nat)
    ensures ShiftLeft(m, s + 8) == 0x100 * ShiftLeft(m, s)
  {
    assert ShiftLeft(m, s + 2) == 4 * ShiftLeft(m, s);
    assert ShiftLeft(m, s + 4) == 4 * ShiftLeft(m, s + 2);
    assert ShiftLeft(m, s + 6) == 4 * ShiftLeft(m, s + 4);
  }

  lemma ShiftLeftBytes(m: nat)
    ensures ShiftLeft(m, 8) == 0x100 * m
    ensures ShiftLeft(m, 16) == 0x1_0000 * m
    ensures ShiftLeft(m, 32) == TWO_TO_32 * m
    ensures ShiftLeft(m, 48) == 0x1_0000_0000_0000 * m
    ensures ShiftLeft(m, 64) == TWO_TO_64 * m
  {
    ShiftLeftByte(m, 0);
    ShiftLeftByte(m, 8);
    ShiftLeftByte(m, 16);
    ShiftLeftByte(m, 24);
    ShiftLeftByte(m, 32);
    ShiftLeftByte(m, 40);
    ShiftLeftByte(m, 48);
    ShiftLeftByte(m, 56);
  }

  lemma SmallPow2()
    ensures Pow2(2) == 4 && Pow2(4) == 16 && Pow2(8) == 0x100 && Pow2(16) == 0x1_0000
    ensures Pow2(32) == TWO_TO_32 && Pow2(64) == TWO_TO_64
    ensures 1024 * Pow2(54) == TWO_TO_64
  {
    assert Pow2(2) == 4;
    assert Pow2(4) == 16;
    ShiftLeftBytes(1);
    ShiftLeftOne(8);
    ShiftLeftOne(16);
    ShiftLeftOne(32);
    ShiftLeftOne(48);
    ShiftLeftOne(64);
    assert Pow2(54) == 4 * Pow2(52) == 16 * Pow2(50) == 64 * Pow2(48);
  }

  /** The widths and masks of highest_one, in order. */
  const HIGHEST_ONE_STEPS: seq<(nat, nat)> :=
    [(32, 0xffff_ffff_0000_0000), (16, 0xffff_0000), (8, 0xff00), (4, 0xf0), (2, 0xc), (1, 2)]

  /** The mask keeps exactly the bits its step shifts down. */
  ghost predicate MaskFits(step: (nat, nat)) {
    step.1 == ShiftLeft(Pow2(step.0) - 1, step.0)
  }

  lemma HighestOneMask(i: nat)
    requires i < 6
    ensures MaskFits(HIGHEST_ONE_STEPS[i])
  {
    SmallPow2();
    ShiftLeftBytes(Pow2(HIGHEST_ONE_STEPS[i].0) - 1);
    assert ShiftLeft(0xf, 4) == 4 * ShiftLeft(0xf, 2);
  }

  /** One line of the fallback `highest_one`: `if (x & mask) { x >>= s; c += s; }`. On entry the
      word, shifted down by `c` so far, has at most `2s` bits left; on exit at most `s`. */
  method HighestOneStep(ghost word: nat, x: nat, c: nat, step: (nat, nat)) returns (x': nat, c': nat)
    requires MaskFits(step)
    requires 0 < x < Pow2(2 * step.0) && x == ShiftRight(word, c)
    ensures 0 < x' < Pow2(step.0) && x' == ShiftRight(word, c')
  {
    var (s, mask) := step;
    ShiftRightBound(x, s, s);
    ShiftRightBound(x, s, 0);
    MaskShift(x, Pow2(s) - 1, s);
    BitAndAllOnes(ShiftRight(x, s), s);
    ShiftRightAdd(word, c, s);
    if BitAnd(x, mask) != 0 {
      x', c' := ShiftRight(x, s), c + s;
    } else {
      x', c' := x, c;
    }
  }

  lemma HighestOneEnd(word: nat, x: nat, c: nat)
    requires 0 < x < Pow2(1) && x == ShiftRight(word, c)
    ensures FloorPow2(word) == Pow2(c) <= word < 2 * Pow2(c)
  {
    ShiftRightHighest(word, c, 0);
    ShiftRightZero(c);
  }

  /** The six steps in a row, for any widths that halve from step to step down to 1. */
  method HighestOneSteps(word: nat, s0: (nat, nat), s1: (nat, nat), s2: (nat, nat),
                         s3: (nat, nat), s4: (nat, nat), s5: (nat, nat)) returns (c: nat)
    requires MaskFits(s0) && MaskFits(s1) && MaskFits(s2) && MaskFits(s3) && MaskFits(s4) && MaskFits(s5)
    requires s0.0 == 2 * s1.0 && s1.0 == 2 * s2.0 && s2.0 == 2 * s3.0 && s3.0 == 2 * s4.0 && s4.0 == 2 * s5.0
    requires s5.0 == 1
    requires 0 < word < Pow2(2 * s0.0)
    ensures FloorPow2(word) == Pow2(c) <= word < 2 * Pow2(c)
  {
    assert ShiftRight(word, 0) == word;
    hide Pow2, ShiftLeft, ShiftRight, FloorPow2, MaskFits;
    var x;
    x, c := HighestOneStep(word, word, 0, s0);
    x, c := HighestOneStep(word, x, c, s1);
    x, c := HighestOneStep(word, x, c, s2);
    x, c := HighestOneStep(word, x, c, s3);
    x, c := HighestOneStep(word, x, c, s4);
    x, c := HighestOneStep(word, x, c, s5);
    HighestOneEnd(word, x, c);
  }

  /** highest_one, the fallback without compiler builtins: the index of the highest set bit. */
  method HighestOne(word: nat) returns (c: nat)
    requires 0 < word < TWO_TO_64
    ensures FloorPow2(word) == Pow2(c) <= word < 2 * Pow2(c)
  {
    HighestOneMask(0);
    HighestOneMask(1);
    HighestOneMask(2);
    HighestOneMask(3);
    HighestOneMask(4);
    HighestOneMask(5);
    SmallPow2();
    hide MaskFits;
    var s := HIGHEST_ONE_STEPS;
    c := HighestOneSteps(word, s[0], s[1], s[2], s[3], s[4], s[5]);
  }

  lemma {:induction false} ShiftRightAdd(x: nat, a: nat, b: nat)
    ensures ShiftRight(ShiftRight(x, a), b) == ShiftRight(x, a + b)
  {
    if a > 0 {
      ShiftRightAdd(x / 2, a - 1, b);
    }
  }

  /** Setting the lowest bit keeps the highest one. */
  lemma FloorPow2Odd(x: nat)
    requires x > 0
    ensures FloorPow2(x + 1 - x % 2) == FloorPow2(x)
  {
  }

  /** round_down_to_power_of_2: `1 << highest_one(x | 1)`. */
  method RoundDownToPowerOf2(x: nat) returns (p: nat)
    requires x < TWO_TO_64
    ensures IsPow2(p)
    ensures x == 0 ==> p == 1
    ensures x > 0 ==> p <= x < 2 * p
    ensures p == FloorPow2(x)
  {
    var c := HighestOne(x + 1 - x % 2);
    p := ShiftLeft(1, c);
    ShiftLeftOne(c);
    if x > 0 {
      FloorPow2Odd(x);
    }
  }

  lemma {:induction false} ShiftLeftOne(c: nat)
    ensures ShiftLeft(1, c) == Pow2(c)
  {
    if c > 0 {
      ShiftLeftOne(c - 1);
    }
  }
}
