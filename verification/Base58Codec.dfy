/** b58enc and b58tobin, in place on their buffers, proved against the meaning of the encoding. */
module Base58Codec {
  import opened Bits
  import opened Radix
  import opened Base58Tables
  import opened Base58

  // ---------------------------------------------------------------- encoding

  /** A carry out of the first digit would make the number too large for the buffer. */
  lemma NoCarryOut(carry: nat, rest: seq<nat>)
    requires Partial([], carry, rest, 58, 256) < Pow(58, |rest|)
    ensures carry == 0
  {
    hide Eval, Pow;
    PartialFull(carry, rest, 58, 256);
    MulMono(Pow(58, |rest|), if carry == 0 then 0 else 1, carry);
  }

  /** The inner loop of b58enc: multiply by 256 and add a byte. Positions up to `high` hold zeros, so
      the loop may stop there once the carry is gone. */
  method AddByte(buf: array<nat>, high: int, byte: Byte) returns (newHigh: int)
    requires -1 <= high < buf.Length && IsNumeral(buf[..], 58)
    requires forall x | 0 <= x <= high :: buf[x] == 0
    requires 256 * Eval(buf[..], 58) + byte < Pow(58, buf.Length)
    modifies buf
    ensures IsNumeral(buf[..], 58)
    ensures Eval(buf[..], 58) == 256 * old(Eval(buf[..], 58)) + byte
    ensures -1 <= newHigh <= high
    ensures forall x | 0 <= x <= newHigh :: buf[x] == 0
  {
    hide Eval, Pow, Partial;
    ghost var start := buf[..];
    ghost var total := 256 * Eval(start, 58) + byte;
    PartialStart(start, byte, 58, 256);
    var carry: nat, j := byte, buf.Length - 1;
    assert start[..j + 1] == start && buf[j + 1..] == [];
    while j > high || carry != 0
      invariant -1 <= j < buf.Length && carry <= 255
      invariant buf[..j + 1] == start[..j + 1] && IsNumeral(buf[..], 58)
      invariant Partial(start[..j + 1], carry, buf[j + 1..], 58, 256) == total
      decreases j
    {
      if j == -1 {
        assert start[..0] == [] && buf[0..] == buf[..];
        NoCarryOut(carry, buf[..]);
      }
      ghost var rest := buf[j + 1..];
      PartialStep(start[..j], start[j], carry, rest, 58, 256);
      assert start[..j + 1] == start[..j] + [start[j]];
      carry := carry + 256 * buf[j];
      buf[j] := carry % 58;
      carry := carry / 58;
      assert buf[j..] == [buf[j]] + rest;
      assert buf[..j] == start[..j];
      j := j - 1;
    }
    newHigh := j;
    assert start[..j + 1] == Zeros(j + 1);
    PartialEnd(j + 1, buf[j + 1..], 58, 256);
    assert buf[..] == Zeros(j + 1) + buf[j + 1..];
  }

  lemma PrefixValue(bin: seq<Byte>, zcount: nat, i: nat)
    requires zcount == LeadingZeros(bin) && zcount <= i < |bin|
    ensures Eval(bin[..i + 1], 256) == 256 * Eval(bin[..i], 256) + bin[i]
    ensures Eval(bin[..i + 1], 256) < Pow(58, SizeEstimate(|bin|, zcount))
  {
    hide Eval, Pow;
    assert bin[..i + 1] == bin[..i] + [bin[i]];
    EvalSnoc(bin[..i], bin[i], 256);
    PrefixSmaller(bin, i + 1, 256);
    EstimateSuffices(bin);
  }

  /** The conversion part of b58enc: all bytes after the leading zeros are added one by one. */
  method Convert(bin: seq<Byte>, zcount: nat) returns (buf: array<nat>)
    requires zcount == LeadingZeros(bin)
    ensures fresh(buf) && buf.Length == SizeEstimate(|bin|, zcount)
    ensures IsNumeral(buf[..], 58) && Eval(buf[..], 58) == Eval(bin, 256)
  {
    hide Eval, Pow;
    var size := (|bin| - zcount) * 138 / 100 + 1;
    buf := new nat[size](_ => 0);
    assert buf[..] == Zeros(size) && bin[..zcount] == Zeros(zcount);
    EvalZeros(size, 58);
    EvalZeros(zcount, 256);
    var high := size - 1;
    var i := zcount;
    while i < |bin|
      invariant zcount <= i <= |bin|
      invariant -1 <= high < buf.Length && IsNumeral(buf[..], 58)
      invariant forall x | 0 <= x <= high :: buf[x] == 0
      invariant Eval(buf[..], 58) == Eval(bin[..i], 256)
    {
      PrefixValue(bin, zcount, i);
      high := AddByte(buf, high, bin[i]);
      i := i + 1;
    }
    assert bin[..i] == bin;
  }

  /** b58enc: the encoding and a terminator are written when they fit; otherwise nothing is written
      and the size needed is reported. */
  method B58Enc(b58: array<char>, b58sz: nat, bin: seq<Byte>) returns (ok: bool, outSz: nat)
    requires b58sz <= b58.Length
    modifies b58
    ensures outSz == |Encode(bin)| + 1
    ensures ok <==> |Encode(bin)| < b58sz
    ensures ok ==> b58[..outSz] == Encode(bin) + ['\0'] && b58[outSz..] == old(b58[outSz..])
    ensures !ok ==> b58[..] == old(b58[..])
  {
    hide Eval, Pow, Encode;
    var zcount := 0;
    while zcount < |bin| && bin[zcount] == 0
      invariant zcount <= |bin| && forall i | 0 <= i < zcount :: bin[i] == 0
    {
      zcount := zcount + 1;
    }
    LeadingZerosIs(bin, zcount);

    var buf := Convert(bin, zcount);
    var size := buf.Length;
    var j := 0;
    while j < size && buf[j] == 0
      invariant j <= size && forall i | 0 <= i < j :: buf[i] == 0
    {
      j := j + 1;
    }
    EncodeFromDigits(bin, zcount, buf[..], j);

    if b58sz <= zcount + size - j {
      ok, outSz := false, zcount + size - j + 1;
      return;
    }
    outSz := WriteText(b58, zcount, buf, j);
    ok := true;
  }

  /** The end of b58enc: the ones, the digits from position `j` on, and the terminator. */
  method WriteText(b58: array<char>, zcount: nat, buf: array<nat>, j: nat) returns (outSz: nat)
    requires j <= buf.Length && IsNumeral(buf[j..], 58)
    requires zcount + (buf.Length - j) < b58.Length
    modifies b58
    ensures outSz == zcount + (buf.Length - j) + 1
    ensures b58[..outSz] == Ones(zcount) + Chars(buf[j..]) + ['\0'] && b58[outSz..] == old(b58[outSz..])
  {
    ghost var tail := b58[zcount + (buf.Length - j) + 1..];
    var digits := buf[j..];
    forall k | 0 <= k < zcount {
      b58[k] := '1';
    }
    var n := 0;
    while n < |digits|
      invariant n <= |digits|
      invariant b58[..zcount + n] == Ones(zcount) + Chars(digits)[..n]
      invariant b58[zcount + |digits| + 1..] == tail
    {
      b58[zcount + n] := CharOf(digits[n]);
      assert b58[..zcount + n + 1] == b58[..zcount + n] + [CharOf(digits[n])];
      assert Chars(digits)[..n + 1] == Chars(digits)[..n] + [CharOf(digits[n])];
      n := n + 1;
    }
    b58[zcount + n] := '\0';
    outSz := zcount + n + 1;
    assert Chars(digits)[..n] == Chars(digits);
    assert b58[..outSz] == b58[..zcount + n] + ['\0'];
  }

  lemma EncodeFromDigits(bin: seq<Byte>, zcount: nat, buf: seq<nat>, j: nat)
    requires zcount == LeadingZeros(bin) && IsNumeral(buf, 58) && Eval(buf, 58) == Eval(bin, 256)
    requires j <= |buf| && (forall i | 0 <= i < j :: buf[i] == 0) && (j < |buf| ==> buf[j] != 0)
    ensures IsNumeral(buf[j..], 58) && Encode(bin) == Ones(zcount) + Chars(buf[j..])
  {
    hide Eval;
    assert buf == Zeros(j) + buf[j..];
    EvalLeadingZeros(j, buf[j..], 58);
    DigitsUnique(buf[j..], 58);
  }

  // ---------------------------------------------------------------- decoding

  const CARRY_MASK: nat := 0x3f_0000_0000

  /** The 6-bit mask in the inner loop of b58tobin never drops a bit of the carry. */
  lemma CarryMask(t: nat)
    requires t < 58 * TWO_TO_32
    ensures ShiftRight(BitAnd(t, CARRY_MASK), 32) == t / TWO_TO_32 < 58
  {
    hide BitAnd, ShiftLeft, ShiftRight, Pow2;
    var high := ShiftRight(t, 32);
    SmallPow2();
    ShiftLeftBytes(0x3f);
    ShiftRightIsDivision(t, 32);
    MaskShift(t, 0x3f, 32);
    SixBits();
    BitAndAllOnes(high, 6);
    ShiftBack(high, 32);
  }

  lemma SixBits()
    ensures Pow2(6) == 0x40 && Pow2(24) == 0x100_0000
  {
    assert Pow2(4) == 16;
    assert Pow2(8) == 16 * Pow2(4) && Pow2(12) == 16 * Pow2(8) && Pow2(16) == 16 * Pow2(12);
    assert Pow2(20) == 16 * Pow2(16) && Pow2(24) == 16 * Pow2(20);
  }

  /** Keeping the low 32 bits is reducing modulo 2^32. */
  lemma LowWord(t: nat)
    ensures BitAnd(t, 0xffff_ffff) == t % TWO_TO_32
  {
    hide BitAnd, IsPow2, Pow2;
    SmallPow2();
    Pow2IsPow2(32);
    BitAndCommutes(t, 0xffff_ffff);
    MaskIsMod(TWO_TO_32, t);
  }

  /** The mask for the bits of the first word that its `bytesleft` bytes do not have. */
  function ZeroMask(bytesleft: nat): nat {
    if bytesleft == 0 then 0 else ShiftLeft(0xffff_ffff, 8 * bytesleft) % TWO_TO_32
  }

  lemma ByteWidths(b: nat)
    requires 1 <= b <= 3
    ensures Pow(256, b) == Pow2(8 * b) == if b == 1 then 0x100 else if b == 2 then 0x1_0000 else 0x100_0000
    ensures Pow2(32 - 8 * b) == if b == 1 then 0x100_0000 else if b == 2 then 0x1_0000 else 0x100
  {
    assert Pow(256, 1) == 0x100 && Pow(256, 2) == 0x1_0000 && Pow(256, 3) == 0x100_0000;
    hide Pow2;
    SmallPow2();
    SixBits();
  }

  lemma ZeroMaskValue(b: nat)
    requires 1 <= b <= 3
    ensures ZeroMask(b) == ShiftLeft(Pow2(32 - 8 * b) - 1, 8 * b)
  {
    hide ShiftLeft, Pow, Pow2;
    ByteWidths(b);
    var m := Pow2(32 - 8 * b) - 1;
    ShiftLeftBytes(0xffff_ffff);
    ShiftLeftByte(0xffff_ffff, 16);
    ShiftLeftBytes(m);
    ShiftLeftByte(m, 16);
  }

  /** The overflow test: the mask is hit exactly when the first word needs more than its bytes. */
  lemma ZeroMaskTest(w: Word, b: nat)
    requires 1 <= b <= 3
    ensures BitAnd(w, ZeroMask(b)) != 0 <==> w >= Pow(256, b)
  {
    hide BitAnd, ShiftLeft, ShiftRight, Pow, Pow2, ZeroMask;
    var s := 8 * b;
    ZeroMaskValue(b);
    ByteWidths(b);
    SmallPow2();
    MaskShift(w, Pow2(32 - s) - 1, s);
    ShiftRightBound(w, s, 32 - s);
    ShiftRightBound(w, s, 0);
    PowZero();
    BitAndAllOnes(ShiftRight(w, s), 32 - s);
  }

  lemma PowZero()
    ensures Pow2(0) == 1
  {
  }

  /** One word: the product and the carry in 64 bits, split by the two masks. */
  method WordStep(word: Word, carry: nat) returns (c: nat, low: Word)
    requires carry < 58
    ensures c == (carry + 58 * word) / TWO_TO_32 < 58 && low == (carry + 58 * word) % TWO_TO_32
  {
    var t := word * 58 + carry;
    CarryMask(t);
    LowWord(t);
    c := ShiftRight(BitAnd(t, CARRY_MASK), 32);
    low := BitAnd(t, 0xffff_ffff);
  }

  /** The inner loop of b58tobin: multiply by 58 and add a digit, on 32-bit words. */
  method AddDigit(outi: array<Word>, digit: nat) returns (c: nat)
    requires digit < 58
    modifies outi
    ensures c < 58
    ensures c * Pow(TWO_TO_32, outi.Length) + Eval(outi[..], TWO_TO_32) ==
            old(Eval(outi[..], TWO_TO_32)) * 58 + digit
  {
    hide Eval, Pow, Partial, BitAnd, ShiftRight;
    ghost var start := outi[..];
    ghost var total := Eval(start, TWO_TO_32) * 58 + digit;
    PartialStart(start, digit, TWO_TO_32, 58);
    c := digit;
    var j := outi.Length;
    assert start[..j] == start && outi[j..] == [];
    while j > 0
      invariant 0 <= j <= outi.Length && c < 58
      invariant outi[..j] == start[..j]
      invariant Partial(start[..j], c, outi[j..], TWO_TO_32, 58) == total
    {
      ghost var rest := outi[j..];
      j := j - 1;
      PartialStep(start[..j], start[j], c, rest, TWO_TO_32, 58);
      assert start[..j + 1] == start[..j] + [start[j]];
      var low;
      c, low := WordStep(outi[j], c);
      outi[j] := low;
      assert outi[j..] == [outi[j]] + rest;
      assert outi[..j] == start[..j];
    }
    assert start[..0] == [] && outi[0..] == outi[..];
    PartialFull(c, outi[..], TWO_TO_32, 58);
  }

  /** The bytes of a list of words, most significant first, `first` of them from the first word. */
  function BytesOf(limbs: seq<Word>, first: nat): (bytes: seq<Byte>)
    ensures |bytes| == if limbs == [] then 0 else first + 4 * (|limbs| - 1)
  {
    if limbs == [] then []
    else
      var n := |limbs| - 1;
      BytesOf(limbs[..n], first) + FixedDigits(limbs[n], 256, if n == 0 then first else 4)
  }

  lemma WordIsFourBytes()
    ensures Pow(256, 4) == TWO_TO_32
  {
    assert Pow(256, 2) == 0x1_0000;
    assert Pow(256, 4) == 0x1_0000 * Pow(256, 2);
  }

  /** Word by word, the bytes are the base-256 digits of the whole value. */
  lemma {:induction false} BytesOfIsFixed(limbs: seq<Word>, first: nat)
    requires limbs != [] && first <= 4 && limbs[0] < Pow(256, first)
    ensures BytesOf(limbs, first) == FixedDigits(Eval(limbs, TWO_TO_32), 256, first + 4 * (|limbs| - 1))
    decreases |limbs|
  {
    hide Eval, Pow, FixedDigits;
    var n := |limbs| - 1;
    if n == 0 {
      EvalOne(limbs[0], TWO_TO_32);
      assert limbs == [limbs[0]];
    } else {
      BytesOfIsFixed(limbs[..n], first);
      LastWord(limbs, first + 4 * (n - 1));
    }
  }

  lemma LastWord(limbs: seq<Word>, width: nat)
    requires limbs != []
    ensures var n := |limbs| - 1;
            FixedDigits(Eval(limbs, TWO_TO_32), 256, width + 4) ==
            FixedDigits(Eval(limbs[..n], TWO_TO_32), 256, width) + FixedDigits(limbs[n], 256, 4)
  {
    hide Eval, Pow, FixedDigits;
    var n := |limbs| - 1;
    assert limbs == limbs[..n] + [limbs[n]];
    EvalSnoc(limbs[..n], limbs[n], TWO_TO_32);
    WordIsFourBytes();
    FixedAppend(Eval(limbs, TWO_TO_32), Eval(limbs[..n], TWO_TO_32), limbs[n], 256, width, 4);
  }

  /** The bytes in the first word: the remainder modulo 4, or all four. */
  function FirstBytes(binsz: nat): nat {
    if binsz % 4 == 0 then 4 else binsz % 4
  }

  lemma {:induction false} PowOfPow(b: nat, d: nat, n: nat)
    ensures Pow(Pow(b, d), n) == Pow(b, d * n)
    decreases n
  {
    if n > 0 {
      PowOfPow(b, d, n - 1);
      assert d * n == d + d * (n - 1);
      PowAdd(b, d, d * (n - 1));
    } else {
      assert d * n == 0;
    }
  }

  /** The value of the words fits `binsz` bytes exactly when the first word fits its bytes. */
  lemma FitsInBytes(limbs: seq<Word>, binsz: nat)
    requires binsz > 0 && |limbs| == (binsz + 3) / 4
    ensures Eval(limbs, TWO_TO_32) < Pow(256, binsz) <==> limbs[0] < Pow(256, FirstBytes(binsz))
  {
    hide Eval, Pow;
    var first, rest := FirstBytes(binsz), limbs[1..];
    var p, f := Pow(TWO_TO_32, |rest|), Pow(256, first);
    WordIsFourBytes();
    PowOfPow(256, 4, |rest|);
    assert binsz == first + 4 * |rest|;
    PowAdd(256, first, 4 * |rest|);
    assert limbs == [limbs[0]] + rest;
    EvalAppend([limbs[0]], rest, TWO_TO_32);
    EvalOne(limbs[0], TWO_TO_32);
    EvalBound(rest, TWO_TO_32);
    Leading(limbs[0], f, p, Eval(rest, TWO_TO_32));
  }

  lemma Leading(x: nat, f: nat, p: nat, r: nat)
    requires r < p
    ensures x * p + r < f * p <==> x < f
  {
    if x < f {
      MulMono(p, x + 1, f);
      Distribute(x, 1, p);
    } else {
      MulMono(p, f, x);
    }
  }

  /** The width of the words holds `binsz` bytes, so a carry out of them is too large as well. */
  lemma CarryTooLarge(c: nat, rest: nat, limbs: nat, binsz: nat)
    requires limbs == (binsz + 3) / 4 && c > 0
    ensures c * Pow(TWO_TO_32, limbs) + rest >= Pow(256, binsz)
  {
    hide Pow;
    WordIsFourBytes();
    PowOfPow(256, 4, limbs);
    PowMono(256, binsz, 4 * limbs);
    MulMono(Pow(TWO_TO_32, limbs), 1, c);
  }

  /** One more character of the text, on the words. */
  lemma TextSnoc(t: string, i: nat)
    requires i < |t| && IsBase58(t[..i]) && DigitOf(t[i]) >= 0
    ensures IsBase58(t[..i + 1]) && DigitOf(t[i]) < 58
    ensures Value(t[..i + 1]) == Value(t[..i]) * 58 + DigitOf(t[i])
  {
    hide Eval, CharOf, DigitOf;
    DigitOfRange(t[i]);
    assert DigitsOf(t[..i + 1]) == DigitsOf(t[..i]) + [DigitOf(t[i])];
    EvalSnoc(DigitsOf(t[..i]), DigitOf(t[i]), 58);
  }

  /** A prefix that is already too large makes the whole text too large. */
  lemma PrefixTooLarge(t: string, i: nat)
    requires i <= |t| && IsBase58(t)
    ensures IsBase58(t[..i]) && Value(t[..i]) <= Value(t)
  {
    hide Eval;
    assert DigitsOf(t[..i]) == DigitsOf(t)[..i];
    PrefixSmaller(DigitsOf(t), i, 58);
  }

  lemma OnesHaveNoValue(n: nat)
    ensures IsBase58(Ones(n)) && Value(Ones(n)) == 0
  {
    hide Eval;
    assert Ones(n) == Ones(n) + "";
    ValueOfOnes(n, "");
    assert DigitsOf("") == [];
    EvalEmpty(58);
  }

  /** The test after each digit: the first word is over its mask exactly when the value is too large. */
  lemma OverflowTest(limbs: seq<Word>, binsz: nat)
    requires binsz > 0 && |limbs| == (binsz + 3) / 4
    ensures BitAnd(limbs[0], ZeroMask(binsz % 4)) != 0 <==> Eval(limbs, TWO_TO_32) >= Pow(256, binsz)
  {
    hide Eval, Pow, BitAnd, ShiftLeft;
    FitsInBytes(limbs, binsz);
    if binsz % 4 == 0 {
      BitAndZero(limbs[0]);
      WordIsFourBytes();
    } else {
      hide ZeroMask;
      ZeroMaskTest(limbs[0], binsz % 4);
    }
  }

  /** A text with a character that is no digit, or with a prefix that is too large, is rejected. */
  lemma RejectPrefix(t: string, i: nat, limit: nat)
    requires i < |t|
    requires DigitOf(t[i]) < 0 || (IsBase58(t[..i + 1]) && Value(t[..i + 1]) >= limit)
    ensures !(IsBase58(t) && Value(t) < limit)
  {
    hide Value, DigitOf;
    if IsBase58(t) {
      PrefixTooLarge(t, i + 1);
    }
  }

  /** The reading loop of b58tobin: it goes on exactly as long as the text is a number that fits. */
  method ReadDigits(t: CString, binsz: nat) returns (ok: bool, outi: array<Word>, zerocount: nat)
    requires binsz > 0
    ensures fresh(outi) && outi.Length == (binsz + 3) / 4
    ensures zerocount == LeadingOnes(t)
    ensures ok <==> IsBase58(t) && Value(t) < Pow(256, binsz)
    ensures ok ==> Eval(outi[..], TWO_TO_32) == Value(t)
  {
    hide Eval, Pow, Value, IsBase58, DigitOf, CharOf, ZeroMask, BitAnd;
    outi := new Word[(binsz + 3) / 4](_ => 0);
    var zeromask := ZeroMask(binsz % 4);
    zerocount := 0;
    while zerocount < |t| && t[zerocount] == '1'
      invariant zerocount <= |t| && forall k | 0 <= k < zerocount :: t[k] == '1'
    {
      zerocount := zerocount + 1;
    }
    LeadingOnesIs(t, zerocount);
    OnesHaveNoValue(zerocount);
    assert t[..zerocount] == Ones(zerocount);
    assert outi[..] == Zeros(outi.Length);
    EvalZeros(outi.Length, TWO_TO_32);
    var i := zerocount;
    while i < |t|
      invariant zerocount <= i <= |t| && IsBase58(t[..i])
      invariant Eval(outi[..], TWO_TO_32) == Value(t[..i]) < Pow(256, binsz)
    {
      if DigitOf(t[i]) < 0 {
        RejectPrefix(t, i, Pow(256, binsz));
        ok := false;
        return;
      }
      TextSnoc(t, i);
      var c := AddDigit(outi, DigitOf(t[i]));
      if c != 0 {
        CarryTooLarge(c, Eval(outi[..], TWO_TO_32), outi.Length, binsz);
        RejectPrefix(t, i, Pow(256, binsz));
        ok := false;
        return;
      }
      OverflowTest(outi[..], binsz);
      if BitAnd(outi[0], zeromask) != 0 {
        RejectPrefix(t, i, Pow(256, binsz));
        ok := false;
        return;
      }
      i := i + 1;
    }
    assert t[..i] == t;
    ok := true;
  }

  lemma {:induction false} LeadingOnesIs(t: string, n: nat)
    requires n <= |t| && (forall i | 0 <= i < n :: t[i] == '1') && (n < |t| ==> t[n] != '1')
    ensures LeadingOnes(t) == n
  {
    if n > 0 {
      LeadingOnesIs(t[1..], n - 1);
    }
  }

  /** The bytes of a word, high byte first. */
  lemma OneByte(w: nat)
    ensures FixedDigits(w, 256, 1) == [w % 0x100]
  {
    FixedSnoc(w, 256, 1);
    assert FixedDigits(w / 256, 256, 0) == [];
  }

  lemma TwoBytes(w: nat)
    ensures FixedDigits(w, 256, 2) == [w / 0x100 % 0x100, w % 0x100]
  {
    hide FixedDigits;
    FixedSnoc(w, 256, 2);
    OneByte(w / 256);
  }

  lemma ThreeBytes(w: nat)
    ensures FixedDigits(w, 256, 3) == [w / 0x1_0000 % 0x100, w / 0x100 % 0x100, w % 0x100]
  {
    hide FixedDigits;
    FixedSnoc(w, 256, 3);
    TwoBytes(w / 256);
    assert w / 256 / 0x100 == w / 0x1_0000;
  }

  lemma FourBytes(w: nat)
    ensures FixedDigits(w, 256, 4) == [w / 0x100_0000 % 0x100, w / 0x1_0000 % 0x100, w / 0x100 % 0x100, w % 0x100]
  {
    hide FixedDigits;
    FixedSnoc(w, 256, 4);
    ThreeBytes(w / 256);
    assert w / 256 / 0x1_0000 == w / 0x100_0000 && w / 256 / 0x100 == w / 0x1_0000;
  }

  /** The switch of b58tobin: the bytes of an incomplete first word. */
  method WriteFirst(bin: array<Byte>, word: Word, bytesleft: nat)
    requires 1 <= bytesleft <= 3 && bytesleft <= bin.Length
    modifies bin
    ensures bin[..] == FixedDigits(word, 256, bytesleft) + old(bin[bytesleft..])
  {
    hide FixedDigits;
    OneByte(word);
    TwoBytes(word);
    ThreeBytes(word);
    var pos := 0;
    if bytesleft == 3 {
      bin[pos] := word / 0x1_0000 % 0x100;
      pos := pos + 1;
    }
    if bytesleft >= 2 {
      bin[pos] := word / 0x100 % 0x100;
      pos := pos + 1;
    }
    bin[pos] := word % 0x100;
  }

  method WriteWord(bin: array<Byte>, pos: nat, word: Word)
    requires pos + 4 <= bin.Length
    modifies bin
    ensures bin[..] == old(bin[..pos]) + FixedDigits(word, 256, 4) + old(bin[pos + 4..])
  {
    hide FixedDigits;
    FourBytes(word);
    bin[pos] := word / 0x100_0000 % 0x100;
    bin[pos + 1] := word / 0x1_0000 % 0x100;
    bin[pos + 2] := word / 0x100 % 0x100;
    bin[pos + 3] := word % 0x100;
  }

  lemma BytesOfSnoc(limbs: seq<Word>, j: nat, first: nat)
    requires j < |limbs|
    ensures BytesOf(limbs[..j + 1], first) ==
            BytesOf(limbs[..j], first) + FixedDigits(limbs[j], 256, if j == 0 then first else 4)
  {
    assert limbs[..j + 1][..j] == limbs[..j];
  }

  /** The writing part of b58tobin. */
  method WriteBytes(bin: array<Byte>, limbs: seq<Word>, binsz: nat)
    requires 0 < binsz <= bin.Length && |limbs| == (binsz + 3) / 4
    requires Eval(limbs, TWO_TO_32) < Pow(256, binsz)
    modifies bin
    ensures bin[..binsz] == FixedDigits(Eval(limbs, TWO_TO_32), 256, binsz)
    ensures bin[binsz..] == old(bin[binsz..])
  {
    hide Eval, Pow, FixedDigits, BytesOf;
    FitsInBytes(limbs, binsz);
    BytesOfIsFixed(limbs, FirstBytes(binsz));
    WriteLimbs(bin, limbs, binsz % 4);
  }

  /** The bytes of all words, one after the other; `bytesleft` of the first one, or all four. */
  method WriteLimbs(bin: array<Byte>, limbs: seq<Word>, bytesleft: nat)
    requires bytesleft < 4 && limbs != []
    requires var first := if bytesleft == 0 then 4 else bytesleft; first + 4 * (|limbs| - 1) <= bin.Length
    modifies bin
    ensures var first := if bytesleft == 0 then 4 else bytesleft;
            bin[..] == BytesOf(limbs, first) + old(bin[..])[first + 4 * (|limbs| - 1)..]
  {
    hide FixedDigits, BytesOf;
    ghost var first, start := if bytesleft == 0 then 4 else bytesleft, bin[..];
    var pos, j := WriteHead(bin, limbs, bytesleft);
    while j < |limbs|
      invariant 0 <= j <= |limbs| && pos == first + 4 * j - 4 && (j == 0 ==> first == 4)
      invariant bin[..] == BytesOf(limbs[..j], first) + start[pos..]
    {
      WriteNext(bin, limbs, j, pos, first, start);
      pos, j := pos + 4, j + 1;
    }
    assert limbs[..j] == limbs;
  }

  /** An incomplete first word, if there is one. */
  method WriteHead(bin: array<Byte>, limbs: seq<Word>, bytesleft: nat) returns (pos: nat, j: nat)
    requires bytesleft < 4 && limbs != [] && bytesleft <= bin.Length
    modifies bin
    ensures j == (if bytesleft == 0 then 0 else 1) && pos == bytesleft
    ensures var first := if bytesleft == 0 then 4 else bytesleft;
            bin[..] == BytesOf(limbs[..j], first) + old(bin[..])[pos..]
  {
    hide FixedDigits, BytesOf;
    ghost var first := if bytesleft == 0 then 4 else bytesleft;
    NoBytes(limbs, first);
    pos, j := 0, 0;
    if bytesleft > 0 {
      BytesOfSnoc(limbs, 0, first);
      WriteFirst(bin, limbs[0], bytesleft);
      pos, j := bytesleft, 1;
    }
  }

  method WriteNext(bin: array<Byte>, limbs: seq<Word>, j: nat, pos: nat, ghost first: nat, ghost start: seq<Byte>)
    requires j < |limbs| && pos == first + 4 * j - 4 && (j == 0 ==> first == 4)
    requires |start| == bin.Length && pos + 4 <= bin.Length
    requires bin[..] == BytesOf(limbs[..j], first) + start[pos..]
    modifies bin
    ensures bin[..] == BytesOf(limbs[..j + 1], first) + start[pos + 4..]
  {
    hide FixedDigits, BytesOf;
    BytesOfSnoc(limbs, j, first);
    ghost var before := bin[..];
    WriteWord(bin, pos, limbs[j]);
    Spliced(before, BytesOf(limbs[..j], first), start, FixedDigits(limbs[j], 256, 4));
  }

  lemma NoBytes(limbs: seq<Word>, first: nat)
    ensures BytesOf(limbs[..0], first) == []
  {
  }

  /** Overwriting the next bytes of a buffer of which `done` has been written. */
  lemma Spliced(buffer: seq<Byte>, done: seq<Byte>, start: seq<Byte>, next: seq<Byte>)
    requires |done| + |next| <= |start| && buffer == done + start[|done|..]
    ensures buffer[..|done|] + next + buffer[|done| + |next|..] == (done + next) + start[|done| + |next|..]
  {
  }

  /** b58tobin, into a buffer whose first `binsz` bytes are to be filled: it succeeds exactly when the
      text decodes, and then it leaves the decoded bytes and their number. A text that is not a
      number that fits leaves the buffer alone; one with too many ones leaves the number's bytes, and
      reports how many of them remain after the leading zeros. */
  method B58ToBin(bin: array<Byte>, binsz: nat, t: CString) returns (ok: bool, outSz: nat)
    requires binsz <= bin.Length
    modifies bin
    ensures ok <==> Decode(t, binsz).Decoded?
    ensures ok ==> Decode(t, binsz) == Decoded(bin[..binsz], outSz)
    ensures bin[binsz..] == old(bin[binsz..])
    ensures binsz == 0 || !IsBase58(t) || Value(t) >= Pow(256, binsz) ==> bin[..] == old(bin[..]) && outSz == binsz
    ensures !ok && binsz > 0 && IsBase58(t) && Value(t) < Pow(256, binsz) ==>
              bin[..binsz] == FixedDigits(Value(t), 256, binsz) && outSz == binsz - LeadingZeros(bin[..binsz])
  {
    hide Eval, Pow, FixedDigits, Value, IsBase58;
    outSz := binsz;
    if binsz == 0 {
      return false, outSz;
    }
    var read, outi, zerocount := ReadDigits(t, binsz);
    if !read {
      return false, outSz;
    }
    WriteBytes(bin, outi[..], binsz);
    ghost var bytes := bin[..binsz];
    ZeroBytes(Value(t), binsz);

    var i := 0;
    while i < binsz
      invariant 0 <= i <= binsz && outSz == binsz - i
      invariant forall k | 0 <= k < i :: bytes[k] == 0
    {
      if bin[i] != 0 {
        LeadingZerosIs(bytes, i);
        if zerocount > i {
          return false, outSz;
        }
        outSz := outSz + zerocount;
        return true, outSz;
      }
      outSz := outSz - 1;
      i := i + 1;
    }
    LeadingZerosIs(bytes, binsz);
    outSz := outSz + zerocount;
    ok := true;
  }

  /** The fixed-width form has only zeros exactly for the value zero. */
  lemma ZeroBytes(v: nat, n: nat)
    requires v < Pow(256, n)
    ensures LeadingZeros(FixedDigits(v, 256, n)) == n <==> v == 0
  {
    hide Eval, Pow, FixedDigits;
    var bytes := FixedDigits(v, 256, n);
    EvalFixed(v, 256, n);
    EvalZeros(n, 256);
    if v == 0 {
      FixedUnique(Zeros(n), 256);
      assert bytes == Zeros(n);
    }
    if LeadingZeros(bytes) == n {
      assert bytes == Zeros(n);
    }
  }

  // ---------------------------------------------------------------- keys, signatures, identifiers

  /** base58_encode_key, base58_encode_sig and base58_encode_uuid: they never fail. */
  method EncodeKey(key: seq<Byte>) returns (ok: bool, t: string)
    requires |key| <= 64
    ensures ok && t == Encode(key)
  {
    hide Encode;
    EncodeLength(key);
    var encoded := new char[TEXT_BUFFER];
    var len;
    ok, len := B58Enc(encoded, TEXT_BUFFER, key);
    t := encoded[..len - 1];
    assert t == encoded[..len][..len - 1];
  }

  /** base58_decode_key, base58_decode_sig and base58_decode_uuid, which do not look at the number of bytes
      reported: a text that stands for fewer bytes, or a row of any number of ones, is accepted too, and
      then the key is written differently. */
  method DecodeKey(t: CString, len: nat) returns (ok: bool, key: seq<Byte>)
    requires len > 0
    ensures ok <==> IsBase58(t) && (Value(t) == 0 || TextSize(t) <= len)
    ensures ok ==> |key| == len && Eval(key, 256) == Value(t)
    ensures ok ==> (Encode(key) == t <==> TextSize(t) == len)
  {
    hide Encode, Value, IsBase58, Eval, Digits;
    var bin := new Byte[len];
    var size;
    ok, size := B58ToBin(bin, len, t);
    DecodesWhen(t, len);
    key := [];
    if ok {
      DecodeEncode(t, len);
      key := bin[..];
      assert key == bin[..len];
    }
  }
}
