/** What Base58 encoding and decoding mean, and that they undo each other. */
module Base58 {
  import opened Bits
  import opened Radix
  import opened Base58Tables

  /** The characters of a C string before its terminator. */
  type CString = s: string | forall i | 0 <= i < |s| :: 0 < s[i] as int < 0x100

  function LeadingZeros(s: seq<nat>): (n: nat)
    ensures n <= |s| && (forall i | 0 <= i < n :: s[i] == 0)
    ensures n < |s| ==> s[n] != 0
  {
    if s == [] || s[0] != 0 then 0 else 1 + LeadingZeros(s[1..])
  }

  function LeadingOnes(t: string): (n: nat)
    ensures n <= |t| && (forall i | 0 <= i < n :: t[i] == '1')
    ensures n < |t| ==> t[n] != '1'
  {
    if t == "" || t[0] != '1' then 0 else 1 + LeadingOnes(t[1..])
  }

  function Ones(n: nat): (t: string)
    ensures |t| == n && forall i | 0 <= i < n :: t[i] == '1'
  {
    seq(n, _ => '1')
  }

  function Chars(digits: seq<nat>): (t: string)
    requires IsNumeral(digits, 58)
    ensures |t| == |digits| && forall i | 0 <= i < |t| :: t[i] == CharOf(digits[i])
  {
    seq(|digits|, i requires 0 <= i < |digits| => CharOf(digits[i]))
  }

  /** One '1' for each leading zero byte, then the number in base 58. */
  function Encode(bin: seq<Byte>): string {
    Ones(LeadingZeros(bin)) + Chars(Digits(Eval(bin, 256), 58))
  }

  predicate IsBase58(t: string) {
    forall i | 0 <= i < |t| :: DigitOf(t[i]) >= 0
  }

  function DigitsOf(t: string): (digits: seq<nat>)
    requires IsBase58(t)
    ensures |digits| == |t| && IsNumeral(digits, 58)
    ensures forall i | 0 <= i < |t| :: digits[i] == DigitOf(t[i])
  {
    DigitsInRange(t);
    seq<nat>(|t|, i requires 0 <= i < |t| => DigitOf(t[i]))
  }

  lemma DigitsInRange(t: string)
    ensures forall i | 0 <= i < |t| :: -1 <= DigitOf(t[i]) < 58
  {
    forall i | 0 <= i < |t|
      ensures -1 <= DigitOf(t[i]) < 58
    {
      DigitOfRange(t[i]);
    }
  }

  /** The number a text stands for. */
  function Value(t: string): nat
    requires IsBase58(t)
  {
    Eval(DigitsOf(t), 58)
  }

  datatype Decoded = Rejected | Decoded(bytes: seq<Byte>, size: nat)

  /** Decoding into a buffer of `binsz` bytes: the value in full width, and the number of bytes that
      the text encodes. */
  function Decode(t: string, binsz: nat): Decoded {
    if binsz == 0 || !IsBase58(t) || Value(t) >= Pow(256, binsz) then Rejected
    else
      var bytes := FixedDigits(Value(t), 256, binsz);
      if Value(t) != 0 && LeadingOnes(t) > LeadingZeros(bytes) then Rejected
      else Decoded(bytes, binsz - LeadingZeros(bytes) + LeadingOnes(t))
  }

  // ---------------------------------------------------------------- round trips

  lemma OneIsZero()
    ensures CharOf(0) == '1' && DigitOf('1') == 0
  {
    DigitOfCharOf(0);
  }

  /** Only the digit zero is written '1'. */
  lemma ZeroDigit(c: char)
    requires DigitOf(c) == 0
    ensures c == '1'
  {
    CharOfDigitOf(c);
    OneIsZero();
  }

  lemma DigitsOfChars(digits: seq<nat>)
    requires IsNumeral(digits, 58)
    ensures IsBase58(Chars(digits)) && DigitsOf(Chars(digits)) == digits
  {
    forall i | 0 <= i < |digits|
      ensures DigitOf(Chars(digits)[i]) == digits[i]
    {
      DigitOfCharOf(digits[i]);
    }
  }

  lemma CharsOfDigits(t: string)
    requires IsBase58(t)
    ensures Chars(DigitsOf(t)) == t
  {
    forall i | 0 <= i < |t|
      ensures Chars(DigitsOf(t))[i] == t[i]
    {
      CharOfDigitOf(t[i]);
    }
  }

  lemma {:induction false} LeadingOnesOf(n: nat, t: string)
    requires t != "" ==> t[0] != '1'
    ensures LeadingOnes(Ones(n) + t) == n
  {
    if n > 0 {
      LeadingOnesOf(n - 1, t);
      assert (Ones(n) + t)[1..] == Ones(n - 1) + t;
    } else {
      assert Ones(0) + t == t;
    }
  }

  /** Ones in front of a text do not change its value. */
  lemma ValueOfOnes(n: nat, t: string)
    requires IsBase58(t)
    ensures IsBase58(Ones(n) + t) && Value(Ones(n) + t) == Value(t)
  {
    OneIsZero();
    assert DigitsOf(Ones(n) + t) == Zeros(n) + DigitsOf(t);
    EvalLeadingZeros(n, DigitsOf(t), 58);
  }

  /** What an encoding says: the value, and the number of leading zero bytes. */
  lemma AboutEncode(bin: seq<Byte>)
    ensures IsBase58(Encode(bin)) && Value(Encode(bin)) == Eval(bin, 256)
    ensures LeadingOnes(Encode(bin)) == LeadingZeros(bin)
  {
    var digits := Digits(Eval(bin, 256), 58);
    DigitsOfChars(digits);
    EvalDigits(Eval(bin, 256), 58);
    ValueOfOnes(LeadingZeros(bin), Chars(digits));
    if digits != [] && Chars(digits)[0] == '1' {
      DigitOfCharOf(digits[0]);
      OneIsZero();
    }
    LeadingOnesOf(LeadingZeros(bin), Chars(digits));
  }

  /** A text of digits is its leading ones followed by the canonical digits of its value. */
  lemma TextShape(t: string)
    requires IsBase58(t)
    ensures t == Ones(LeadingOnes(t)) + Chars(Digits(Value(t), 58))
  {
    var n := LeadingOnes(t);
    var rest := t[n..];
    assert t == Ones(n) + rest;
    ValueOfOnes(n, rest);
    if rest != "" && DigitsOf(rest)[0] == 0 {
      ZeroDigit(rest[0]);
    }
    DigitsUnique(DigitsOf(rest), 58);
    CharsOfDigits(rest);
  }

  /** Decoding an encoding gives back the bytes and their number. */
  lemma EncodeDecode(bin: seq<Byte>)
    requires bin != []
    ensures Decode(Encode(bin), |bin|) == Decoded(bin, |bin|)
  {
    AboutEncode(bin);
    EvalBound(bin, 256);
    FixedUnique(bin, 256);
  }

  /** The number of bytes a text stands for: one for each leading one, and those of its value. */
  function TextSize(t: string): nat
    requires IsBase58(t)
  {
    LeadingOnes(t) + |Digits(Value(t), 256)|
  }

  /** The full-width form of a value is zeros and then its digits. */
  lemma FixedShape(v: nat, n: nat)
    requires v < Pow(256, n)
    ensures |Digits(v, 256)| <= n
    ensures LeadingZeros(FixedDigits(v, 256, n)) == n - |Digits(v, 256)|
  {
    DigitsLength(v, 256, n);
    var digits := Digits(v, 256);
    var padded := Zeros(n - |digits|) + digits;
    EvalLeadingZeros(n - |digits|, digits, 256);
    EvalDigits(v, 256);
    FixedUnique(padded, 256);
    assert FixedDigits(v, 256, n) == padded;
    LeadingZerosIs(padded, n - |digits|);
  }

  lemma {:induction false} LeadingZerosIs(s: seq<nat>, n: nat)
    requires n <= |s| && (forall i | 0 <= i < n :: s[i] == 0) && (n < |s| ==> s[n] != 0)
    ensures LeadingZeros(s) == n
  {
    if n > 0 {
      LeadingZerosIs(s[1..], n - 1);
    }
  }

  lemma FewDigitsFit(v: nat, n: nat)
    requires |Digits(v, 256)| <= n
    ensures v < Pow(256, n)
  {
    EvalDigits(v, 256);
    EvalBound(Digits(v, 256), 256);
    PowMono(256, |Digits(v, 256)|, n);
  }

  /** A text decodes exactly when it is made of digits and stands for no more bytes than the buffer
      has; but any number of ones decodes. */
  lemma DecodesWhen(t: string, binsz: nat)
    ensures Decode(t, binsz).Decoded? <==>
            binsz > 0 && IsBase58(t) && (Value(t) == 0 || TextSize(t) <= binsz)
  {
    hide Value, Pow, FixedDigits, Digits, IsBase58;
    if IsBase58(t) {
      if Value(t) < Pow(256, binsz) {
        FixedShape(Value(t), binsz);
      } else {
        TooManyDigits(Value(t), binsz);
      }
    }
  }

  lemma TooManyDigits(v: nat, n: nat)
    requires v >= Pow(256, n)
    ensures |Digits(v, 256)| > n && v > 0
  {
    if |Digits(v, 256)| <= n {
      FewDigitsFit(v, n);
    }
  }

  /** Whenever decoding succeeds, the reported size is the number of bytes the text stands for, and
      encoding the buffer gives back the text exactly when that is the size of the buffer. */
  lemma DecodeEncode(t: string, binsz: nat)
    requires Decode(t, binsz).Decoded?
    ensures var Decoded(bytes, size) := Decode(t, binsz);
            && size == TextSize(t)
            && Eval(bytes, 256) == Value(t)
            && (Encode(bytes) == t <==> TextSize(t) == binsz)
  {
    var Decoded(bytes, size) := Decode(t, binsz);
    EvalFixed(Value(t), 256, binsz);
    FixedShape(Value(t), binsz);
    TextShape(t);
    AboutEncode(bytes);
  }

  /** One more '1' in front: the text still decodes, and then to the same bytes, exactly when it is all
      ones or there is room for one more byte. */
  lemma OneMoreOne(t: string, binsz: nat)
    requires Decode(t, binsz).Decoded?
    ensures Decode(Ones(1) + t, binsz).Decoded? <==> Value(t) == 0 || TextSize(t) < binsz
    ensures Decode(Ones(1) + t, binsz).Decoded? ==>
              Decode(Ones(1) + t, binsz).bytes == Decode(t, binsz).bytes
  {
    hide Value, Pow, FixedDigits, Digits, IsBase58;
    var longer := Ones(1) + t;
    ValueOfOnes(1, t);
    assert longer[1..] == t;
    assert LeadingOnes(longer) == 1 + LeadingOnes(t);
    DecodesWhen(t, binsz);
    DecodesWhen(longer, binsz);
  }

  /** In a buffer of two bytes or more the text "2" decodes, but the buffer is written differently. */
  lemma ShortTextChanges(binsz: nat)
    requires binsz >= 2
    ensures Decode("2", binsz).Decoded? && Encode(Decode("2", binsz).bytes) != "2"
  {
    ShortText();
    hide Value, Digits, IsBase58;
    DecodesWhen("2", binsz);
    DecodeEncode("2", binsz);
  }

  lemma ShortText()
    ensures IsBase58("2") && TextSize("2") == 1
  {
    hide DigitOf, CharOf, Digits, Eval;
    SecondDigit();
    assert DigitsOf("2") == [1];
    EvalOne(1, 58);
    EvalOne(1, 256);
    DigitsUnique([1], 256);
  }

  lemma SecondDigit()
    ensures DigitOf('2') == 1
  {
    assert CharOf(1) == '2';
    hide DigitOf, CharOf;
    DigitOfCharOf(1);
  }

  /** Encoding is injective. */
  lemma EncodeInjective(a: seq<Byte>, b: seq<Byte>)
    ensures Encode(a) == Encode(b) <==> a == b
  {
    if Encode(a) == Encode(b) {
      AboutEncode(a);
      AboutEncode(b);
      NumeralShape(a);
      NumeralShape(b);
    }
  }

  lemma NumeralShape(bin: seq<Byte>)
    ensures bin == Zeros(LeadingZeros(bin)) + Digits(Eval(bin, 256), 256)
  {
    var n := LeadingZeros(bin);
    assert bin == Zeros(n) + bin[n..];
    EvalLeadingZeros(n, bin[n..], 256);
    DigitsUnique(bin[n..], 256);
  }

  // ---------------------------------------------------------------- sizes

  /** The encoder's estimate of the number of digits after `zcount` leading zero bytes. */
  function SizeEstimate(binsz: nat, zcount: nat): nat
    requires zcount <= binsz
  {
    (binsz - zcount) * 138 / 100 + 1
  }

  /** The value of the bytes fits the estimated number of digits. */
  lemma EstimateSuffices(bin: seq<Byte>)
    ensures Eval(bin, 256) < Pow(58, SizeEstimate(|bin|, LeadingZeros(bin)))
  {
    hide Pow, Eval, LeadingZeros;
    var n := LeadingZeros(bin);
    var rest := bin[n..];
    assert bin == Zeros(n) + rest;
    EvalLeadingZeros(n, rest, 256);
    EvalBound(rest, 256);
    EncoderBound(|rest|);
  }

  lemma {:induction false} DigitsLength(v: nat, base: nat, n: nat)
    requires base >= 2 && v < Pow(base, n)
    ensures |Digits(v, base)| <= n
    decreases n
  {
    if v > 0 {
      QuotientBound(v, base, Pow(base, n - 1));
      DigitsLength(v / base, base, n - 1);
      DigitsSnoc(v, base);
    }
  }

  /** An encoding is at most 138/100 of its input long, plus one. */
  lemma EncodeLength(bin: seq<Byte>)
    ensures |Encode(bin)| <= |bin| * 138 / 100 + 1
  {
    EstimateSuffices(bin);
    DigitsLength(Eval(bin, 256), 58, SizeEstimate(|bin|, LeadingZeros(bin)));
  }

  // ---------------------------------------------------------------- keys, signatures, identifiers

  const KEY_LEN: nat := 32
  const TEXT_BUFFER: nat := 128

  /** The 128-character buffer is large enough for the encoding of up to 64 bytes, with the terminator;
      and decoding reads it back. */
  lemma KeyRoundTrip(key: seq<Byte>)
    requires 0 < |key| <= 64
    ensures |Encode(key)| < TEXT_BUFFER
    ensures Decode(Encode(key), |key|) == Decoded(key, |key|)
  {
    EncodeLength(key);
    EncodeDecode(key);
  }

  /** The ledger's test for the mint: a 32-byte key is written as 32 ones exactly when it is zero. */
  lemma MintTest(key: seq<Byte>)
    requires |key| == KEY_LEN
    ensures Encode(key) == Ones(KEY_LEN) <==> key == Zeros(KEY_LEN)
  {
    AboutEncode(key);
    LeadingOnesOf(KEY_LEN, "");
    assert Ones(KEY_LEN) + "" == Ones(KEY_LEN);
    if key == Zeros(KEY_LEN) {
      EvalZeros(KEY_LEN, 256);
      assert LeadingZeros(key) == KEY_LEN;
    }
    if Encode(key) == Ones(KEY_LEN) {
      assert LeadingZeros(key) == KEY_LEN;
    }
  }
}
