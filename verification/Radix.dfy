/** Positional numerals, most significant digit first: values, the canonical digits of a value, the
    digits of a fixed width, and the comparison of powers that sizes the Base58 buffer. */
module Radix {

  function Pow(b: nat, e: nat): (p: nat)
    ensures b > 0 ==> p > 0
  {
    if e == 0 then 1 else b * Pow(b, e - 1)
  }

  lemma {:induction false} PowAdd(b: nat, d: nat, e: nat)
    ensures Pow(b, d + e) == Pow(b, d) * Pow(b, e)
  {
    if d == 0 {
    } else {
      PowAdd(b, d - 1, e);
      MulAssoc(b, Pow(b, d - 1), Pow(b, e));
    }
  }

  lemma MulAssoc(a: int, b: int, c: int)
    ensures (a * b) * c == a * (b * c)
  {
  }

  lemma MulMono(a: nat, b: nat, c: nat)
    requires b <= c
    ensures a * b <= a * c && b * a <= c * a
  {
  }

  lemma {:induction false} PowMono(b: nat, d: nat, e: nat)
    requires b > 0 && d <= e
    ensures Pow(b, d) <= Pow(b, e)
    decreases e
  {
    if d < e {
      PowMono(b, d, e - 1);
      MulMono(Pow(b, e - 1), 1, b);
    }
  }

  predicate IsNumeral(digits: seq<nat>, base: nat) {
    forall i | 0 <= i < |digits| :: digits[i] < base
  }

  /** The value of a numeral. */
  function Eval(digits: seq<nat>, base: nat): nat {
    if digits == [] then 0 else Eval(digits[..|digits| - 1], base) * base + digits[|digits| - 1]
  }

  lemma EvalSnoc(digits: seq<nat>, d: nat, base: nat)
    ensures Eval(digits + [d], base) == Eval(digits, base) * base + d
  {
    assert (digits + [d])[..|digits|] == digits;
  }

  lemma {:induction false} EvalAppend(a: seq<nat>, b: seq<nat>, base: nat)
    ensures Eval(a + b, base) == Eval(a, base) * Pow(base, |b|) + Eval(b, base)
    decreases |b|
  {
    if b == [] {
      assert a + b == a;
    } else {
      var n := |b| - 1;
      var b', d := b[..n], b[n];
      assert b == b' + [d] && a + b == (a + b') + [d];
      EvalAppend(a, b', base);
      EvalSnoc(a + b', d, base);
      EvalSnoc(b', d, base);
      Horner(Eval(a, base), Pow(base, n), Eval(b', base), base, d);
    }
  }

  lemma Horner(x: int, p: int, y: int, base: int, d: int)
    ensures (x * p + y) * base + d == x * (base * p) + (y * base + d)
  {
    calc {
      (x * p + y) * base + d;
      (x * p) * base + y * base + d;
      { MulAssoc(x, p, base); }
      x * (p * base) + y * base + d;
    }
  }

  lemma {:induction false} EvalBound(digits: seq<nat>, base: nat)
    requires IsNumeral(digits, base)
    ensures Eval(digits, base) < Pow(base, |digits|)
    decreases |digits|
  {
    if digits != [] {
      var n := |digits| - 1;
      var e, p := Eval(digits[..n], base), Pow(base, n);
      EvalBound(digits[..n], base);
      MulMono(base, e + 1, p);
      assert (e + 1) * base == e * base + base;
    }
  }

  function Zeros(n: nat): (s: seq<nat>)
    ensures |s| == n && forall i | 0 <= i < n :: s[i] == 0
  {
    seq(n, _ => 0)
  }

  lemma {:induction false} EvalZeros(n: nat, base: nat)
    ensures Eval(Zeros(n), base) == 0
  {
    if n > 0 {
      EvalZeros(n - 1, base);
      assert Zeros(n)[..n - 1] == Zeros(n - 1);
    }
  }

  lemma EvalLeadingZeros(n: nat, digits: seq<nat>, base: nat)
    ensures Eval(Zeros(n) + digits, base) == Eval(digits, base)
  {
    EvalAppend(Zeros(n), digits, base);
    EvalZeros(n, base);
  }

  lemma DivMod(x: nat, q: nat, d: nat, r: nat)
    requires x == d * q + r && r < q
    ensures x / q == d && x % q == r
  {
    var e, s := x / q, x % q;
    assert x == e * q + s;
    assert q * (d - e) == s - r;
    FarMultiple(q, d - e);
  }

  lemma FarMultiple(q: int, k: int)
    requires q > 0
    ensures k >= 1 ==> q * k >= q
    ensures k <= -1 ==> q * k <= -q
  {
  }

  lemma {:induction false} PrefixSmaller(s: seq<nat>, i: nat, base: nat)
    requires i <= |s| && base > 0
    ensures Eval(s[..i], base) <= Eval(s, base)
    decreases |s|
  {
    if i == |s| {
      assert s[..i] == s;
    } else {
      var n := |s| - 1;
      PrefixSmaller(s[..n], i, base);
      assert s[..n][..i] == s[..i];
      MulMono(Eval(s[..n], base), 1, base);
    }
  }

  lemma EvalEmpty(base: nat)
    ensures Eval([], base) == 0 && Pow(base, 0) == 1
  {
  }

  lemma EvalOne(d: nat, base: nat)
    ensures Eval([d], base) == d
  {
    assert [] + [d] == [d];
    EvalSnoc([], d, base);
  }

  lemma PowSucc(base: nat, n: nat)
    ensures Pow(base, n + 1) == base * Pow(base, n)
  {
  }

  // ---------------------------------------------------------------- multiply and add, digit by digit

  /** The value held while a numeral is multiplied by `m` and something is added, from the lowest digit
      up: the digits `a` still to be multiplied, the carry into them, and the finished digits `rest`. */
  ghost function Partial(a: seq<nat>, carry: nat, rest: seq<nat>, base: nat, m: nat): nat {
    (Eval(a, base) * m + carry) * Pow(base, |rest|) + Eval(rest, base)
  }

  lemma PartialStart(digits: seq<nat>, add: nat, base: nat, m: nat)
    ensures Partial(digits, add, [], base, m) == Eval(digits, base) * m + add
  {
    EvalEmpty(base);
  }

  lemma PartialStep(a: seq<nat>, d: nat, carry: nat, rest: seq<nat>, base: nat, m: nat)
    requires base > 0
    ensures var c := carry + m * d;
            Partial(a + [d], carry, rest, base, m) == Partial(a, c / base, [c % base] + rest, base, m)
  {
    hide Eval, Pow;
    var c := carry + m * d;
    var q, r := c / base, c % base;
    EvalSnoc(a, d, base);
    EvalAppend([r], rest, base);
    EvalOne(r, base);
    assert |[r] + rest| == |rest| + 1;
    PowSucc(base, |rest|);
    DivModIdentity(c, base);
    StepAlgebra(Eval(a, base), d, carry, q, r, Pow(base, |rest|), Eval(rest, base), base, m);
  }

  lemma StepAlgebra(e: int, d: int, carry: int, q: int, r: int, p: int, z: int, base: int, m: int)
    requires carry + m * d == q * base + r
    ensures ((e * base + d) * m + carry) * p + z == (e * m + q) * (base * p) + (r * p + z)
  {
    calc {
      (e * base + d) * m + carry;
      { Distribute(e * base, d, m); Swap(e, base, m); }
      (e * m) * base + (m * d + carry);
      { Distribute(e * m, q, base); }
      (e * m + q) * base + r;
    }
    Distribute((e * m + q) * base, r, p);
    MulAssoc(e * m + q, base, p);
  }

  lemma Distribute(a: int, b: int, c: int)
    ensures (a + b) * c == a * c + b * c
  {
  }

  lemma Swap(a: int, b: int, c: int)
    ensures (a * b) * c == (a * c) * b
  {
    MulAssoc(a, b, c);
    MulAssoc(a, c, b);
  }

  /** A carry out of the first digit is the excess over the numeral's width. */
  lemma PartialFull(carry: nat, rest: seq<nat>, base: nat, m: nat)
    ensures Partial([], carry, rest, base, m) == carry * Pow(base, |rest|) + Eval(rest, base)
  {
    EvalEmpty(base);
  }

  /** Stopping with no carry above a run of zeros loses nothing. */
  lemma PartialEnd(n: nat, rest: seq<nat>, base: nat, m: nat)
    ensures Partial(Zeros(n), 0, rest, base, m) == Eval(Zeros(n) + rest, base)
  {
    hide Eval, Pow;
    EvalZeros(n, base);
    EvalLeadingZeros(n, rest, base);
  }

  // ---------------------------------------------------------------- canonical digits

  /** The digits of `v`, without leading zeros; zero has no digits. */
  function Digits(v: nat, base: nat): (d: seq<nat>)
    requires base >= 2
    ensures IsNumeral(d, base)
    ensures d != [] ==> d[0] != 0
    ensures v == 0 <==> d == []
  {
    if v == 0 then []
    else
      QuotientSmaller(v, base);
      Digits(v / base, base) + [v % base]
  }

  lemma QuotientSmaller(v: nat, base: nat)
    requires base >= 2 && v > 0
    ensures v / base < v
    ensures v / base == 0 ==> v % base == v
  {
    var q := v / base;
    assert v == base * q + v % base;
    MulMono(q, 2, base);
  }

  lemma DivModIdentity(v: nat, base: nat)
    requires base > 0
    ensures v == (v / base) * base + v % base
  {
  }

  lemma DigitsSnoc(v: nat, base: nat)
    requires base >= 2 && v > 0
    ensures Digits(v, base) == Digits(v / base, base) + [v % base]
  {
  }

  lemma {:induction false} EvalDigits(v: nat, base: nat)
    requires base >= 2
    ensures Eval(Digits(v, base), base) == v
  {
    if v == 0 {
      assert Eval([], base) == 0;
    } else {
      hide Eval, Digits;
      QuotientSmaller(v, base);
      var q, d := v / base, v % base;
      EvalDigits(q, base);
      DigitsSnoc(v, base);
      EvalSnoc(Digits(q, base), d, base);
      DivModIdentity(v, base);
    }
  }

  /** A numeral that starts with a non-zero digit is not zero. */
  lemma {:induction false} EvalPositive(digits: seq<nat>, base: nat)
    requires base > 0 && digits != [] && digits[0] != 0
    ensures Eval(digits, base) > 0
    decreases |digits|
  {
    var n := |digits| - 1;
    if n > 0 {
      EvalPositive(digits[..n], base);
      MulMono(Eval(digits[..n], base), 1, base);
    }
  }

  /** A numeral without leading zeros is the digits of its value. */
  lemma {:induction false} DigitsUnique(digits: seq<nat>, base: nat)
    requires base >= 2 && IsNumeral(digits, base)
    requires digits != [] ==> digits[0] != 0
    ensures Digits(Eval(digits, base), base) == digits
    decreases |digits|
  {
    if digits == [] {
      assert Eval([], base) == 0;
    } else {
      hide Eval, Digits;
      var n := |digits| - 1;
      var rest, d := digits[..n], digits[n];
      assert digits == rest + [d];
      DigitsUnique(rest, base);
      EvalPositive(digits, base);
      EvalSnoc(rest, d, base);
      DivMod(Eval(digits, base), base, Eval(rest, base), d);
      DigitsSnoc(Eval(digits, base), base);
    }
  }

  // ---------------------------------------------------------------- fixed width

  /** The lowest `n` digits of `v`. */
  function FixedDigits(v: nat, base: nat, n: nat): (d: seq<nat>)
    requires base >= 1
    ensures |d| == n && IsNumeral(d, base)
    decreases n
  {
    if n == 0 then [] else FixedDigits(v / base, base, n - 1) + [v % base]
  }

  lemma {:induction false} EvalFixed(v: nat, base: nat, n: nat)
    requires base >= 1 && v < Pow(base, n)
    ensures Eval(FixedDigits(v, base, n), base) == v
    decreases n
  {
    if n == 0 {
      assert Eval([], base) == 0;
    } else {
      hide Eval;
      var q, d := v / base, v % base;
      QuotientBound(v, base, Pow(base, n - 1));
      EvalFixed(q, base, n - 1);
      EvalSnoc(FixedDigits(q, base, n - 1), d, base);
      DivModIdentity(v, base);
    }
  }

  lemma QuotientBound(v: nat, base: nat, p: nat)
    requires base >= 1 && v < base * p
    ensures v / base < p
  {
    var q := v / base;
    assert base * q <= v;
    if q >= p {
      MulMono(base, p, q);
    }
  }

  /** A numeral of `n` digits is the fixed-width form of its value. */
  lemma {:induction false} FixedUnique(digits: seq<nat>, base: nat)
    requires base >= 1 && IsNumeral(digits, base)
    ensures FixedDigits(Eval(digits, base), base, |digits|) == digits
    decreases |digits|
  {
    if digits != [] {
      hide Eval;
      var n := |digits| - 1;
      assert digits == digits[..n] + [digits[n]];
      FixedUnique(digits[..n], base);
      EvalSnoc(digits[..n], digits[n], base);
      DivMod(Eval(digits, base), base, Eval(digits[..n], base), digits[n]);
    }
  }

  lemma {:induction false} FixedAppend(v: nat, a: nat, b: nat, base: nat, m: nat, k: nat)
    requires base >= 1 && b < Pow(base, k) && v == a * Pow(base, k) + b
    ensures FixedDigits(v, base, m + k) == FixedDigits(a, base, m) + FixedDigits(b, base, k)
    decreases k
  {
    if k == 0 {
      assert FixedDigits(b, base, 0) == [];
    } else {
      hide FixedDigits, Pow;
      DropLowDigit(v, a, b, base, k);
      FixedAppend(v / base, a, b / base, base, m, k - 1);
      FixedSnoc(v, base, m + k);
      FixedSnoc(b, base, k);
    }
  }

  lemma DropLowDigit(v: nat, a: nat, b: nat, base: nat, k: nat)
    requires base >= 1 && k > 0 && b < Pow(base, k) && v == a * Pow(base, k) + b
    ensures v / base == a * Pow(base, k - 1) + b / base && v % base == b % base
    ensures b / base < Pow(base, k - 1)
  {
    hide Pow;
    PowSucc(base, k - 1);
    QuotientBound(b, base, Pow(base, k - 1));
    DivModIdentity(b, base);
    QuotientOfSum(v, a, Pow(base, k - 1), b / base, b % base, base);
  }

  lemma QuotientOfSum(v: nat, a: nat, p: nat, q: nat, r: nat, base: nat)
    requires r < base && v == a * (base * p) + (q * base + r)
    ensures v / base == a * p + q && v % base == r
  {
    PushDigit(a, p, q, r, base);
    DivMod(v, base, a * p + q, r);
  }

  lemma PushDigit(a: int, p: int, q: int, r: int, base: int)
    ensures a * (base * p) + (q * base + r) == (a * p + q) * base + r
  {
    Distribute(a * p, q, base);
    MulAssoc(a, p, base);
  }

  lemma FixedSnoc(v: nat, base: nat, n: nat)
    requires base >= 1 && n > 0
    ensures FixedDigits(v, base, n) == FixedDigits(v / base, base, n - 1) + [v % base]
  {
  }

  // ---------------------------------------------------------------- the size estimate

  /** 256^8 <= 58^11, and the same ratio rounded up for fewer than eight bytes. */
  lemma SmallSizes()
    ensures Pow(256, 8) <= Pow(58, 11)
    ensures Pow(256, 0) <= Pow(58, 0) && Pow(256, 1) <= Pow(58, 2) && Pow(256, 2) <= Pow(58, 3)
    ensures Pow(256, 3) <= Pow(58, 5) && Pow(256, 4) <= Pow(58, 6) && Pow(256, 5) <= Pow(58, 7)
    ensures Pow(256, 6) <= Pow(58, 9) && Pow(256, 7) <= Pow(58, 10)
  {
    assert Pow(256, 2) == 65536 && Pow(256, 4) == 65536 * Pow(256, 2);
    assert Pow(256, 6) == 65536 * Pow(256, 4) && Pow(256, 8) == 65536 * Pow(256, 6);
    assert Pow(58, 2) == 3364 && Pow(58, 4) == 3364 * Pow(58, 2) && Pow(58, 6) == 3364 * Pow(58, 4);
    assert Pow(58, 8) == 3364 * Pow(58, 6) && Pow(58, 10) == 3364 * Pow(58, 8);
    assert Pow(58, 3) == 58 * 3364 && Pow(58, 5) == 58 * Pow(58, 4) && Pow(58, 7) == 58 * Pow(58, 6);
    assert Pow(58, 9) == 58 * Pow(58, 8) && Pow(58, 11) == 58 * Pow(58, 10);
    assert Pow(256, 3) == 256 * Pow(256, 2) && Pow(256, 5) == 256 * Pow(256, 4) && Pow(256, 7) == 256 * Pow(256, 6);
  }

  /** 11 Base58 digits for every 8 bytes, rounded up. */
  function ElevenEighths(n: nat): nat {
    (11 * n + 7) / 8
  }

  lemma {:induction false} ElevenEighthsSuffice(n: nat)
    ensures Pow(256, n) <= Pow(58, ElevenEighths(n))
    decreases n
  {
    SmallSizes();
    hide Pow;
    if n >= 8 {
      ElevenEighthsSuffice(n - 8);
      assert ElevenEighths(n) == 11 + ElevenEighths(n - 8);
      PowAdd(256, 8, n - 8);
      PowAdd(58, 11, ElevenEighths(n - 8));
      MulMono(Pow(256, 8), Pow(256, n - 8), Pow(58, ElevenEighths(n - 8)));
      MulMono(Pow(58, ElevenEighths(n - 8)), Pow(256, 8), Pow(58, 11));
    } else {
      assert n in [0, 1, 2, 3, 4, 5, 6, 7];
    }
  }

  /** The encoder's estimate: 138/100 digits per byte, plus one, hold every number of `n` bytes. */
  lemma EncoderBound(n: nat)
    ensures Pow(256, n) <= Pow(58, n * 138 / 100 + 1)
  {
    ElevenEighthsSuffice(n);
    PowMono(58, ElevenEighths(n), n * 138 / 100 + 1);
  }
}
