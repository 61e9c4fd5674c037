/** The two digit tables of the Base58 codec, written run by run: the digits and the letters without
    0, I, O and l. */
module Base58Tables {

  function Invalid(n: nat): (s: seq<int>)
    ensures |s| == n && forall i | 0 <= i < n :: s[i] == -1
  {
    seq(n, _ => -1)
  }

  function Run(from: nat, to: nat): (s: seq<int>)
    requires from <= to
    ensures |s| == to - from && forall i | 0 <= i < to - from :: s[i] == from + i
  {
    seq(to - from, i => from + i)
  }

  /** b58digits_map: one entry for each of the 128 ASCII characters. */
  const DIGITS_MAP: seq<int> :=
    Invalid(49) + Run(0, 9) + Invalid(7) + Run(9, 17) + Invalid(1) + Run(17, 22) + Invalid(1) +
    Run(22, 33) + Invalid(6) + Run(33, 44) + Invalid(1) + Run(44, 58) + Invalid(5)

  /** b58digits_ordered */
  const DIGITS_ORDERED: string := FIRST_DIGITS + LAST_DIGITS

  const FIRST_DIGITS: string := "123456789" + "ABCDEFGH" + "JKLMN"

  const LAST_DIGITS: string := "PQRSTUVWXYZ" + "abcdefghijk" + "mnopqrstuvwxyz"

  function CharOf(d: nat): char
    requires d < 58
  {
    DIGITS_ORDERED[d]
  }

  /** -1 for a character that is not a digit, and for one with the high bit set. */
  function DigitOf(c: char): int {
    if c as int >= 128 then -1 else DIGITS_MAP[c as int]
  }

  lemma DigitOfRange(c: char)
    ensures -1 <= DigitOf(c) < 58
  {
  }

  /** The character codes of the digits, run by run. */
  function Code(d: nat): nat {
    if d < 9 then 49 + d else if d < 17 then 56 + d else if d < 22 then 57 + d
    else if d < 33 then 58 + d else if d < 44 then 64 + d else 65 + d
  }

  lemma CharOfCode(d: nat)
    requires d < 58
    ensures CharOf(d) as int == Code(d)
  {
    hide FIRST_DIGITS, LAST_DIGITS;
    FirstCodes();
    LastCodes();
  }

  lemma FirstCodes()
    ensures |FIRST_DIGITS| == 22
    ensures forall i | 0 <= i < 22 :: FIRST_DIGITS[i] as int == Code(i)
  {
    var a, b, c := "123456789", "ABCDEFGH", "JKLMN";
    forall i | 0 <= i < 22
      ensures FIRST_DIGITS[i] as int == Code(i)
    {
      assert FIRST_DIGITS[i] == if i < 9 then a[i] else if i < 17 then b[i - 9] else c[i - 17];
    }
  }

  lemma LastCodes()
    ensures |LAST_DIGITS| == 36
    ensures forall i | 0 <= i < 36 :: LAST_DIGITS[i] as int == Code(22 + i)
  {
    var a, b, c := "PQRSTUVWXYZ", "abcdefghijk", "mnopqrstuvwxyz";
    forall i | 0 <= i < 36
      ensures LAST_DIGITS[i] as int == Code(22 + i)
    {
      assert LAST_DIGITS[i] == if i < 11 then a[i] else if i < 22 then b[i - 11] else c[i - 22];
    }
  }

  lemma DigitOfCode(c: char)
    ensures DigitOf(c) >= 0 ==> DigitOf(c) < 58 && Code(DigitOf(c)) == c as int
    ensures forall d: nat | d < 58 && Code(d) == c as int :: DigitOf(c) == d
  {
  }

  predicate IsAlphanumeric(c: char) {
    '0' <= c <= '9' || 'A' <= c <= 'Z' || 'a' <= c <= 'z'
  }

  /** The digits are exactly the letters and figures without the four that are easily confused, and they
      rise with their character codes. */
  lemma Alphabet(c: char)
    ensures DigitOf(c) >= 0 <==> IsAlphanumeric(c) && c != '0' && c != 'O' && c != 'I' && c != 'l'
    ensures forall d: char | c < d && DigitOf(c) >= 0 && DigitOf(d) >= 0 :: DigitOf(c) < DigitOf(d)
  {
    hide DigitOf, CharOf;
    DigitOfCode(c);
    if IsAlphanumeric(c) && c != '0' && c != 'O' && c != 'I' && c != 'l' {
      HasCode(c);
    }
    forall d: char | c < d && DigitOf(c) >= 0 && DigitOf(d) >= 0
      ensures DigitOf(c) < DigitOf(d)
    {
      DigitOfCode(d);
    }
  }

  lemma HasCode(c: char)
    requires IsAlphanumeric(c) && c != '0' && c != 'O' && c != 'I' && c != 'l'
    ensures exists d: nat :: d < 58 && Code(d) == c as int
  {
    var n := c as int;
    var d := if n <= 57 then n - 49 else if n <= 72 then n - 56 else if n <= 78 then n - 57
             else if n <= 90 then n - 58 else if n <= 107 then n - 64 else n - 65;
    assert Code(d) == n;
  }

  /** The tables are inverse to each other. */
  lemma DigitOfCharOf(d: nat)
    requires d < 58
    ensures DigitOf(CharOf(d)) == d
  {
    hide CharOf, DigitOf;
    CharOfCode(d);
    DigitOfCode(CharOf(d));
  }

  /** Every character is -1 and none of the digits' characters, or the character of its digit. */
  lemma CharOfDigitOf(c: char)
    ensures if DigitOf(c) == -1 then forall d: nat | d < 58 :: CharOf(d) != c
            else 0 <= DigitOf(c) < 58 && CharOf(DigitOf(c)) == c
  {
    hide CharOf, DigitOf;
    DigitOfRange(c);
    DigitOfCode(c);
    if DigitOf(c) >= 0 {
      CharOfCode(DigitOf(c));
    }
    forall d: nat | d < 58 && CharOf(d) == c
      ensures DigitOf(c) == d
    {
      DigitOfCharOf(d);
    }
  }
}
