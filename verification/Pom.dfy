/** Proof of memory: a sorted table of hashes is searched for one whose first bits agree with a target.
    The table is ordered byte by byte, high values last, while agreement is counted from the lowest
    bit of each byte. */
module ProofOfMemory {
  import opened Bits
  import opened Blake3Spec
  import opened Blake3Wide
  import opened Blake3Hasher
  import opened Coin
  import opened Digest
  import opened ProofOfWork

  // ---------------------------------------------------------------- order

  /** `operator<` on byte arrays: lexicographic. */
  predicate Less(a: seq<Byte>, b: seq<Byte>) {
    if a == [] || b == [] then a == [] && b != []
    else a[0] < b[0] || (a[0] == b[0] && Less(a[1..], b[1..]))
  }

  predicate Sorted(hashes: seq<Hash32>) {
    forall i, j | 0 <= i < j < |hashes| :: !Less(hashes[j], hashes[i])
  }

  /** Hashes that differ in their first `w` bytes are ordered by those bytes alone. */
  lemma {:induction false} LessByPrefix(a: seq<Byte>, b: seq<Byte>, w: nat)
    requires w <= |a| == |b| && a[..w] != b[..w]
    ensures Less(a, b) <==> Less(a[..w], b[..w])
    decreases w
  {
    if w > 0 && a[0] == b[0] {
      assert a[..w] == [a[0]] + a[1..][..w - 1] && b[..w] == [b[0]] + b[1..][..w - 1];
      LessByPrefix(a[1..], b[1..], w - 1);
      assert a[..w][1..] == a[1..][..w - 1] && b[..w][1..] == b[1..][..w - 1];
    }
  }

  lemma {:induction false} LessTotal(a: seq<Byte>, b: seq<Byte>)
    requires |a| == |b|
    ensures a == b || Less(a, b) || Less(b, a)
    ensures !(Less(a, b) && Less(b, a))
  {
    if a != [] && a[0] == b[0] {
      LessTotal(a[1..], b[1..]);
      assert a == [a[0]] + a[1..] && b == [b[0]] + b[1..];
    }
  }

  lemma {:induction false} LessTransitive(a: seq<Byte>, b: seq<Byte>, c: seq<Byte>)
    requires |a| == |b| == |c| && !Less(b, a) && !Less(c, b)
    ensures !Less(c, a)
  {
    if a != [] && a[0] == b[0] == c[0] {
      LessTransitive(a[1..], b[1..], c[1..]);
    }
  }

  // ---------------------------------------------------------------- the search

  ghost predicate Matches(h: Hash32, target: Hash32, d: nat)
    requires d <= 256
  {
    AgreeBits(h, target, d)
  }

  /** prefix_binary_search on the range `l` to `r`, both ends included. */
  ghost function Search(hashes: seq<Hash32>, target: Hash32, d: nat, l: int, r: int): int
    requires d <= 256 && 0 <= l && r < |hashes|
    decreases r - l
  {
    if l > r then -1
    else
      var m := l + (r - l) / 2;
      if Matches(hashes[m], target, d) then m
      else if Less(hashes[m], target) then Search(hashes, target, d, m + 1, r)
      else Search(hashes, target, d, l, m - 1)
  }

  ghost function SearchAll(hashes: seq<Hash32>, target: Hash32, d: nat): int
    requires d <= 256
  {
    Search(hashes, target, d, 0, |hashes| - 1)
  }

  /** prefix_binary_search; the check inside throws for a difficulty above 256, if there is anything to
      check. */
  method PrefixBinarySearch(hashes: seq<Hash32>, target: Hash32, difficulty: nat) returns (bad: bool, index: int)
    ensures bad <==> difficulty > 256 && hashes != []
    ensures !bad && difficulty <= 256 ==> index == SearchAll(hashes, target, difficulty)
    ensures !bad && difficulty > 256 ==> index == -1
  {
    hide AgreeBits, Less;
    bad := false;
    var l, r := 0, |hashes| - 1;
    while l <= r
      invariant 0 <= l && r < |hashes|
      invariant difficulty <= 256 ==> Search(hashes, target, difficulty, l, r) == SearchAll(hashes, target, difficulty)
      invariant difficulty > 256 ==> l == 0 && r == |hashes| - 1
      decreases r - l
    {
      var m := l + (r - l) / 2;
      var c := CheckPrefix(hashes[m], target, difficulty);
      if c.BadDifficulty? {
        return true, -1;
      }
      if c.ok {
        return false, m;
      }
      if Less(hashes[m], target) {
        l := m + 1;
      } else {
        r := m - 1;
      }
    }
    return false, -1;
  }

  /** Any index returned is a match. */
  lemma {:induction false} SearchSound(hashes: seq<Hash32>, target: Hash32, d: nat, l: int, r: int)
    requires d <= 256 && 0 <= l && r < |hashes|
    ensures var i := Search(hashes, target, d, l, r);
            i == -1 || (l <= i <= r && Matches(hashes[i], target, d))
    decreases r - l
  {
    hide Matches, Less;
    if l <= r {
      var m := l + (r - l) / 2;
      SearchSound(hashes, target, d, m + 1, r);
      SearchSound(hashes, target, d, l, m - 1);
    }
  }

  /** How many whole bytes hold `d` bits. */
  function WholeBytes(d: nat): nat {
    (d + 7) / 8
  }

  lemma SharedBytesMatch(h: Hash32, target: Hash32, d: nat)
    requires d <= 256 && h[..WholeBytes(d)] == target[..WholeBytes(d)]
    ensures Matches(h, target, d)
  {
    hide AgreeBits;
    AgreeWholeBytes(h, target, WholeBytes(d));
    AgreeFewer(h, target, 8 * WholeBytes(d), d);
  }

  /** A hash that is no match lies on the side of the target on which the search drops it, as seen from
      any hash that shares the target's first whole bytes. */
  lemma MissIsOutside(hashes: seq<Hash32>, target: Hash32, d: nat, m: nat, p: nat)
    requires d <= 256 && Sorted(hashes) && m < |hashes| && p < |hashes|
    requires hashes[p][..WholeBytes(d)] == target[..WholeBytes(d)] && !Matches(hashes[m], target, d)
    ensures if Less(hashes[m], target) then m < p else p < m
  {
    hide Less, AgreeBits;
    var w := WholeBytes(d);
    var hm, hp := hashes[m], hashes[p];
    if hm[..w] == target[..w] {
      SharedBytesMatch(hm, target, d);
    } else {
      LessByPrefix(hm, target, w);
      LessByPrefix(hm, hp, w);
      LessTotal(hm, hp);
    }
  }

  /** A stored hash that shares the target's first whole bytes is never missed. */
  lemma {:induction false} SearchFinds(hashes: seq<Hash32>, target: Hash32, d: nat, l: int, r: int, p: int)
    requires d <= 256 && Sorted(hashes) && 0 <= l <= p <= r < |hashes|
    requires hashes[p][..WholeBytes(d)] == target[..WholeBytes(d)]
    ensures Search(hashes, target, d, l, r) != -1
    decreases r - l
  {
    hide Matches, Less, Sorted;
    var m := l + (r - l) / 2;
    if !Matches(hashes[m], target, d) {
      MissIsOutside(hashes, target, d, m, p);
      if Less(hashes[m], target) {
        SearchFinds(hashes, target, d, m + 1, r, p);
      } else {
        SearchFinds(hashes, target, d, l, m - 1, p);
      }
    }
  }

  /** A table with an entry that shares the target's first whole bytes. */
  ghost predicate HasShared(hashes: seq<Hash32>, target: Hash32, d: nat)
    requires d <= 256
  {
    exists p :: 0 <= p < |hashes| && hashes[p][..WholeBytes(d)] == target[..WholeBytes(d)]
  }

  /** At every difficulty, whole bytes or not: the search finds something whenever there is such an entry. */
  lemma SharedIsFound(hashes: seq<Hash32>, target: Hash32, d: nat)
    requires d <= 256
    ensures Sorted(hashes) && HasShared(hashes, target, d) ==> SearchAll(hashes, target, d) != -1
  {
    hide Sorted, Search;
    if Sorted(hashes) && HasShared(hashes, target, d) {
      var p :| 0 <= p < |hashes| && hashes[p][..WholeBytes(d)] == target[..WholeBytes(d)];
      SearchFinds(hashes, target, d, 0, |hashes| - 1, p);
    }
  }

  /** A table with a match of `d` bits. */
  ghost predicate HasMatch(hashes: seq<Hash32>, target: Hash32, d: nat)
    requires d <= 256
  {
    exists i :: 0 <= i < |hashes| && Matches(hashes[i], target, d)
  }

  /** The search finds a match in every sorted table that has one. */
  ghost predicate AlwaysFinds(d: nat)
    requires d <= 256
  {
    forall hashes: seq<Hash32>, target: Hash32 ::
      Sorted(hashes) && HasMatch(hashes, target, d) ==> SearchAll(hashes, target, d) != -1
  }

  /** The bytes of a hash that is zero but for byte `k`. */
  function OneByteHash(k: nat, v: Byte): (h: Hash32)
    requires k < 32
    ensures h[k] == v && forall i | 0 <= i < 32 && i != k :: h[i] == 0
  {
    seq<Byte>(32, i => if i == k then v else 0)
  }

  /** Two hashes and a target for which the search fails: the first one differs from the zero target in
      the lowest bit of byte `k` but is ordered after it, so the match behind it is dropped. */
  lemma SearchMisses(k: nat, e: nat)
    requires k < 32 && 0 < e < 8
    ensures var hashes, target := [OneByteHash(k, 1), OneByteHash(k, Power(e))], OneByteHash(k, 0);
            && Sorted(hashes) && HasMatch(hashes, target, 8 * k + e) && SearchAll(hashes, target, 8 * k + e) == -1
  {
    hide BitOf, Less;
    var a, b, target := OneByteHash(k, 1), OneByteHash(k, Power(e)), OneByteHash(k, 0);
    var hashes := [a, b];
    var d := 8 * k + e;
    OneByteLess(k, Power(e), 1);
    OneByteLess(k, 1, 0);
    assert Sorted(hashes);
    forall i: nat | i < d
      ensures BitAt(b, i) == BitAt(target, i)
    {
      if i / 8 == k {
        PowerBits(e, i % 8);
        ZeroBit(i % 8);
      }
    }
    assert Matches(hashes[1], target, d);
    assert BitAt(a, 8 * k) != BitAt(target, 8 * k) by {
      assert (8 * k) / 8 == k && (8 * k) % 8 == 0;
      LowestBits();
    }
    assert !Matches(hashes[0], target, d);
    assert Search(hashes, target, d, 0, -1) == -1;
    assert 0 + (1 - 0) / 2 == 0;
  }

  function Power(e: nat): (p: Byte)
    requires e < 8
    ensures e > 0 ==> p > 1
  {
    [1, 2, 4, 8, 16, 32, 64, 128][e]
  }

  lemma LowestBits()
    ensures BitOf(1, 0) == 1 && BitOf(0, 0) == 0
  {
    ZeroBit(0);
    BitAndOne(ShiftRight(1, 0));
  }

  /** The lowest `e` bits of `2^e` are zero. */
  lemma PowerBits(e: nat, j: nat)
    requires j < e < 8
    ensures BitOf(Power(e), j) == 0
  {
    BitAndOne(ShiftRight(Power(e), j));
    PowerIsPow2(e);
    PowerShift(e, j);
  }

  lemma {:induction false} PowerShift(e: nat, j: nat)
    requires j < e
    ensures ShiftRight(Pow2(e), j) % 2 == 0
    decreases e
  {
    if j > 0 {
      PowerShift(e - 1, j - 1);
    }
  }

  lemma PowerIsPow2(e: nat)
    requires e < 8
    ensures Power(e) == Pow2(e)
  {
    assert Pow2(3) == 8 && Pow2(2) == 4;
    assert Pow2(5) == 4 * Pow2(3) && Pow2(4) == 2 * Pow2(3);
    assert Pow2(7) == 4 * Pow2(5) && Pow2(6) == 2 * Pow2(5);
  }

  lemma OneByteLess(k: nat, x: Byte, y: Byte)
    requires k < 32 && y < x
    ensures !Less(OneByteHash(k, x), OneByteHash(k, y))
  {
    ZeroTailLess(OneByteHash(k, x), OneByteHash(k, y), k);
  }

  lemma {:induction false} ZeroTailLess(a: seq<Byte>, b: seq<Byte>, k: nat)
    requires k < |a| == |b| && a[..k] == b[..k] && b[k] < a[k]
    ensures !Less(a, b)
  {
    if k > 0 {
      assert a[0] == a[..k][0] && b[0] == b[..k][0];
      assert a[1..][..k - 1] == a[..k][1..] && b[1..][..k - 1] == b[..k][1..];
      ZeroTailLess(a[1..], b[1..], k - 1);
    }
  }

  /** The search finds a match whenever there is one exactly at the difficulties that are a whole
      number of bytes. */
  lemma SearchCompleteForWholeBytes(d: nat)
    requires d <= 256
    ensures AlwaysFinds(d) <==> d % 8 == 0
  {
    if d % 8 == 0 {
      forall hashes: seq<Hash32>, target: Hash32 | Sorted(hashes) && HasMatch(hashes, target, d)
        ensures SearchAll(hashes, target, d) != -1
      {
        var i :| 0 <= i < |hashes| && Matches(hashes[i], target, d);
        AgreeWholeBytes(hashes[i], target, d / 8);
        assert WholeBytes(d) == d / 8 && 8 * (d / 8) == d;
        SearchFinds(hashes, target, d, 0, |hashes| - 1, i);
      }
    } else {
      var k, e := d / 8, d % 8;
      SearchMisses(k, e);
      assert 8 * k + e == d;
    }
  }

  // ---------------------------------------------------------------- the table

  /** The 56 bytes of a hash input in memory. */
  function InputBytes(fingerprint: Uuid, publicKey: Key, nonce: nat): (b: seq<Byte>)
    ensures |b| == 56
  {
    fingerprint + publicKey + NonceBytes(nonce)
  }

  /** Another participant, another machine or another nonce gives another input to hash. */
  lemma InputBytesTell(f: Uuid, key: Key, nonce: nat, f': Uuid, key': Key, nonce': nat)
    requires nonce < TWO_TO_64 && nonce' < TWO_TO_64
    ensures InputBytes(f, key, nonce) == InputBytes(f', key', nonce') <==> f == f' && key == key' && nonce == nonce'
  {
    hide NonceByte;
    var b, b' := InputBytes(f, key, nonce), InputBytes(f', key', nonce');
    assert b[..16] == f && b'[..16] == f';
    assert b[16..48] == key && b'[16..48] == key';
    assert b[48..] == NonceBytes(nonce) && b'[48..] == NonceBytes(nonce');
    if b == b' {
      NonceInMemory(nonce);
      NonceInMemory(nonce');
    }
  }

  function TableEntry(kernel: Kernel, fingerprint: Uuid, publicKey: Key, i: nat): Hash32 {
    HashOf(kernel, InputBytes(fingerprint, publicKey, i))
  }

  /** The entries in the order in which they are computed. */
  function Entries(kernel: Kernel, fingerprint: Uuid, publicKey: Key, n: nat): (hashes: seq<Hash32>)
    ensures |hashes| == n
  {
    if n == 0 then []
    else Entries(kernel, fingerprint, publicKey, n - 1) + [TableEntry(kernel, fingerprint, publicKey, n - 1)]
  }

  lemma {:induction false} EntriesAt(kernel: Kernel, fingerprint: Uuid, publicKey: Key, n: nat, i: nat)
    requires i < n
    ensures Entries(kernel, fingerprint, publicKey, n)[i] == HashOf(kernel, InputBytes(fingerprint, publicKey, i))
  {
    hide InputBytes, HashOf;
    if i < n - 1 {
      EntriesAt(kernel, fingerprint, publicKey, n - 1, i);
    }
  }

  class Prover {
    const kernel: Kernel
    const platform: Platform
    const fingerprint: Uuid
    const publicKey: Key
    var hashes: seq<Hash32>

    constructor (kernel: Kernel, platform: Platform, publicKey: Key, fingerprint: Uuid)
      ensures this.kernel == kernel && this.platform == platform
      ensures this.publicKey == publicKey && this.fingerprint == fingerprint && hashes == []
    {
      this.kernel, this.platform := kernel, platform;
      this.publicKey, this.fingerprint := publicKey, fingerprint;
      hashes := [];
    }

    /** gen_hashes: one entry for every 32 bytes of memory, then sorted. Sorting is by insertion; what
        matters is that it gives a sorted rearrangement. */
    method GenHashes(memory: nat)
      requires platform.Valid()
      modifies this
      ensures Sorted(hashes)
      ensures multiset(hashes) == multiset(Entries(kernel, fingerprint, publicKey, memory / 32))
    {
      hide Hash, InputBytes, Less;
      var numHashes := memory / 32;
      hashes := [];
      var i := 0;
      while i < numHashes
        invariant 0 <= i <= numHashes && hashes == Entries(kernel, fingerprint, publicKey, i)
      {
        var result := HashMessage(InputBytes(fingerprint, publicKey, i));
        hashes := hashes + [result];
        i := i + 1;
      }
      hashes := Sort(hashes);
    }

    method HashMessage(message: seq<Byte>) returns (result: Hash32)
      requires platform.Valid() && |message| < TWO_TO_64
      ensures result == HashOf(kernel, message)
    {
      hide Hash;
      var hasher := new Hasher.Init(kernel, platform, IV, 0);
      hasher.Update(message);
      assert hasher.message == message;
      var buffer := new Byte[32];
      ghost var calls := hasher.FinalizeSeek(0, buffer);
      result := buffer[..];
    }

    /** solve_hash, up to the nonce it reports: an entry that agrees with the hash of the previous
        block's hash, or nothing. */
    method SolveHash(prevHash: Hash32, difficulty: nat) returns (bad: bool, o: Outcome)
      requires platform.Valid()
      ensures bad <==> difficulty > 256 && hashes != []
      ensures !bad && o.Found? ==>
                difficulty <= 256 && o.solution in hashes && Matches(o.solution, HashOf(kernel, prevHash), difficulty)
      ensures !bad && difficulty <= 256 ==>
                var index := SearchAll(hashes, HashOf(kernel, prevHash), difficulty);
                o == if -1 < index < |hashes| then Found(hashes[index]) else NotFound
      ensures !bad && Sorted(hashes) && difficulty <= 256 ==>
                HasShared(hashes, HashOf(kernel, prevHash), difficulty) ==> o.Found?
      ensures !bad && Sorted(hashes) && difficulty <= 256 && difficulty % 8 == 0 ==>
                (o.Found? <==> HasMatch(hashes, HashOf(kernel, prevHash), difficulty))
    {
      hide Hash, Less, Matches, Sorted, HasShared;
      var target := HashMessage(prevHash);
      var index;
      bad, index := PrefixBinarySearch(hashes, target, difficulty);
      o := NotFound;
      if bad || difficulty > 256 {
        return;
      }
      SearchSound(hashes, target, difficulty, 0, |hashes| - 1);
      SearchCompleteForWholeBytes(difficulty);
      SharedIsFound(hashes, target, difficulty);
      if index != -1 {
        o := Found(hashes[index]);
      }
    }
  }

  // ---------------------------------------------------------------- sorting

  method Sort(s: seq<Hash32>) returns (r: seq<Hash32>)
    ensures Sorted(r) && multiset(r) == multiset(s)
  {
    r := [];
    var i := 0;
    while i < |s|
      invariant 0 <= i <= |s| && Sorted(r) && multiset(r) == multiset(s[..i])
    {
      r := Insert(r, s[i]);
      assert s[..i + 1] == s[..i] + [s[i]];
      i := i + 1;
    }
    assert s[..i] == s;
  }

  method Insert(s: seq<Hash32>, h: Hash32) returns (r: seq<Hash32>)
    requires Sorted(s)
    ensures Sorted(r) && multiset(r) == multiset(s + [h])
  {
    hide Less, Sorted;
    var i := |s|;
    while i > 0 && Less(h, s[i - 1])
      invariant 0 <= i <= |s|
      invariant i < |s| ==> Less(h, s[i])
    {
      i := i - 1;
    }
    r := s[..i] + [h] + s[i..];
    InsertSorted(s, h, i);
    InsertKeepsBag(s, h, i);
  }

  lemma InsertKeepsBag(s: seq<Hash32>, h: Hash32, i: nat)
    requires i <= |s|
    ensures multiset(s[..i] + [h] + s[i..]) == multiset(s + [h])
  {
    assert s == s[..i] + s[i..];
  }

  lemma InsertSorted(s: seq<Hash32>, h: Hash32, i: nat)
    requires Sorted(s) && i <= |s|
    requires (i > 0 ==> !Less(h, s[i - 1])) && (i < |s| ==> Less(h, s[i]))
    ensures Sorted(s[..i] + [h] + s[i..])
  {
    hide Less;
    var r := s[..i] + [h] + s[i..];
    forall a, b | 0 <= a < b < |r|
      ensures !Less(r[b], r[a])
    {
      if b == i {
        LessSelf(s, a, i - 1);
        LessTransitive(r[a], s[i - 1], h);
      } else if a == i {
        LessTotal(h, s[i]);
        LessSelf(s, i, b - 1);
        LessTransitive(h, s[i], r[b]);
      } else {
        assert r[a] == (if a < i then s[a] else s[a - 1]) && r[b] == (if b < i then s[b] else s[b - 1]);
      }
    }
  }

  /** In a sorted table, no later entry is less, nor is the same one. */
  lemma LessSelf(s: seq<Hash32>, a: nat, b: nat)
    requires Sorted(s) && a <= b < |s|
    ensures !Less(s[b], s[a])
  {
    if a == b {
      LessTotal(s[a], s[a]);
    }
  }
}
