/** The shape of the chaining-value stack. The entries of the stack cover adjacent ranges of
    chunks; the boundaries between them are a sequence that starts at 0 and ends at the number
    of chunks so far. */
module Blake3Stack {
  import opened Bits

  /** The boundaries of a fully merged stack: one entry for each set bit of `t`, larger ones first. */
  function Canon(t: nat): (bounds: seq<nat>)
    ensures |bounds| > 0 && bounds[0] == 0 && bounds[|bounds| - 1] == t
    ensures |bounds| == 1 <==> t == 0
  {
    if t == 0 then [0] else Canon(t - LowBit(t)) + [t]
  }

  /** The boundaries of a stack whose last entry, `p` chunks long, has not been merged yet. */
  ghost predicate Lazy(bounds: seq<nat>, t: nat, p: nat) {
    bounds == Canon(t) + [t + p] && IsPow2(p) && Aligned(t, p)
  }

  lemma {:induction false} CanonDouble(n: nat)
    ensures |Canon(2 * n)| == |Canon(n)|
    ensures forall i | 0 <= i < |Canon(n)| :: Canon(2 * n)[i] == 2 * Canon(n)[i]
  {
    if n > 0 {
      assert (2 * n) / 2 == n;
      CanonDouble(n - LowBit(n));
      assert 2 * n - LowBit(2 * n) == 2 * (n - LowBit(n));
    }
  }

  /** A merged stack has one entry per set bit of the chunk count. */
  lemma {:induction false} CanonLength(t: nat)
    ensures |Canon(t)| == Popcount(t) + 1
  {
    if t > 0 {
      CanonLength(t / 2);
      CanonDouble(t / 2);
    }
  }

  /** One more subtree of `p` chunks: either it does not complete anything and the stack with it on
      top is merged already, or the entry below it covers exactly `p` chunks as well. Comparing
      the length with the population count tells the two apart. */
  lemma LazyStep(t: nat, p: nat)
    requires IsPow2(p) && Aligned(t, p)
    ensures Popcount(t + p) > Popcount(t) ==>
              Popcount(t + p) == Popcount(t) + 1 && Canon(t + p) == Canon(t) + [t + p]
    ensures Popcount(t + p) <= Popcount(t) ==>
              t >= p && LowBit(t) == p && Aligned(t - p, 2 * p)
  {
    Carry(t, p);
    CanonUnfold(t + p);
  }

  /** Adding `p` to a multiple of `p`: a carry happens exactly when `p` is the lowest bit already. */
  lemma {:induction false} Carry(t: nat, p: nat)
    requires IsPow2(p) && Aligned(t, p)
    ensures Popcount(t + p) > Popcount(t) ==> Popcount(t + p) == Popcount(t) + 1 && LowBit(t + p) == p
    ensures Popcount(t + p) <= Popcount(t) ==> t >= p && LowBit(t) == p && Aligned(t - p, 2 * p)
  {
    if p == 1 {
      CarryOne(t);
    } else {
      hide Popcount, LowBit;
      var u, q := t / 2, p / 2;
      Carry(u, q);
      assert t == 2 * u && p == 2 * q;
      HalveCounts(u + q);
      HalveCounts(u);
      if t >= p {
        assert (t - p) / 2 == u - q;
        assert Aligned(t - p, 2 * p) == Aligned(u - q, p);
      }
    }
  }

  lemma CarryOne(t: nat)
    ensures Popcount(t + 1) > Popcount(t) ==> Popcount(t + 1) == Popcount(t) + 1 && LowBit(t + 1) == 1
    ensures Popcount(t + 1) <= Popcount(t) ==> t >= 1 && LowBit(t) == 1 && Aligned(t - 1, 2)
  {
    if t % 2 == 1 {
      PopcountSucc(t / 2);
      assert (t + 1) / 2 == t / 2 + 1;
    } else {
      assert (t + 1) / 2 == t / 2;
    }
  }

  lemma HalveCounts(n: nat)
    ensures Popcount(2 * n) == Popcount(n)
    ensures n > 0 ==> LowBit(2 * n) == 2 * LowBit(n)
  {
    assert (2 * n) / 2 == n;
  }

  lemma CanonUnfold(t: nat)
    requires t > 0
    ensures Canon(t) == Canon(t - LowBit(t)) + [t]
  {
  }

  /** A push of half a subtree leaves an even shape: nothing is merged when the second half follows. */
  lemma {:induction false} PairPush(t: nat, p: nat)
    requires IsPow2(p) && Aligned(t, 2 * p)
    ensures Popcount(t + p) == Popcount(t) + 1
    ensures Canon(t + p) == Canon(t) + [t + p] && Aligned(t + p, p)
  {
    PairPopcount(t, p);
    AlignedSmaller(t, 2 * p, p);
    LazyStep(t, p);
    AlignedSum(t, p);
  }

  lemma {:induction false} PairPopcount(t: nat, p: nat)
    requires IsPow2(p) && Aligned(t, 2 * p)
    ensures Popcount(t + p) == Popcount(t) + 1
  {
    if p == 1 {
      assert (t + 1) / 2 == t / 2;
    } else {
      PairPopcount(t / 2, p / 2);
      assert (t + p) / 2 == t / 2 + p / 2;
    }
  }

  lemma {:induction false} AlignedSum(t: nat, p: nat)
    requires IsPow2(p) && Aligned(t, p)
    ensures Aligned(t + p, p)
  {
    if p > 1 {
      AlignedSum(t / 2, p / 2);
      assert (t + p) / 2 == t / 2 + p / 2;
    }
  }

  /** Each entry is a power of two long and longer than everything to its right, even with a
      further aligned subtree of `p` chunks less one. */
  lemma {:induction false} SpineGaps(t: nat, p: nat, i: nat)
    requires IsPow2(p) && Aligned(t, p) && i + 1 < |Canon(t)|
    ensures var b := Canon(t);
            b[i] < b[i + 1] <= t && IsPow2(b[i + 1] - b[i]) && t + p - 1 - b[i] < 2 * (b[i + 1] - b[i])
    decreases t, p
  {
    var b := Canon(t);
    if t % 2 == 0 {
      var u := t / 2;
      CanonDouble(u);
      assert t == 2 * u;
      SpineGaps(u, if p == 1 then 1 else p / 2, i);
      hide Canon;
      assert (b[i + 1] - b[i]) / 2 == Canon(u)[i + 1] - Canon(u)[i];
    } else {
      assert b == Canon(t - 1) + [t];
      if i + 2 < |b| {
        SpineGaps(t - 1, 2, i);
      }
    }
  }
}
