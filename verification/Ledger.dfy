/** Account balances: what applying transactions does to the ledger, and what all of them together
    do, in arithmetic modulo 2^32. */
module Ledger {
  import opened Bits
  import opened Base58
  import opened Coin

  type Balances = map<Key, Word>

  /** The program's test for a mint: the source, written in Base58, is thirty-two ones. */
  predicate IsMint(src: Key) {
    Encode(src) == Ones(KEY_LEN)
  }

  /** The test holds for the zero key alone. */
  lemma MintIsZeroKey(src: Key)
    ensures IsMint(src) <==> src == ZERO_KEY
  {
    MintTest(src);
  }

  function Wrap(x: int): Word {
    x % TWO_TO_32
  }

  /** One transaction: credit the destination, then debit the source unless it is the mint. The source
      counts as present only if it was in the ledger before the credit; an absent one is added, which
      does nothing when the credit has just added the same account. */
  function Apply(l: Balances, t: Transaction): Balances {
    var credited := l[t.dest := if t.dest in l then Wrap(l[t.dest] + t.amount) else t.amount];
    if IsMint(t.src) then credited
    else if t.src in l then credited[t.src := Wrap(credited[t.src] - t.amount)]
    else if t.src in credited then credited
    else credited[t.src := Wrap(0 - t.amount)]
  }

  function ApplyAll(l: Balances, txs: seq<Transaction>): Balances {
    if txs == [] then l else Apply(ApplyAll(l, txs[..|txs| - 1]), txs[|txs| - 1])
  }

  /** A transaction from an account that is not in the ledger to itself. */
  predicate SelfMint(l: Balances, t: Transaction) {
    t.src != ZERO_KEY && t.src == t.dest && t.src !in l
  }

  function Balance(l: Balances, a: Key): Word {
    if a in l then l[a] else 0
  }

  // ---------------------------------------------------------------- one account

  /** What a transaction should change in account `a`. */
  function Effect(t: Transaction, a: Key): int {
    (if t.dest == a then t.amount else 0) - (if t.src == a && t.src != ZERO_KEY then t.amount else 0)
  }

  function TotalEffect(txs: seq<Transaction>, a: Key): int {
    if txs == [] then 0 else TotalEffect(txs[..|txs| - 1], a) + Effect(txs[|txs| - 1], a)
  }

  /** What it creates out of nothing in account `a` when the account is absent and pays itself. */
  function Created(l: Balances, t: Transaction, a: Key): nat {
    if SelfMint(l, t) && t.src == a then t.amount else 0
  }

  function TotalCreated(l: Balances, txs: seq<Transaction>, a: Key): nat {
    if txs == [] then 0
    else
      var n := |txs| - 1;
      TotalCreated(l, txs[..n], a) + Created(ApplyAll(l, txs[..n]), txs[n], a)
  }

  lemma WrapSum(x: int, y: int)
    ensures Wrap(Wrap(x) + y) == Wrap(x + y)
  {
    WrapShift(Wrap(x) + y, x / TWO_TO_32);
    assert Wrap(x) + y + TWO_TO_32 * (x / TWO_TO_32) == x + y;
  }

  lemma WrapWord(w: Word)
    ensures Wrap(w) == w
  {
  }

  lemma WrapShift(x: int, k: int)
    ensures Wrap(x + TWO_TO_32 * k) == Wrap(x)
  {
    var q := x / TWO_TO_32;
    DivModUnique(x + TWO_TO_32 * k, TWO_TO_32, q + k, x % TWO_TO_32);
  }

  lemma ApplyBalance(l: Balances, t: Transaction, a: Key)
    ensures Balance(Apply(l, t), a) == Wrap(Balance(l, a) + Effect(t, a) + Created(l, t, a))
  {
    hide IsMint;
    MintIsZeroKey(t.src);
    if t.dest == a && t.src == a {
      WrapSum(Balance(l, a) + t.amount, 0 - t.amount);
    }
  }

  /** Each balance is what it was, plus what came in, minus what went out, plus what a self-transfer
      by an absent account created; the mint is never debited. */
  lemma {:induction false} BalanceOf(l: Balances, txs: seq<Transaction>, a: Key)
    ensures Balance(ApplyAll(l, txs), a) == Wrap(Balance(l, a) + TotalEffect(txs, a) + TotalCreated(l, txs, a))
  {
    hide Apply, Created;
    if txs != [] {
      var n := |txs| - 1;
      var m := ApplyAll(l, txs[..n]);
      BalanceOf(l, txs[..n], a);
      ApplyBalance(m, txs[n], a);
      WrapSum(Balance(l, a) + TotalEffect(txs[..n], a) + TotalCreated(l, txs[..n], a),
              Effect(txs[n], a) + Created(m, txs[n], a));
    }
  }

  // ---------------------------------------------------------------- all accounts

  /** The sum of all balances. */
  ghost function Sum(l: Balances): nat
    decreases |l|
  {
    if l == map[] then 0
    else
      var a :| a in l;
      l[a] + Sum(l - {a})
  }

  /** The sum can be taken in any order. */
  lemma {:induction false} SumAny(l: Balances, a: Key)
    requires a in l
    ensures Sum(l) == l[a] + Sum(l - {a})
    decreases |l|
  {
    var b :| b in l && Sum(l) == l[b] + Sum(l - {b});
    if a != b {
      SumAny(l - {b}, a);
      SumAny(l - {a}, b);
      assert l - {a} - {b} == l - {b} - {a};
    }
  }

  lemma SumSet(l: Balances, a: Key, v: Word)
    ensures Sum(l[a := v]) == Sum(l) - Balance(l, a) + v
  {
    SumAny(l[a := v], a);
    assert l[a := v] - {a} == l - {a};
    if a in l {
      SumAny(l, a);
    } else {
      assert l - {a} == l;
    }
  }

  /** What one transaction adds to the total: a mint's amount, or what a self-transfer created. */
  function Issue(l: Balances, t: Transaction): nat {
    if t.src == ZERO_KEY || SelfMint(l, t) then t.amount else 0
  }

  function Issued(l: Balances, txs: seq<Transaction>): nat {
    if txs == [] then 0
    else
      var n := |txs| - 1;
      Issued(l, txs[..n]) + Issue(ApplyAll(l, txs[..n]), txs[n])
  }

  /** Changing one account by an amount, on 32-bit words, changes the total by that amount. */
  lemma ChangeTotal(l: Balances, a: Key, amount: int)
    ensures Wrap(Sum(l[a := Wrap(Balance(l, a) + amount)])) == Wrap(Sum(l) + amount)
  {
    hide Sum, Wrap;
    SumSet(l, a, Wrap(Balance(l, a) + amount));
    WrapSum(Balance(l, a) + amount, Sum(l) - Balance(l, a));
  }

  lemma ApplyTotal(l: Balances, t: Transaction)
    ensures Wrap(Sum(Apply(l, t))) == Wrap(Sum(l) + Issue(l, t))
  {
    hide IsMint, Sum, Wrap;
    MintIsZeroKey(t.src);
    WrapWord(t.amount);
    var credited := l[t.dest := Wrap(Balance(l, t.dest) + t.amount)];
    ChangeTotal(l, t.dest, t.amount);
    if t.src != ZERO_KEY && !SelfMint(l, t) {
      ChangeTotal(credited, t.src, 0 - t.amount);
      WrapSum(Sum(credited), 0 - t.amount);
      WrapSum(Sum(l) + t.amount, 0 - t.amount);
    }
  }

  /** Conservation: after any transactions, the total is what it was plus what was issued. */
  lemma {:induction false} TotalIsIssued(l: Balances, txs: seq<Transaction>)
    ensures Wrap(Sum(ApplyAll(l, txs))) == Wrap(Sum(l) + Issued(l, txs))
  {
    hide Apply, Sum, Issue;
    if txs != [] {
      var n := |txs| - 1;
      var m := ApplyAll(l, txs[..n]);
      TotalIsIssued(l, txs[..n]);
      ApplyTotal(m, txs[n]);
      WrapSum(Sum(m), Issue(m, txs[n]));
      WrapSum(Sum(l) + Issued(l, txs[..n]), Issue(m, txs[n]));
    }
  }

  function Minted(txs: seq<Transaction>): nat {
    if txs == [] then 0
    else Minted(txs[..|txs| - 1]) + (if txs[|txs| - 1].src == ZERO_KEY then txs[|txs| - 1].amount else 0)
  }

  function SelfMinted(l: Balances, txs: seq<Transaction>): nat {
    if txs == [] then 0
    else
      var n := |txs| - 1;
      SelfMinted(l, txs[..n]) + (if SelfMint(ApplyAll(l, txs[..n]), txs[n]) then txs[n].amount else 0)
  }

  lemma {:induction false} IssuedSplits(l: Balances, txs: seq<Transaction>)
    ensures Issued(l, txs) == Minted(txs) + SelfMinted(l, txs)
  {
    if txs != [] {
      IssuedSplits(l, txs[..|txs| - 1]);
    }
  }

  /** Coins come from the mint alone exactly when the self-transfers by absent accounts add up to a
      multiple of 2^32, in particular when there are none. */
  lemma OnlyTheMintIssues(txs: seq<Transaction>)
    ensures Wrap(Sum(ApplyAll(map[], txs))) == Wrap(Minted(txs)) <==> SelfMinted(map[], txs) % TWO_TO_32 == 0
  {
    hide Sum, Minted, SelfMinted, Issued, ApplyAll, Wrap;
    SumEmpty();
    TotalIsIssued(map[], txs);
    IssuedSplits(map[], txs);
    SameWrap(Minted(txs), SelfMinted(map[], txs));
  }

  lemma SumEmpty()
    ensures Sum(map[]) == 0
  {
  }

  lemma SameWrap(x: nat, y: nat)
    ensures Wrap(x + y) == Wrap(x) <==> y % TWO_TO_32 == 0
  {
    if y % TWO_TO_32 == 0 {
      WrapShift(x, y / TWO_TO_32);
    }
    if Wrap(x + y) == Wrap(x) {
      var k := (x + y) / TWO_TO_32 - x / TWO_TO_32;
      assert y == TWO_TO_32 * k;
      WrapShift(0, k);
    }
  }

  /** The smallest case: one transaction creates coins without a mint. */
  lemma SelfTransferCreatesCoins(key: Key, signature: seq<Byte>, id: nat, amount: Word, timestamp: nat)
    requires key != ZERO_KEY && amount > 0
    ensures var txs := [Transaction(key, key, signature, id, amount, timestamp)];
            Minted(txs) == 0 && Balance(ApplyAll(map[], txs), key) == amount
  {
    var t := Transaction(key, key, signature, id, amount, timestamp);
    assert [t][..0] == [];
    ApplyBalance(map[], t, key);
  }

  /** A validator's reward: 50 coins more in its account and in the total, whatever the wallet. */
  lemma RewardMints(l: Balances, wallet: Key, timestamp: nat, a: Key)
    ensures var m := Apply(l, Reward(wallet, timestamp));
            && Balance(m, a) == Wrap(Balance(l, a) + (if a == wallet then 50 else 0))
            && Wrap(Sum(m)) == Wrap(Sum(l) + 50)
  {
    hide Apply, Sum, Balance, Wrap;
    ApplyBalance(l, Reward(wallet, timestamp), a);
    ApplyTotal(l, Reward(wallet, timestamp));
  }

  // ---------------------------------------------------------------- order

  /** No transaction in the list is a self-transfer by an account absent at that point. */
  predicate NoSelfMint(l: Balances, txs: seq<Transaction>) {
    forall i | 0 <= i < |txs| :: !SelfMint(ApplyAll(l, txs[..i]), txs[i])
  }

  lemma {:induction false} NothingCreated(l: Balances, txs: seq<Transaction>, a: Key)
    requires NoSelfMint(l, txs)
    ensures TotalCreated(l, txs, a) == 0
  {
    hide Apply;
    if txs != [] {
      var n := |txs| - 1;
      forall i | 0 <= i < n
        ensures !SelfMint(ApplyAll(l, txs[..n][..i]), txs[..n][i])
      {
        assert txs[..n][..i] == txs[..i];
      }
      NothingCreated(l, txs[..n], a);
    }
  }

  /** The accounts a transaction touches. */
  function Touched(txs: seq<Transaction>): set<Key> {
    (set t | t in txs :: t.dest) + (set t | t in txs && t.src != ZERO_KEY :: t.src)
  }

  lemma {:induction false} AccountsAfter(l: Balances, txs: seq<Transaction>)
    ensures ApplyAll(l, txs).Keys == l.Keys + Touched(txs)
  {
    hide Apply, Touched;
    if txs != [] {
      var n := |txs| - 1;
      AccountsAfter(l, txs[..n]);
      ApplyAccounts(ApplyAll(l, txs[..n]), txs[n]);
      TouchedSnoc(txs[..n], txs[n]);
      assert txs == txs[..n] + [txs[n]];
    } else {
      TouchedNone();
    }
  }

  lemma ApplyAccounts(l: Balances, t: Transaction)
    ensures Apply(l, t).Keys == l.Keys + {t.dest} + (if t.src == ZERO_KEY then {} else {t.src})
  {
    hide IsMint, Wrap;
    MintIsZeroKey(t.src);
  }

  lemma TouchedNone()
    ensures Touched([]) == {}
  {
  }

  lemma TouchedSnoc(txs: seq<Transaction>, t: Transaction)
    ensures Touched(txs + [t]) == Touched(txs) + {t.dest} + (if t.src == ZERO_KEY then {} else {t.src})
  {
  }

  lemma {:induction false} EffectAppend(a: seq<Transaction>, b: seq<Transaction>, k: Key)
    ensures TotalEffect(a + b, k) == TotalEffect(a, k) + TotalEffect(b, k)
    decreases |b|
  {
    if b == [] {
      assert a + b == a;
    } else {
      var n := |b| - 1;
      EffectAppend(a, b[..n], k);
      assert (a + b)[..|a + b| - 1] == a + b[..n];
    }
  }

  lemma {:induction false} EffectOfBag(a: seq<Transaction>, b: seq<Transaction>, k: Key)
    requires multiset(a) == multiset(b)
    ensures TotalEffect(a, k) == TotalEffect(b, k)
    decreases |a|
  {
    if a == [] {
      SameBagSameLength(a, b);
    } else {
      var n := |a| - 1;
      var t := a[n];
      assert a == a[..n] + [t];
      assert t in multiset(b);
      var i :| 0 <= i < |b| && b[i] == t;
      var c := b[..i] + b[i + 1..];
      assert b == b[..i] + [t] + b[i + 1..];
      assert multiset(a) == multiset(a[..n]) + multiset{t};
      assert multiset(b) == multiset(b[..i]) + multiset{t} + multiset(b[i + 1..]);
      assert multiset(c) == multiset(b[..i]) + multiset(b[i + 1..]);
      CancelOne(multiset(a[..n]), multiset(c), t);
      EffectOfBag(a[..n], c, k);
      EffectAppend(b[..i], b[i + 1..], k);
      EffectAppend(b[..i] + [t], b[i + 1..], k);
      EffectAppend(b[..i], [t], k);
      EffectAppend(a[..n], [t], k);
    }
  }

  lemma CancelOne(x: multiset<Transaction>, y: multiset<Transaction>, t: Transaction)
    requires x + multiset{t} == y + multiset{t}
    ensures x == y
  {
    assert x == x + multiset{t} - multiset{t};
    assert y == y + multiset{t} - multiset{t};
  }

  lemma SameBagSameLength(a: seq<Transaction>, b: seq<Transaction>)
    requires multiset(a) == multiset(b)
    ensures |a| == |b|
  {
    assert |multiset(a)| == |multiset(b)|;
  }

  lemma SameBagSameTouched(a: seq<Transaction>, b: seq<Transaction>)
    requires multiset(a) == multiset(b)
    ensures Touched(a) == Touched(b)
  {
    forall t
      ensures t in a <==> t in b
    {
      assert t in a <==> t in multiset(a);
      assert t in b <==> t in multiset(b);
    }
  }

  lemma WrapCancel(x: int, y: int, z: int)
    ensures Wrap(x + y) == Wrap(x + z) <==> Wrap(y) == Wrap(z)
  {
    hide Wrap;
    WrapSum(x + y, 0 - x);
    WrapSum(x + z, 0 - x);
    WrapSum(y, x);
    WrapSum(z, x);
  }

  /** One account after two orders of the same transactions. */
  lemma SameBalance(l: Balances, a: seq<Transaction>, b: seq<Transaction>, k: Key)
    requires multiset(a) == multiset(b)
    ensures Balance(ApplyAll(l, a), k) == Balance(ApplyAll(l, b), k) <==>
            Wrap(TotalCreated(l, a, k)) == Wrap(TotalCreated(l, b, k))
  {
    hide ApplyAll, Balance, Wrap, TotalEffect, TotalCreated;
    BalanceOf(l, a, k);
    BalanceOf(l, b, k);
    EffectOfBag(a, b, k);
    WrapCancel(Balance(l, k) + TotalEffect(a, k), TotalCreated(l, a, k), TotalCreated(l, b, k));
  }

  lemma SameLedger(l: Balances, m: Balances)
    requires l.Keys == m.Keys && forall k: Key :: Balance(l, k) == Balance(m, k)
    ensures l == m
  {
    forall k | k in l
      ensures l[k] == m[k]
    {
      assert Balance(l, k) == Balance(m, k);
    }
  }

  /** Self-transfers by absent accounts create the same amounts, modulo 2^32, in every account. */
  ghost predicate SameCreated(l: Balances, a: seq<Transaction>, b: seq<Transaction>) {
    forall k: Key :: Wrap(TotalCreated(l, a, k)) == Wrap(TotalCreated(l, b, k))
  }

  /** Two orders of the same transactions give the same ledger exactly when they create the same amounts. */
  lemma OrderIrrelevant(l: Balances, a: seq<Transaction>, b: seq<Transaction>)
    requires multiset(a) == multiset(b)
    ensures ApplyAll(l, a) == ApplyAll(l, b) <==> SameCreated(l, a, b)
  {
    hide ApplyAll, Touched, Balance, Wrap, TotalCreated;
    if ApplyAll(l, a) == ApplyAll(l, b) {
      forall k: Key
        ensures Wrap(TotalCreated(l, a, k)) == Wrap(TotalCreated(l, b, k))
      {
        SameBalance(l, a, b, k);
      }
      assert SameCreated(l, a, b);
    }
    if SameCreated(l, a, b) {
      AccountsAfter(l, a);
      AccountsAfter(l, b);
      SameBagSameTouched(a, b);
      forall k: Key
        ensures Balance(ApplyAll(l, a), k) == Balance(ApplyAll(l, b), k)
      {
        SameBalance(l, a, b, k);
      }
      SameLedger(ApplyAll(l, a), ApplyAll(l, b));
    }
  }

  /** In particular the order does not matter when there is no such self-transfer in either. */
  lemma OrderIrrelevantWithoutSelfMint(l: Balances, a: seq<Transaction>, b: seq<Transaction>)
    requires multiset(a) == multiset(b)
    requires NoSelfMint(l, a) && NoSelfMint(l, b)
    ensures ApplyAll(l, a) == ApplyAll(l, b)
  {
    hide ApplyAll, TotalCreated, NoSelfMint, Wrap;
    OrderIrrelevant(l, a, b);
    forall k
      ensures TotalCreated(l, a, k) == 0 == TotalCreated(l, b, k)
    {
      NothingCreated(l, a, k);
      NothingCreated(l, b, k);
    }
  }

  /** Otherwise it can: a self-transfer creates coins before the account's first payment and not after. */
  lemma OrderMatters(pay: Transaction, self: Transaction)
    requires pay.src == ZERO_KEY && pay.dest == self.src == self.dest != ZERO_KEY && self.amount > 0
    ensures multiset([pay, self]) == multiset([self, pay])
    ensures ApplyAll(map[], [pay, self]) != ApplyAll(map[], [self, pay])
  {
    hide ApplyAll, Apply, Wrap;
    var k := self.src;
    OrderIrrelevant(map[], [pay, self], [self, pay]);
    CreatedByTwo(pay, self, k);
    CreatedByTwo(self, pay, k);
    CreditedIsPresent(pay);
    WrapWord(self.amount);
    WrapWord(0);
  }

  lemma CreatedByTwo(t: Transaction, u: Transaction, k: Key)
    ensures TotalCreated(map[], [t, u], k) == Created(map[], t, k) + Created(Apply(map[], t), u, k)
  {
    hide Apply, Created;
    assert [t, u][..1] == [t] && [t][..0] == [];
    assert ApplyAll(map[], [t]) == Apply(map[], t);
    assert TotalCreated(map[], [t], k) == Created(map[], t, k);
  }

  lemma CreditedIsPresent(t: Transaction)
    ensures t.dest in Apply(map[], t)
  {
    hide IsMint, Wrap;
  }
}
