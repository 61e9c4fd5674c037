/** The transaction pool: its handlers in place, what confirming a block does to the queue of
    transactions handed out, and what every run of the pool keeps. */
module TxPool {
  import opened Coin

  // ---------------------------------------------------------------- confirming a block

  /** How many unconfirmed transactions are consumed to find the keys. */
  function Consumed(keys: set<TxKey>, q: seq<Transaction>): (n: nat)
    ensures n <= |q|
  {
    if keys == {} || q == [] then 0 else 1 + Consumed(keys - {q[0].TxKeyOf()}, q[1..])
  }

  /** The consumed transactions that go back to the submitted queue: all but the first with each key. */
  function Requeued(keys: set<TxKey>, q: seq<Transaction>): seq<Transaction> {
    if keys == {} || q == [] then []
    else
      (if q[0].TxKeyOf() in keys then [] else [q[0]]) + Requeued(keys - {q[0].TxKeyOf()}, q[1..])
  }

  /** The consumed transactions that are confirmed by the block. */
  function Matched(keys: set<TxKey>, q: seq<Transaction>): seq<Transaction> {
    if keys == {} || q == [] then []
    else
      (if q[0].TxKeyOf() in keys then [q[0]] else []) + Matched(keys - {q[0].TxKeyOf()}, q[1..])
  }

  /** The consumed part is the shortest prefix that covers the keys, or the whole queue if none does. */
  lemma {:induction false} ConsumedIsShortest(keys: set<TxKey>, q: seq<Transaction>)
    ensures keys <= KeysOf(q[..Consumed(keys, q)]) || Consumed(keys, q) == |q|
    ensures forall m | 0 <= m < Consumed(keys, q) :: !(keys <= KeysOf(q[..m]))
  {
    if keys != {} && q != [] {
      var k := q[0].TxKeyOf();
      var n := Consumed(keys, q);
      ConsumedIsShortest(keys - {k}, q[1..]);
      forall m | 0 <= m <= n
        ensures m > 0 ==> KeysOf(q[..m]) == {k} + KeysOf(q[1..][..m - 1])
      {
        if m > 0 {
          KeysOfFirst(q[..m]);
          assert q[..m][1..] == q[1..][..m - 1];
        }
      }
    }
  }

  /** Nothing is lost or duplicated: the consumed transactions are the confirmed and the requeued. */
  lemma {:induction false} ConsumedSplits(keys: set<TxKey>, q: seq<Transaction>)
    ensures multiset(q[..Consumed(keys, q)]) == multiset(Requeued(keys, q)) + multiset(Matched(keys, q))
  {
    hide Consumed, Requeued, Matched;
    if keys == {} || q == [] {
      NothingConsumed(keys, q);
      assert q[..0] == [];
    } else {
      var k := q[0].TxKeyOf();
      FirstOfQueue(keys, q);
      ConsumedSplits(keys - {k}, q[1..]);
      var taken := q[1..][..Consumed(keys - {k}, q[1..])];
      assert q[..Consumed(keys, q)] == [q[0]] + taken;
    }
  }

  lemma NothingConsumed(keys: set<TxKey>, q: seq<Transaction>)
    requires keys == {} || q == []
    ensures Consumed(keys, q) == 0 && Requeued(keys, q) == [] && Matched(keys, q) == []
  {
  }

  function WithoutKeys(keys: set<TxKey>, q: seq<Transaction>): seq<Transaction> {
    if q == [] then []
    else (if q[0].TxKeyOf() in keys then [] else [q[0]]) + WithoutKeys(keys, q[1..])
  }

  lemma {:induction false} WithoutOther(keys: set<TxKey>, k: TxKey, q: seq<Transaction>)
    requires k !in KeysOf(q)
    ensures WithoutKeys(keys - {k}, q) == WithoutKeys(keys, q)
  {
    if q != [] {
      KeysOfFirst(q);
      WithoutOther(keys, k, q[1..]);
    }
  }

  lemma KeysOfPrefix(q: seq<Transaction>, n: nat)
    requires n <= |q|
    ensures KeysOf(q[..n]) <= KeysOf(q)
  {
  }

  /** With distinct keys, exactly the transactions of the block are dropped and the others keep
      their order. */
  lemma {:induction false} RequeuedIsFilter(keys: set<TxKey>, q: seq<Transaction>)
    requires DistinctKeys(q)
    ensures Requeued(keys, q) == WithoutKeys(keys, q[..Consumed(keys, q)])
  {
    if keys != {} && q != [] {
      var k := q[0].TxKeyOf();
      var rest := q[1..][..Consumed(keys - {k}, q[1..])];
      RequeuedIsFilter(keys - {k}, q[1..]);
      assert q[..Consumed(keys, q)] == [q[0]] + rest;
      FirstKeyIsNew(q);
      KeysOfPrefix(q[1..], |rest|);
      WithoutOther(keys, k, rest);
      assert ([q[0]] + rest)[1..] == rest;
    }
  }

  lemma FirstKeyIsNew(q: seq<Transaction>)
    requires q != [] && DistinctKeys(q)
    ensures q[0].TxKeyOf() !in KeysOf(q[1..])
  {
    forall t | t in q[1..]
      ensures t.TxKeyOf() != q[0].TxKeyOf()
    {
      var i :| 0 <= i < |q[1..]| && q[1..][i] == t;
      assert q[i + 1] == t;
    }
  }

  /** A block with a key that was never handed out drains the queue. Every block of a validator has
      one: the reward. A block without transactions changes nothing. */
  lemma ForeignKeyDrains(keys: set<TxKey>, q: seq<Transaction>, foreign: TxKey)
    requires foreign in keys && foreign !in KeysOf(q)
    ensures Consumed(keys, q) == |q|
  {
    ConsumedIsShortest(keys, q);
    KeysOfPrefix(q, Consumed(keys, q));
  }

  lemma {:induction false} RequeuedKeys(keys: set<TxKey>, q: seq<Transaction>)
    ensures KeysOf(Requeued(keys, q)) <= KeysOf(q[..Consumed(keys, q)])
  {
    if keys != {} && q != [] {
      var k := q[0].TxKeyOf();
      RequeuedKeys(keys - {k}, q[1..]);
      var rest := Requeued(keys - {k}, q[1..]);
      var n := Consumed(keys - {k}, q[1..]);
      assert q[..n + 1] == [q[0]] + q[1..][..n];
      KeysOfAppend([q[0]], q[1..][..n]);
      KeysOfAppend(if k in keys then [] else [q[0]], rest);
    }
  }

  // ---------------------------------------------------------------- the pool as a value

  datatype Pool = Pool(
    submitted: seq<Transaction>, unconfirmed: seq<Transaction>,
    submittedSet: set<TxKey>, unconfirmedSet: set<TxKey>)

  const EMPTY_POOL := Pool([], [], {}, {})

  function Add(p: Pool, tx: Transaction): Pool {
    p.(submitted := p.submitted + [tx], submittedSet := p.submittedSet + {tx.TxKeyOf()})
  }

  /** One slot of the block is left for the reward. */
  function PopCount(p: Pool): (n: nat)
    ensures n <= |p.submitted| && n < BLOCK_SIZE
  {
    if BLOCK_SIZE - 1 <= |p.submitted| then BLOCK_SIZE - 1 else |p.submitted|
  }

  function Pop(p: Pool): Pool {
    var txs := p.submitted[..PopCount(p)];
    Pool(p.submitted[PopCount(p)..], p.unconfirmed + txs,
         p.submittedSet - KeysOf(txs), p.unconfirmedSet + KeysOf(txs))
  }

  function Confirm(p: Pool, keys: set<TxKey>): Pool {
    var n := Consumed(keys, p.unconfirmed);
    var back := Requeued(keys, p.unconfirmed);
    Pool(p.submitted + back, p.unconfirmed[n..],
         p.submittedSet + KeysOf(back), p.unconfirmedSet - KeysOf(p.unconfirmed[..n]))
  }

  /** What a client is told: what the pool knows of the key, otherwise what the blockchain answers. */
  function StatusOf(p: Pool, key: TxKey, chainStatus: Status): Status {
    if key in p.submittedSet then Submitted
    else if key in p.unconfirmedSet then Unconfirmed
    else chainStatus
  }

  function OpenCount(p: Pool): nat {
    |p.submitted| + |p.unconfirmed|
  }

  // ---------------------------------------------------------------- the handlers

  class TransactionPool {
    var submittedQueue: seq<Transaction>
    var unconfirmedQueue: seq<Transaction>
    var submittedSet: set<TxKey>
    var unconfirmedSet: set<TxKey>

    function Value(): Pool
      reads this
    {
      Pool(submittedQueue, unconfirmedQueue, submittedSet, unconfirmedSet)
    }

    constructor ()
      ensures Value() == EMPTY_POOL
    {
      submittedQueue, unconfirmedQueue, submittedSet, unconfirmedSet := [], [], {}, {};
    }

    /** add_transaction: refused, or appended and accepted. */
    method AddTransaction(tx: Transaction, signatureValid: bool) returns (accepted: bool)
      modifies this
      ensures accepted == signatureValid
      ensures Value() == if signatureValid then Add(old(Value()), tx) else old(Value())
    {
      if !signatureValid {
        return false;
      }
      submittedQueue := submittedQueue + [tx];
      submittedSet := submittedSet + {tx.TxKeyOf()};
      return true;
    }

    /** pop_transactions */
    method PopTransactions() returns (txs: seq<Transaction>)
      modifies this
      ensures txs == old(submittedQueue)[..PopCount(old(Value()))]
      ensures Value() == Pop(old(Value()))
    {
      var end := if BLOCK_SIZE - 1 <= |submittedQueue| then BLOCK_SIZE - 1 else |submittedQueue|;
      txs := submittedQueue[..end];
      var i := 0;
      while i < |txs|
        invariant 0 <= i <= |txs|
        invariant submittedQueue == old(submittedQueue)[i..]
        invariant unconfirmedQueue == old(unconfirmedQueue) + txs[..i]
        invariant submittedSet == old(submittedSet) - KeysOf(txs[..i])
        invariant unconfirmedSet == old(unconfirmedSet) + KeysOf(txs[..i])
      {
        var tx := txs[i];
        submittedQueue := submittedQueue[1..];
        submittedSet := submittedSet - {tx.TxKeyOf()};
        unconfirmedQueue := unconfirmedQueue + [tx];
        unconfirmedSet := unconfirmedSet + {tx.TxKeyOf()};
        assert txs[..i + 1] == txs[..i] + [tx];
        KeysOfAppend(txs[..i], [tx]);
        i := i + 1;
      }
      assert txs[..i] == txs;
    }

    /** confirm_transactions */
    method ConfirmTransactions(block: Block)
      modifies this
      ensures Value() == Confirm(old(Value()), KeysOf(block.transactions))
    {
      var confirmedSet := KeysOf(block.transactions);
      ghost var keys, start := confirmedSet, Value();
      while confirmedSet != {} && unconfirmedQueue != []
        invariant Confirm(Value(), confirmedSet) == Confirm(start, keys)
        decreases |unconfirmedQueue|
      {
        ConfirmOne(Value(), confirmedSet);
        var tx := unconfirmedQueue[0];
        unconfirmedQueue := unconfirmedQueue[1..];
        unconfirmedSet := unconfirmedSet - {tx.TxKeyOf()};
        var erased := tx.TxKeyOf() in confirmedSet;
        confirmedSet := confirmedSet - {tx.TxKeyOf()};
        if !erased {
          submittedQueue := submittedQueue + [tx];
          submittedSet := submittedSet + {tx.TxKeyOf()};
        }
      }
      ConfirmNone(Value(), confirmedSet);
    }

    /** query_tx_status */
    method QueryTxStatus(key: TxKey, chainStatus: Status) returns (status: Status)
      ensures status == StatusOf(Value(), key, chainStatus)
    {
      if key in submittedSet {
        return Submitted;
      }
      if key in unconfirmedSet {
        return Unconfirmed;
      }
      return chainStatus;
    }

    /** query_tx_count */
    method QueryTxCount() returns (n: nat)
      ensures n == OpenCount(Value())
    {
      n := |submittedQueue| + |unconfirmedQueue|;
    }
  }

  lemma ConfirmNone(p: Pool, keys: set<TxKey>)
    requires keys == {} || p.unconfirmed == []
    ensures Confirm(p, keys) == p
  {
    assert p.unconfirmed[..0] == [] && KeysOf([]) == {};
  }

  /** One round of the draining loop. */
  lemma ConfirmOne(p: Pool, keys: set<TxKey>)
    requires keys != {} && p.unconfirmed != []
    ensures var tx := p.unconfirmed[0];
            var k := tx.TxKeyOf();
            var q := p.(unconfirmed := p.unconfirmed[1..], unconfirmedSet := p.unconfirmedSet - {k});
            var r := if k in keys then q else q.(submitted := q.submitted + [tx], submittedSet := q.submittedSet + {k});
            Confirm(r, keys - {k}) == Confirm(p, keys)
  {
    hide Consumed, Requeued, KeysOf;
    var tx := p.unconfirmed[0];
    var k := tx.TxKeyOf();
    var rest := p.unconfirmed[1..];
    FirstOfQueue(keys, p.unconfirmed);
    var n := Consumed(keys - {k}, rest);
    var back := Requeued(keys - {k}, rest);
    assert p.unconfirmed[..n + 1] == [tx] + rest[..n];
    KeysOfAppend([tx], rest[..n]);
    KeysOfAppend([tx], back);
    KeysOfOne(tx);
    assert p.submitted + ([tx] + back) == (p.submitted + [tx]) + back;
    assert [] + back == back;
    assert p.unconfirmed[n + 1..] == rest[n..];
  }

  lemma FirstOfQueue(keys: set<TxKey>, q: seq<Transaction>)
    requires keys != {} && q != []
    ensures var k := q[0].TxKeyOf();
            && Consumed(keys, q) == 1 + Consumed(keys - {k}, q[1..])
            && Requeued(keys, q) == (if k in keys then [] else [q[0]]) + Requeued(keys - {k}, q[1..])
            && Matched(keys, q) == (if k in keys then [q[0]] else []) + Matched(keys - {k}, q[1..])
  {
  }

  lemma KeysOfOne(tx: Transaction)
    ensures KeysOf([tx]) == {tx.TxKeyOf()} && KeysOf([]) == {}
  {
  }

  // ---------------------------------------------------------------- every run of the pool

  /** A step of the pool: each handler runs under the pool's mutex. */
  datatype Step = AddStep(tx: Transaction) | RejectStep | PopStep | ConfirmStep(block: Block)

  /** A pool with the history of its transactions. */
  datatype History = History(pool: Pool, accepted: seq<Transaction>, confirmed: seq<Transaction>)

  const START := History(EMPTY_POOL, [], [])

  function Next(h: History, step: Step): History {
    match step
    case AddStep(tx) => History(Add(h.pool, tx), h.accepted + [tx], h.confirmed)
    case RejectStep => h
    case PopStep => h.(pool := Pop(h.pool))
    case ConfirmStep(block) =>
      var keys := KeysOf(block.transactions);
      h.(pool := Confirm(h.pool, keys), confirmed := h.confirmed + Matched(keys, h.pool.unconfirmed))
  }

  function Run(steps: seq<Step>): History {
    if steps == [] then START else Next(Run(steps[..|steps| - 1]), steps[|steps| - 1])
  }

  /** Every accepted transaction is accounted for, as often as it was accepted, in one of the three
      places. */
  ghost predicate Conserved(h: History) {
    multiset(h.pool.submitted) + multiset(h.pool.unconfirmed) + multiset(h.confirmed) == multiset(h.accepted)
  }

  lemma NextConserves(h: History, step: Step)
    requires Conserved(h)
    ensures Conserved(Next(h, step))
  {
    match step
    case AddStep(tx) =>
    case RejectStep =>
    case PopStep =>
      var n := PopCount(h.pool);
      assert h.pool.submitted == h.pool.submitted[..n] + h.pool.submitted[n..];
    case ConfirmStep(block) =>
      var keys := KeysOf(block.transactions);
      var n := Consumed(keys, h.pool.unconfirmed);
      ConsumedSplits(keys, h.pool.unconfirmed);
      assert h.pool.unconfirmed == h.pool.unconfirmed[..n] + h.pool.unconfirmed[n..];
  }

  /** The index sets never name a transaction that is not in the queue. */
  ghost predicate SetsWithinQueues(p: Pool) {
    p.submittedSet <= KeysOf(p.submitted) && p.unconfirmedSet <= KeysOf(p.unconfirmed)
  }

  lemma NextKeepsSets(h: History, step: Step)
    requires SetsWithinQueues(h.pool)
    ensures SetsWithinQueues(Next(h, step).pool)
  {
    var p := h.pool;
    match step
    case AddStep(tx) =>
      KeysOfAppend(p.submitted, [tx]);
    case RejectStep =>
    case PopStep =>
      var n := PopCount(p);
      assert p.submitted == p.submitted[..n] + p.submitted[n..];
      KeysOfAppend(p.submitted[..n], p.submitted[n..]);
      KeysOfAppend(p.unconfirmed, p.submitted[..n]);
    case ConfirmStep(block) =>
      var keys := KeysOf(block.transactions);
      var n := Consumed(keys, p.unconfirmed);
      assert p.unconfirmed == p.unconfirmed[..n] + p.unconfirmed[n..];
      KeysOfAppend(p.unconfirmed[..n], p.unconfirmed[n..]);
      KeysOfAppend(p.submitted, Requeued(keys, p.unconfirmed));
  }

  /** Over every run, whatever the keys: conservation, and sets within the queues. */
  lemma {:induction false} EveryRun(steps: seq<Step>)
    ensures Conserved(Run(steps)) && SetsWithinQueues(Run(steps).pool)
  {
    if steps != [] {
      var n := |steps| - 1;
      EveryRun(steps[..n]);
      NextConserves(Run(steps[..n]), steps[n]);
      NextKeepsSets(Run(steps[..n]), steps[n]);
    }
  }

  // ---------------------------------------------------------------- runs with fresh keys

  ghost predicate SetsMatchQueues(p: Pool) {
    p.submittedSet == KeysOf(p.submitted) && p.unconfirmedSet == KeysOf(p.unconfirmed)
  }

  lemma DistinctPrefix(q: seq<Transaction>, n: nat)
    requires DistinctKeys(q) && n <= |q|
    ensures DistinctKeys(q[..n]) && DistinctKeys(q[n..])
    ensures KeysOf(q[..n]) !! KeysOf(q[n..])
  {
    forall a, b | a in q[..n] && b in q[n..]
      ensures a.TxKeyOf() != b.TxKeyOf()
    {
      var i :| 0 <= i < n && q[i] == a;
      var j :| 0 <= j < |q[n..]| && q[n..][j] == b;
      assert q[n + j] == b;
    }
  }

  /** How often a transaction key occurs. */
  function CountKey(q: seq<Transaction>, k: TxKey): nat {
    if q == [] then 0 else (if q[0].TxKeyOf() == k then 1 else 0) + CountKey(q[1..], k)
  }

  lemma {:induction false} CountAppend(a: seq<Transaction>, b: seq<Transaction>, k: TxKey)
    ensures CountKey(a + b, k) == CountKey(a, k) + CountKey(b, k)
  {
    if a == [] {
      assert a + b == b;
    } else {
      assert (a + b)[1..] == a[1..] + b;
      CountAppend(a[1..], b, k);
    }
  }

  lemma {:induction false} CountPositive(q: seq<Transaction>, k: TxKey)
    ensures CountKey(q, k) > 0 <==> k in KeysOf(q)
  {
    if q != [] {
      KeysOfFirst(q);
      CountPositive(q[1..], k);
    }
  }

  lemma {:induction false} DistinctIsOnce(q: seq<Transaction>, k: TxKey)
    requires DistinctKeys(q)
    ensures CountKey(q, k) <= 1
  {
    if q != [] {
      DistinctIsOnce(q[1..], k);
      FirstKeyIsNew(q);
      CountPositive(q[1..], k);
    }
  }

  lemma {:induction false} OnceIsDistinct(q: seq<Transaction>)
    requires forall k :: CountKey(q, k) <= 1
    ensures DistinctKeys(q)
  {
    if q != [] {
      var k0 := q[0].TxKeyOf();
      forall k
        ensures CountKey(q[1..], k) <= 1
      {
        assert CountKey(q, k) <= 1;
      }
      OnceIsDistinct(q[1..]);
      assert CountKey(q, k0) <= 1;
      CountPositive(q[1..], k0);
      NewFirstKey(q);
    }
  }

  lemma NewFirstKey(q: seq<Transaction>)
    requires q != [] && DistinctKeys(q[1..]) && q[0].TxKeyOf() !in KeysOf(q[1..])
    ensures DistinctKeys(q)
  {
    forall i, j | 0 <= i < j < |q|
      ensures q[i].TxKeyOf() != q[j].TxKeyOf()
    {
      assert q[j] == q[1..][j - 1];
      assert q[j].TxKeyOf() in KeysOf(q[1..]);
      if i > 0 {
        assert q[i] == q[1..][i - 1];
      }
    }
  }

  /** Each key is in the three places as often as it was accepted. */
  ghost predicate KeyConserved(h: History, k: TxKey) {
    CountKey(h.pool.submitted, k) + CountKey(h.pool.unconfirmed, k) + CountKey(h.confirmed, k) ==
    CountKey(h.accepted, k)
  }

  lemma {:induction false} ConsumedCounts(keys: set<TxKey>, q: seq<Transaction>, k: TxKey)
    ensures CountKey(q[..Consumed(keys, q)], k) == CountKey(Requeued(keys, q), k) + CountKey(Matched(keys, q), k)
  {
    hide Consumed, Requeued, Matched;
    if keys == {} || q == [] {
      NothingConsumed(keys, q);
    } else {
      var k0 := q[0].TxKeyOf();
      var n, back, out := Consumed(keys - {k0}, q[1..]), Requeued(keys - {k0}, q[1..]), Matched(keys - {k0}, q[1..]);
      FirstOfQueue(keys, q);
      ConsumedCounts(keys - {k0}, q[1..], k);
      assert q[..n + 1] == [q[0]] + q[1..][..n];
      CountAppend([q[0]], q[1..][..n], k);
      CountAppend([q[0]], back, k);
      CountAppend([q[0]], out, k);
      assert [] + back == back && [] + out == out;
    }
  }

  lemma NextConservesKey(h: History, step: Step, k: TxKey)
    requires KeyConserved(h, k)
    ensures KeyConserved(Next(h, step), k)
  {
    var p := h.pool;
    match step
    case AddStep(tx) =>
      CountAppend(p.submitted, [tx], k);
      CountAppend(h.accepted, [tx], k);
    case RejectStep =>
    case PopStep =>
      var n := PopCount(p);
      assert p.submitted == p.submitted[..n] + p.submitted[n..];
      CountAppend(p.submitted[..n], p.submitted[n..], k);
      CountAppend(p.unconfirmed, p.submitted[..n], k);
    case ConfirmStep(block) =>
      var keys := KeysOf(block.transactions);
      var n := Consumed(keys, p.unconfirmed);
      ConsumedCounts(keys, p.unconfirmed, k);
      assert p.unconfirmed == p.unconfirmed[..n] + p.unconfirmed[n..];
      CountAppend(p.unconfirmed[..n], p.unconfirmed[n..], k);
      CountAppend(p.submitted, Requeued(keys, p.unconfirmed), k);
      CountAppend(h.confirmed, Matched(keys, p.unconfirmed), k);
  }

  lemma {:induction false} RunConservesKey(steps: seq<Step>, k: TxKey)
    ensures KeyConserved(Run(steps), k)
  {
    if steps != [] {
      var n := |steps| - 1;
      RunConservesKey(steps[..n], k);
      NextConservesKey(Run(steps[..n]), steps[n], k);
    }
  }

  lemma NextKeepsMatch(h: History, step: Step)
    requires SetsMatchQueues(h.pool) && DistinctKeys(h.pool.submitted) && DistinctKeys(h.pool.unconfirmed)
    ensures SetsMatchQueues(Next(h, step).pool)
  {
    var p := h.pool;
    match step
    case AddStep(tx) =>
      KeysOfAppend(p.submitted, [tx]);
    case RejectStep =>
    case PopStep =>
      var n := PopCount(p);
      assert p.submitted == p.submitted[..n] + p.submitted[n..];
      KeysOfAppend(p.submitted[..n], p.submitted[n..]);
      KeysOfAppend(p.unconfirmed, p.submitted[..n]);
      DistinctPrefix(p.submitted, n);
    case ConfirmStep(block) =>
      var keys := KeysOf(block.transactions);
      var n := Consumed(keys, p.unconfirmed);
      assert p.unconfirmed == p.unconfirmed[..n] + p.unconfirmed[n..];
      KeysOfAppend(p.unconfirmed[..n], p.unconfirmed[n..]);
      KeysOfAppend(p.submitted, Requeued(keys, p.unconfirmed));
      DistinctPrefix(p.unconfirmed, n);
  }

  lemma {:induction false} RunDistinct(steps: seq<Step>)
    requires DistinctKeys(Run(steps).accepted)
    ensures DistinctKeys(Run(steps).pool.submitted) && DistinctKeys(Run(steps).pool.unconfirmed)
  {
    var h := Run(steps);
    forall k
      ensures CountKey(h.pool.submitted, k) <= 1 && CountKey(h.pool.unconfirmed, k) <= 1
    {
      RunConservesKey(steps, k);
      DistinctIsOnce(h.accepted, k);
    }
    OnceIsDistinct(h.pool.submitted);
    OnceIsDistinct(h.pool.unconfirmed);
  }

  lemma AcceptedGrows(h: History, step: Step)
    requires DistinctKeys(Next(h, step).accepted)
    ensures DistinctKeys(h.accepted)
  {
    if step.AddStep? {
      assert Next(h, step).accepted[..|h.accepted|] == h.accepted;
      DistinctPrefix(Next(h, step).accepted, |h.accepted|);
    }
  }

  /** Over every run in which no key is accepted twice, the sets are exactly the queues' keys. */
  lemma {:induction false} FreshRunMatches(steps: seq<Step>)
    requires DistinctKeys(Run(steps).accepted)
    ensures SetsMatchQueues(Run(steps).pool)
  {
    if steps != [] {
      var n := |steps| - 1;
      AcceptedGrows(Run(steps[..n]), steps[n]);
      FreshRunMatches(steps[..n]);
      RunDistinct(steps[..n]);
      NextKeepsMatch(Run(steps[..n]), steps[n]);
    }
  }

  /** Over every such run, each accepted transaction is in exactly one place: waiting, handed out, or
      confirmed by a block. */
  lemma ExactlyOnePlace(steps: seq<Step>, k: TxKey)
    requires DistinctKeys(Run(steps).accepted) && k in KeysOf(Run(steps).accepted)
    ensures var h := Run(steps);
            var a, b, c := k in h.pool.submittedSet, k in h.pool.unconfirmedSet, k in KeysOf(h.confirmed);
            (a && !b && !c) || (!a && b && !c) || (!a && !b && c)
  {
    var h := Run(steps);
    FreshRunMatches(steps);
    RunConservesKey(steps, k);
    DistinctIsOnce(h.accepted, k);
    CountPositive(h.accepted, k);
    CountPositive(h.pool.submitted, k);
    CountPositive(h.pool.unconfirmed, k);
    CountPositive(h.confirmed, k);
  }

  /** What is confirmed was in a block that the pool was told of. */
  lemma {:induction false} ConfirmedByBlock(steps: seq<Step>, k: TxKey)
    requires k in KeysOf(Run(steps).confirmed)
    ensures exists s :: s in steps && s.ConfirmStep? && k in KeysOf(s.block.transactions)
  {
    hide Consumed, Matched;
    if steps != [] {
      var n := |steps| - 1;
      var h := Run(steps[..n]);
      if k in KeysOf(h.confirmed) {
        ConfirmedByBlock(steps[..n], k);
      } else {
        var keys := KeysOf(steps[n].block.transactions);
        KeysOfAppend(h.confirmed, Matched(keys, h.pool.unconfirmed));
        MatchedKeys(keys, h.pool.unconfirmed);
        assert steps[n] in steps;
      }
    }
  }

  lemma {:induction false} MatchedKeys(keys: set<TxKey>, q: seq<Transaction>)
    ensures KeysOf(Matched(keys, q)) <= keys
  {
    hide Matched, Consumed, Requeued;
    if keys == {} || q == [] {
      NothingConsumed(keys, q);
    } else {
      var k := q[0].TxKeyOf();
      FirstOfQueue(keys, q);
      MatchedKeys(keys - {k}, q[1..]);
      KeysOfAppend(if k in keys then [q[0]] else [], Matched(keys - {k}, q[1..]));
    }
  }

  /** Over every such run the status query tells the place of every accepted transaction, provided the
      blockchain says so when asked for a transaction in a block that the pool was told of: it stores a
      block before it tells the pool. */
  lemma StatusTellsPlace(steps: seq<Step>, k: TxKey, chainStatus: Status)
    requires DistinctKeys(Run(steps).accepted) && k in KeysOf(Run(steps).accepted)
    requires chainStatus.Confirmed? || chainStatus.Unknown?
    requires forall s | s in steps && s.ConfirmStep? && k in KeysOf(s.block.transactions) :: chainStatus.Confirmed?
    ensures var h := Run(steps);
            match StatusOf(h.pool, k, chainStatus)
            case Submitted => k in KeysOf(h.pool.submitted)
            case Unconfirmed => k in KeysOf(h.pool.unconfirmed)
            case Confirmed => k in KeysOf(h.confirmed)
            case Unknown => false
  {
    hide Run, DistinctKeys, KeysOf;
    ExactlyOnePlace(steps, k);
    FreshRunMatches(steps);
    if k in KeysOf(Run(steps).confirmed) {
      ConfirmedByBlock(steps, k);
    }
  }

  /** Over every run, whatever the keys: of a key that was never accepted the pool knows nothing, and the
      blockchain's answer is passed on. */
  lemma ForeignKeyAsksChain(steps: seq<Step>, k: TxKey, chainStatus: Status)
    requires k !in KeysOf(Run(steps).accepted)
    ensures StatusOf(Run(steps).pool, k, chainStatus) == chainStatus
  {
    hide KeysOf, CountKey;
    var h := Run(steps);
    hide Run;
    EveryRun(steps);
    RunConservesKey(steps, k);
    CountPositive(h.accepted, k);
    CountPositive(h.pool.submitted, k);
    CountPositive(h.pool.unconfirmed, k);
  }

  /** After any run, whatever the keys, a transaction just accepted is reported as submitted, even if one
      with the same key has been handed out. */
  lemma JustAccepted(steps: seq<Step>, tx: Transaction, chainStatus: Status)
    ensures StatusOf(Run(steps + [AddStep(tx)]).pool, tx.TxKeyOf(), chainStatus) == Submitted
  {
    RunSnoc(steps, AddStep(tx));
  }

  /** First in, first out: handing out moves the boundary between the queues and nothing else. */
  lemma PopKeepsLine(p: Pool)
    ensures Pop(p).unconfirmed + Pop(p).submitted == p.unconfirmed + p.submitted
    ensures p.unconfirmed <= Pop(p).unconfirmed
  {
    var n := PopCount(p);
    assert p.submitted == p.submitted[..n] + p.submitted[n..];
  }

  /** Over every run before the first block, what was handed out and what waits are together the accepted
      transactions, in the order in which they were accepted. */
  lemma {:induction false} LineIsArrival(steps: seq<Step>)
    requires forall s | s in steps :: !s.ConfirmStep?
    ensures Run(steps).pool.unconfirmed + Run(steps).pool.submitted == Run(steps).accepted
  {
    if steps != [] {
      var n := |steps| - 1;
      var p := Run(steps[..n]).pool;
      assert steps[n] in steps;
      LineIsArrival(steps[..n]);
      PopKeepsLine(p);
      if steps[n].AddStep? {
        assert p.unconfirmed + (p.submitted + [steps[n].tx]) == (p.unconfirmed + p.submitted) + [steps[n].tx];
      }
    }
  }

  /** Over every run the count is how many accepted transactions no block has confirmed yet. */
  lemma CountIsUnfinished(steps: seq<Step>)
    ensures var h := Run(steps);
            OpenCount(h.pool) == |h.accepted| - |h.confirmed|
  {
    EveryRun(steps);
    var h := Run(steps);
    hide Run;
    var open := multiset(h.pool.submitted) + multiset(h.pool.unconfirmed);
    assert |open + multiset(h.confirmed)| == |multiset(h.accepted)|;
  }

  // ---------------------------------------------------------------- exactly when sets and queues agree

  /** In every run that accepts these transactions in this order, the sets are the queues' keys. */
  ghost predicate AlwaysMatches(txs: seq<Transaction>) {
    forall steps :: Run(steps).accepted == txs ==> SetsMatchQueues(Run(steps).pool)
  }

  /** Each transaction is handed out as soon as it is accepted. */
  function HandOut(txs: seq<Transaction>): seq<Step> {
    if txs == [] then [] else HandOut(txs[..|txs| - 1]) + [AddStep(txs[|txs| - 1]), PopStep]
  }

  lemma {:induction false} AfterHandOut(txs: seq<Transaction>)
    ensures Run(HandOut(txs)) == History(Pool([], txs, {}, KeysOf(txs)), txs, [])
  {
    hide Run, KeysOf;
    if txs == [] {
      RunOfNone();
    } else {
      var n := |txs| - 1;
      var rest, tx := txs[..n], txs[n];
      AfterHandOut(rest);
      RunSnoc(HandOut(rest), AddStep(tx));
      RunSnoc(HandOut(rest) + [AddStep(tx)], PopStep);
      assert HandOut(txs) == HandOut(rest) + [AddStep(tx)] + [PopStep];
      assert [tx][..1] == [tx] && [tx][1..] == [];
      assert txs == rest + [tx];
      KeysOfOne(tx);
      KeysOfAppend(rest, [tx]);
    }
  }

  lemma RunOfNone()
    ensures Run([]) == START && KeysOf([]) == {}
  {
  }

  /** Confirming one of two handed-out transactions with the same key takes the key out of the set, and
      the second one stays in the queue. */
  lemma ConfirmFirstTwin(txs: seq<Transaction>, i: nat, j: nat)
    requires i < j < |txs| && txs[i].TxKeyOf() == txs[j].TxKeyOf()
    ensures !SetsMatchQueues(Confirm(Pool([], txs, {}, KeysOf(txs)), KeysOf([txs[i]])))
  {
    hide Consumed, Requeued, KeysOf;
    var k := txs[i].TxKeyOf();
    KeysOfOne(txs[i]);
    var n := Consumed({k}, txs);
    ConsumedIsShortest({k}, txs);
    MemberKey(txs[..i + 1], txs[i]);
    assert txs[..i + 1][i] == txs[i];
    assert n <= i + 1;
    assert k in KeysOf(txs[..n]);
    assert txs[n..][j - n] == txs[j];
    MemberKey(txs[n..], txs[j]);
  }

  /** Sets and queues agree in every run that accepts these transactions exactly when no two of them have
      the same key. */
  lemma SetsMatchExactlyWhenFresh(txs: seq<Transaction>)
    ensures AlwaysMatches(txs) <==> DistinctKeys(txs)
  {
    if DistinctKeys(txs) {
      forall steps | Run(steps).accepted == txs
        ensures SetsMatchQueues(Run(steps).pool)
      {
        FreshRunMatches(steps);
      }
    } else {
      var i, j :| 0 <= i < j < |txs| && txs[i].TxKeyOf() == txs[j].TxKeyOf();
      var header: Header := *;
      TwinsBreakMatch(txs, i, j, header);
    }
  }

  lemma TwinsBreakMatch(txs: seq<Transaction>, i: nat, j: nat, header: Header)
    requires i < j < |txs| && txs[i].TxKeyOf() == txs[j].TxKeyOf()
    ensures !AlwaysMatches(txs)
  {
    hide Run, KeysOf, Confirm, Consumed, Requeued, Matched, SetsMatchQueues;
    var step := ConfirmStep(Block(header, [txs[i]]));
    AfterHandOut(txs);
    RunSnoc(HandOut(txs), step);
    ConfirmFirstTwin(txs, i, j);
    assert Run(HandOut(txs) + [step]).accepted == txs;
  }

  /** The smallest case: after the same key is accepted twice and one copy is confirmed, the other is
      still handed out but no longer in the set. */
  lemma DuplicateKeyIsLost(a: Transaction, b: Transaction, block: Block)
    requires a.TxKeyOf() == b.TxKeyOf() && block.transactions == [a]
    ensures var p := Run([AddStep(a), AddStep(b), PopStep, ConfirmStep(block)]).pool;
            p.unconfirmed == [b] && p.unconfirmedSet == {} && !SetsMatchQueues(p)
  {
    RunOfFour(AddStep(a), AddStep(b), PopStep, ConfirmStep(block));
    hide Confirm, Consumed, Requeued, KeysOf, Run;
    var h2 := Next(Next(START, AddStep(a)), AddStep(b));
    assert h2.pool.submitted == [a, b];
    assert [a, b] == [a] + [b];
    KeysOfAppend([a], [b]);
    KeysOfOne(a);
    KeysOfOne(b);
    var p3 := Next(h2, PopStep).pool;
    assert [a, b][..2] == [a, b];
    assert p3.unconfirmed == [a, b];
    ConfirmTwins(p3, a, b);
  }

  lemma ConfirmTwins(p: Pool, a: Transaction, b: Transaction)
    requires p.unconfirmed == [a, b] && a.TxKeyOf() == b.TxKeyOf() && p.unconfirmedSet == {a.TxKeyOf()}
    ensures Confirm(p, {a.TxKeyOf()}).unconfirmed == [b] && Confirm(p, {a.TxKeyOf()}).unconfirmedSet == {}
  {
    var k := a.TxKeyOf();
    FirstOfQueue({k}, [a, b]);
    assert {k} - {k} == {};
    assert Consumed({}, [b]) == 0;
    assert [a, b][..1] == [a] && [a, b][1..] == [b];
    KeysOfOne(a);
  }

  lemma RunOfFour(s1: Step, s2: Step, s3: Step, s4: Step)
    ensures Run([s1, s2, s3, s4]) == Next(Next(Next(Next(START, s1), s2), s3), s4)
  {
    hide Next;
    assert [s1, s2, s3, s4][..3] == [s1, s2, s3];
    assert [s1, s2, s3][..2] == [s1, s2];
    assert [s1, s2][..1] == [s1];
    assert [s1][..0] == [];
    assert Run([s1]) == Next(START, s1);
    assert Run([s1, s2]) == Next(Run([s1]), s2);
    assert Run([s1, s2, s3]) == Next(Run([s1, s2]), s3);
  }

  /** After any run that never accepted a transaction with the reward's key, a block with a reward
      sends back everything that was handed out and is not in the block; the pool then holds nothing
      back for a validator that is still working. A block without transactions changes nothing. */
  lemma RewardDrainsPool(steps: seq<Step>, block: Block, wallet: Key, timestamp: nat)
    requires Reward(wallet, timestamp) in block.transactions
    requires Reward(wallet, timestamp).TxKeyOf() !in KeysOf(Run(steps).accepted)
    requires DistinctKeys(Run(steps).accepted)
    ensures var p, q := Run(steps).pool, Run(steps + [ConfirmStep(block)]).pool;
            q.unconfirmed == [] && q.submitted == p.submitted + WithoutKeys(KeysOf(block.transactions), p.unconfirmed)
  {
    hide Consumed, Requeued, Matched, WithoutKeys, CountKey, KeysOf, Run, DistinctKeys;
    var k := Reward(wallet, timestamp).TxKeyOf();
    var p := Run(steps).pool;
    var keys := KeysOf(block.transactions);
    MemberKey(block.transactions, Reward(wallet, timestamp));
    RunConservesKey(steps, k);
    CountPositive(Run(steps).accepted, k);
    CountPositive(p.unconfirmed, k);
    ForeignKeyDrains(keys, p.unconfirmed, k);
    RunDistinct(steps);
    RequeuedIsFilter(keys, p.unconfirmed);
    assert p.unconfirmed[..|p.unconfirmed|] == p.unconfirmed;
    RunSnoc(steps, ConfirmStep(block));
  }

  lemma MemberKey(txs: seq<Transaction>, tx: Transaction)
    requires tx in txs
    ensures tx.TxKeyOf() in KeysOf(txs)
  {
  }

  lemma RunSnoc(steps: seq<Step>, step: Step)
    ensures Run(steps + [step]) == Next(Run(steps), step)
  {
    assert (steps + [step])[..|steps|] == steps;
  }

  lemma EmptyBlockChangesNothing(p: Pool, block: Block)
    requires block.transactions == []
    ensures Confirm(p, KeysOf(block.transactions)) == p
  {
    assert KeysOf(block.transactions) == {};
    ConfirmNone(p, {});
  }

  /** What is handed out leaves room for the reward in a block. */
  lemma RoomForReward(p: Pool, wallet: Key, timestamp: nat)
    ensures |p.submitted[..PopCount(p)] + [Reward(wallet, timestamp)]| <= BLOCK_SIZE
    ensures PopCount(p) < BLOCK_SIZE - 1 ==> Pop(p).submitted == []
  {
  }
}
