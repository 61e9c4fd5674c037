/** The blockchain server: its blocks and its ledger, in place. */
module BlockChain {
  import opened Bits
  import opened Base58
  import opened Coin
  import opened Ledger
  import TxPool

  function TransactionsOf(blocks: seq<Block>): seq<Transaction> {
    if blocks == [] then []
    else TransactionsOf(blocks[..|blocks| - 1]) + blocks[|blocks| - 1].transactions
  }

  lemma TransactionsSnoc(blocks: seq<Block>, b: Block)
    ensures TransactionsOf(blocks + [b]) == TransactionsOf(blocks) + b.transactions
  {
    assert (blocks + [b])[..|blocks|] == blocks;
  }

  lemma {:induction false} ApplyAppend(l: Balances, a: seq<Transaction>, b: seq<Transaction>)
    ensures ApplyAll(l, a + b) == ApplyAll(ApplyAll(l, a), b)
    decreases |b|
  {
    hide Apply;
    if b == [] {
      assert a + b == a;
    } else {
      var n := |b| - 1;
      ApplyAppend(l, a, b[..n]);
      assert (a + b)[..|a + b| - 1] == a + b[..n];
    }
  }

  /** A 32-bit word read as a signed number, as the total is sent. */
  function ToInt32(w: Word): int {
    if w < TWO_TO_32 / 2 then w else w - TWO_TO_32
  }

  /** The signed number is congruent to the word, and within 32 bits. */
  lemma ToInt32Exact(w: Word)
    ensures -(TWO_TO_32 / 2) <= ToInt32(w) < TWO_TO_32 / 2
    ensures ToInt32(w) % TWO_TO_32 == w
  {
    if w >= TWO_TO_32 / 2 {
      DivModUnique(w - TWO_TO_32, TWO_TO_32, -1, w);
    }
  }

  class Chain {
    var blocks: seq<Block>
    var ledger: Balances

    /** There is a genesis block, and the ledger is what the blocks' transactions make of nothing. */
    ghost predicate Valid()
      reads this
    {
      blocks != [] && ledger == ApplyAll(map[], TransactionsOf(blocks))
    }

    /** load_genesis */
    constructor (genesis: Block)
      ensures Valid() && blocks == [genesis]
    {
      blocks := [genesis];
      ledger := map[];
      new;
      SyncBal(genesis);
      TransactionsSnoc([], genesis);
      assert [] + genesis.transactions == genesis.transactions;
      assert [] + [genesis] == [genesis];
    }

    /** sync_bal */
    method SyncBal(b: Block)
      modifies this`ledger
      ensures ledger == ApplyAll(old(ledger), b.transactions)
    {
      hide IsMint, Encode;
      var nt := 0;
      while nt < |b.transactions|
        invariant 0 <= nt <= |b.transactions|
        invariant ledger == ApplyAll(old(ledger), b.transactions[..nt])
      {
        var t := b.transactions[nt];
        assert b.transactions[..nt + 1][..nt] == b.transactions[..nt];
        nt := nt + 1;
        ghost var before := ledger;
        var srcPresent, dstPresent := t.src in ledger, t.dest in ledger;
        if dstPresent {
          ledger := ledger[t.dest := Wrap(ledger[t.dest] + t.amount)];
        } else {
          ledger := ledger[t.dest := t.amount];
        }
        if IsMint(t.src) {
          assert ledger == Apply(before, t);
          continue;
        }
        if srcPresent {
          ledger := ledger[t.src := Wrap(ledger[t.src] - t.amount)];
        } else if t.src !in ledger {
          ledger := ledger[t.src := Wrap(0 - t.amount)];
        }
        assert ledger == Apply(before, t);
      }
      assert b.transactions[..nt] == b.transactions;
    }

    /** add_block, up to its reply: any block is appended. */
    method AddBlock(block: Block)
      requires Valid()
      modifies this
      ensures Valid() && blocks == old(blocks) + [block]
    {
      TransactionsSnoc(blocks, block);
      ApplyAppend(map[], TransactionsOf(blocks), block.transactions);
      blocks := blocks + [block];
      SyncBal(block);
    }

    /** last_block */
    method LastBlock() returns (header: Header)
      requires Valid()
      ensures header == blocks[|blocks| - 1].header
    {
      header := blocks[|blocks| - 1].header;
    }

    /** get_balance: what the account received less what it sent, as long as no absent account has
        paid itself. */
    method GetBalance(key: Key) returns (balance: Word)
      requires Valid()
      ensures var txs := TransactionsOf(blocks);
              balance == Wrap(TotalEffect(txs, key) + TotalCreated(map[], txs, key))
    {
      hide ApplyAll, TotalEffect, TotalCreated, TransactionsOf, Wrap;
      BalanceOf(map[], TransactionsOf(blocks), key);
      balance := if key in ledger then ledger[key] else 0;
    }

    /** tx_status: a transaction is confirmed exactly when some block has its source and number. */
    method TxStatus(src: Key, id: nat) returns (status: Status)
      requires Valid()
      ensures status == if TxKey(src, id) in KeysOf(TransactionsOf(blocks)) then Confirmed else Unknown
    {
      var nb := 0;
      while nb < |blocks|
        invariant 0 <= nb <= |blocks|
        invariant TxKey(src, id) !in KeysOf(TransactionsOf(blocks[..nb]))
      {
        var b := blocks[nb];
        SplitAt(blocks, nb);
        var nt := 0;
        while nt < |b.transactions|
          invariant 0 <= nt <= |b.transactions|
          invariant forall i | 0 <= i < nt :: b.transactions[i].TxKeyOf() != TxKey(src, id)
        {
          var t := b.transactions[nt];
          if t.src == src && t.id == id {
            assert t.TxKeyOf() == TxKey(src, id);
            KeyInBlock(blocks, nb, t);
            return Confirmed;
          }
          nt := nt + 1;
        }
        nb := nb + 1;
      }
      assert blocks[..nb] == blocks;
      return Unknown;
    }

    /** get_total_coins: the sum over the ledger, with 32-bit wrap-around, is what was issued. */
    method GetTotalCoins() returns (total: int)
      requires Valid()
      ensures total == ToInt32(Wrap(Issued(map[], TransactionsOf(blocks))))
    {
      hide Sum, Wrap, ApplyAll, Issued, TransactionsOf;
      var sum: Word := 0;
      var rest := ledger;
      while rest != map[]
        invariant Wrap(sum + Sum(rest)) == Wrap(Sum(ledger))
        decreases |rest|
      {
        var key :| key in rest;
        SumAny(rest, key);
        WrapSum(sum + rest[key], Sum(rest - {key}));
        sum := Wrap(sum + rest[key]);
        rest := rest - {key};
      }
      SumEmpty();
      WrapWord(sum);
      TotalIsIssued(map[], TransactionsOf(blocks));
      total := ToInt32(sum);
    }
  }

  lemma SplitAt(blocks: seq<Block>, n: nat)
    requires n < |blocks|
    ensures KeysOf(TransactionsOf(blocks[..n + 1])) ==
            KeysOf(TransactionsOf(blocks[..n])) + KeysOf(blocks[n].transactions)
  {
    assert blocks[..n + 1] == blocks[..n] + [blocks[n]];
    TransactionsSnoc(blocks[..n], blocks[n]);
    KeysOfAppend(TransactionsOf(blocks[..n]), blocks[n].transactions);
  }

  lemma {:induction false} KeyInBlock(blocks: seq<Block>, i: nat, t: Transaction)
    requires i < |blocks| && t in blocks[i].transactions
    ensures t.TxKeyOf() in KeysOf(TransactionsOf(blocks))
    decreases |blocks|
  {
    var n := |blocks| - 1;
    SplitAt(blocks, n);
    assert blocks[..n + 1] == blocks;
    if i < n {
      KeyInBlock(blocks[..n], i, t);
    }
  }

  // ---------------------------------------------------------------- asking the pool and the chain

  /** The chain holds every block that the pool was told of. */
  ghost predicate Told(steps: seq<TxPool.Step>, blocks: seq<Block>) {
    forall s | s in steps && s.ConfirmStep? :: s.block in blocks
  }

  lemma ToldIsConfirmed(steps: seq<TxPool.Step>, blocks: seq<Block>, key: TxKey)
    requires Told(steps, blocks)
    ensures forall s | s in steps && s.ConfirmStep? && key in KeysOf(s.block.transactions) ::
              key in KeysOf(TransactionsOf(blocks))
  {
    hide TransactionsOf;
    forall s | s in steps && s.ConfirmStep? && key in KeysOf(s.block.transactions)
      ensures key in KeysOf(TransactionsOf(blocks))
    {
      var i :| 0 <= i < |blocks| && blocks[i] == s.block;
      var t :| t in blocks[i].transactions && t.TxKeyOf() == key;
      KeyInBlock(blocks, i, t);
    }
  }

  /** The status query from end to end, the pool passing the question on to the blockchain. A key that was
      never accepted is confirmed exactly when a block holds it, and unknown otherwise; one that was accepted
      is where the answer says. */
  method AskStatus(pool: TxPool.TransactionPool, chain: Chain, key: TxKey, ghost steps: seq<TxPool.Step>)
    returns (status: Status)
    requires chain.Valid() && Told(steps, chain.blocks) && pool.Value() == TxPool.Run(steps).pool
    ensures key !in KeysOf(TxPool.Run(steps).accepted) ==>
              status == if key in KeysOf(TransactionsOf(chain.blocks)) then Confirmed else Unknown
    ensures DistinctKeys(TxPool.Run(steps).accepted) && key in KeysOf(TxPool.Run(steps).accepted) ==>
              match status
              case Submitted => key in KeysOf(pool.submittedQueue)
              case Unconfirmed => key in KeysOf(pool.unconfirmedQueue)
              case Confirmed => key in KeysOf(TxPool.Run(steps).confirmed)
              case Unknown => false
  {
    hide KeysOf, DistinctKeys, TransactionsOf, TxPool.Run;
    var chainStatus := chain.TxStatus(key.src, key.id);
    ToldIsConfirmed(steps, chain.blocks, key);
    if key in KeysOf(TxPool.Run(steps).accepted) {
      if DistinctKeys(TxPool.Run(steps).accepted) {
        TxPool.StatusTellsPlace(steps, key, chainStatus);
      }
    } else {
      TxPool.ForeignKeyAsksChain(steps, key, chainStatus);
    }
    status := pool.QueryTxStatus(key, chainStatus);
  }
}
