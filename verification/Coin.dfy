/** The coin's data: transactions, block headers, blocks. */
module Coin {
  import opened Bits
  import opened Radix

  const BLOCK_SIZE: nat := 8191
  const MINER_REWARD: nat := 50

  type Key = s: seq<Byte> | |s| == 32 witness seq(32, _ => 0)
  type Hash32 = s: seq<Byte> | |s| == 32 witness seq(32, _ => 0)
  type Uuid = s: seq<Byte> | |s| == 16 witness seq(16, _ => 0)

  const ZERO_KEY: Key := Zeros(32)

  /** Two transactions are equal to the pool when source and number agree. */
  datatype TxKey = TxKey(src: Key, id: nat)

  datatype Transaction = Transaction(src: Key, dest: Key, signature: seq<Byte>, id: nat, amount: Word, timestamp: nat) {
    function TxKeyOf(): TxKey {
      TxKey(src, id)
    }
  }

  datatype Status = Confirmed | Unconfirmed | Submitted | Unknown

  datatype HashInput = HashInput(fingerprint: Uuid, publicKey: Key, nonce: nat)

  datatype Header = Header(input: HashInput, hash: Hash32, prevHash: Hash32, difficulty: Word, timestamp: nat, id: Word)

  datatype Block = Block(header: Header, transactions: seq<Transaction>)

  /** The transaction keys of a queue or a block. */
  function KeysOf(txs: seq<Transaction>): set<TxKey> {
    set t | t in txs :: t.TxKeyOf()
  }

  lemma KeysOfAppend(a: seq<Transaction>, b: seq<Transaction>)
    ensures KeysOf(a + b) == KeysOf(a) + KeysOf(b)
  {
  }

  lemma KeysOfFirst(q: seq<Transaction>)
    requires q != []
    ensures KeysOf(q) == {q[0].TxKeyOf()} + KeysOf(q[1..])
  {
    assert q == [q[0]] + q[1..];
    KeysOfAppend([q[0]], q[1..]);
  }

  /** No two transactions share a key. */
  predicate DistinctKeys(txs: seq<Transaction>) {
    forall i, j | 0 <= i < j < |txs| :: txs[i].TxKeyOf() != txs[j].TxKeyOf()
  }

  /** create_reward_transaction */
  function Reward(wallet: Key, timestamp: nat): Transaction {
    Transaction(ZERO_KEY, wallet, Zeros(64), 0, MINER_REWARD, timestamp)
  }
}
