/** The metronome: it lets through blocks that follow the last one it knows, fills gaps with empty
    blocks, and adjusts the difficulty. */
module Metronome {
  import opened Bits
  import opened Coin
  import opened BlockChain

  const BLOCK_TIME: nat := 6
  const MIN_DIFFICULTY: Word := 20

  /** The number a block must have to follow a header. */
  function NextId(id: Word): Word {
    (id + 1) % TWO_TO_32
  }

  /** `curr - prev` on 64-bit times, stored in a 32-bit signed integer. */
  function SolvedTime(curr: nat, prev: nat): int {
    ToInt32((curr - prev) % TWO_TO_32)
  }

  /** update_difficulty: down after a timeout but not below the minimum, up after a quick solution. */
  function NextDifficulty(difficulty: Word, timedOut: bool, solvedTime: int): Word {
    if timedOut then
      if difficulty <= MIN_DIFFICULTY then difficulty else difficulty - 1
    else if solvedTime < BLOCK_TIME / 2 * 1000000 then (difficulty + 1) % TWO_TO_32
    else difficulty
  }

  /** The minimum is kept as long as the difficulty does not wrap around. */
  lemma DifficultyKeepsMinimum(difficulty: Word, timedOut: bool, solvedTime: int)
    requires MIN_DIFFICULTY <= difficulty
    ensures var d := NextDifficulty(difficulty, timedOut, solvedTime);
            MIN_DIFFICULTY <= d <==>
            !(difficulty == TWO_TO_32 - 1 && !timedOut && solvedTime < BLOCK_TIME / 2 * 1000000)
  {
    if difficulty < TWO_TO_32 - 1 {
      assert (difficulty + 1) % TWO_TO_32 == difficulty + 1;
    }
  }

  /** Over any sequence of rounds, each timed out or solved in some time, the difficulty starts and
      stays at the minimum or above, and rises by at most one a round. */
  function DifficultyAfter(rounds: seq<(bool, int)>): Word {
    if rounds == [] then MIN_DIFFICULTY
    else
      var n := |rounds| - 1;
      NextDifficulty(DifficultyAfter(rounds[..n]), rounds[n].0, rounds[n].1)
  }

  lemma {:induction false} DifficultyBounds(rounds: seq<(bool, int)>)
    requires |rounds| < TWO_TO_32 - MIN_DIFFICULTY
    ensures MIN_DIFFICULTY <= DifficultyAfter(rounds) <= MIN_DIFFICULTY + |rounds|
  {
    if rounds != [] {
      DifficultyBounds(rounds[..|rounds| - 1]);
    }
  }

  /** Exactly when the difficulty moves: down by one after a timeout above the minimum, up by one after a
      block solved in less than three seconds, and otherwise not at all. */
  lemma DifficultyMoves(difficulty: Word, timedOut: bool, solvedTime: int)
    ensures var d := NextDifficulty(difficulty, timedOut, solvedTime);
            && (d == difficulty - 1 <==> timedOut && difficulty > 20)
            && (d == NextId(difficulty) <==> !timedOut && solvedTime < 3_000_000)
            && (d == difficulty <==> if timedOut then difficulty <= 20 else solvedTime >= 3_000_000)
  {
    if difficulty < TWO_TO_32 - 1 {
      assert NextId(difficulty) == difficulty + 1;
    }
  }

  /** `n` rounds that time out. */
  function Timeouts(n: nat): (rounds: seq<(bool, int)>)
    ensures |rounds| == n
  {
    seq(n, _ => (true, 0))
  }

  /** Timeouts take back what quick rounds have added, down to the minimum. */
  lemma {:induction false} TimeoutsLower(n: nat, k: nat)
    requires MIN_DIFFICULTY + n < TWO_TO_32
    ensures DifficultyAfter(QuickRounds(n) + Timeouts(k)) == if k <= n then MIN_DIFFICULTY + n - k else MIN_DIFFICULTY
    decreases k
  {
    var rounds := QuickRounds(n) + Timeouts(k);
    if k == 0 {
      assert rounds == QuickRounds(n);
      QuickRoundsRaise(n);
    } else {
      assert rounds[..n + k - 1] == QuickRounds(n) + Timeouts(k - 1);
      TimeoutsLower(n, k - 1);
    }
  }

  /** The time between two blocks is measured exactly when it is within 2^31 microseconds; above that, for
      about 36 minutes more, it is negative. */
  lemma SolvedTimeExact(curr: nat, prev: nat)
    ensures SolvedTime(curr, prev) == curr - prev <==> -(TWO_TO_32 / 2) <= curr - prev < TWO_TO_32 / 2
    ensures TWO_TO_32 / 2 <= curr - prev < TWO_TO_32 ==> SolvedTime(curr, prev) < 0
  {
    ToInt32Exact((curr - prev) % TWO_TO_32);
    var q := (curr - prev) / TWO_TO_32;
    if -(TWO_TO_32 / 2) <= curr - prev < 0 {
      DivModUnique(curr - prev, TWO_TO_32, -1, curr - prev + TWO_TO_32);
    } else if 0 <= curr - prev < TWO_TO_32 {
      DivModUnique(curr - prev, TWO_TO_32, 0, curr - prev);
    }
  }

  /** `n` rounds that are all solved at once. */
  function QuickRounds(n: nat): (rounds: seq<(bool, int)>)
    ensures |rounds| == n
  {
    seq(n, _ => (false, 0))
  }

  /** The bound is reached, and one round more than it allows wraps around: quick rounds alone raise the
      difficulty by one each, modulo 2^32. */
  lemma {:induction false} QuickRoundsRaise(n: nat)
    ensures DifficultyAfter(QuickRounds(n)) == (MIN_DIFFICULTY + n) % TWO_TO_32
  {
    if n > 0 {
      QuickRoundsRaise(n - 1);
      assert QuickRounds(n)[..n - 1] == QuickRounds(n - 1);
      NextNumber(MIN_DIFFICULTY + n - 1);
    }
  }

  /** Counting on 32-bit words is counting modulo 2^32. */
  lemma NextNumber(x: nat)
    ensures NextId(x % TWO_TO_32) == (x + 1) % TWO_TO_32
  {
    var q, r := x / TWO_TO_32, x % TWO_TO_32;
    if r + 1 == TWO_TO_32 {
      DivModUnique(x + 1, TWO_TO_32, q + 1, 0);
    } else {
      DivModUnique(x + 1, TWO_TO_32, q, r + 1);
    }
  }

  class Timer {
    var sleeping: bool
    var prevSolvedTime: nat
    var currSolvedTime: nat
    var difficulty: Word
    var lastBlock: Header
    var activeValidators: nat

    /** Between submissions the metronome knows the head of the chain. */
    ghost predicate Synced(chain: Chain)
      reads this, chain
    {
      chain.Valid() && lastBlock == chain.blocks[|chain.blocks| - 1].header
    }

    /** The solved times are not initialised by the program; they come in as parameters. */
    constructor (chain: Chain, prev: nat, curr: nat)
      requires chain.Valid()
      ensures Synced(chain) && sleeping && difficulty == MIN_DIFFICULTY && activeValidators == 0
    {
      difficulty := MIN_DIFFICULTY;
      sleeping := true;
      prevSolvedTime, currSolvedTime := prev, curr;
      activeValidators := 0;
      lastBlock := chain.blocks[|chain.blocks| - 1].header;
    }

    /** handle_block: a block is taken exactly when its number is the next one. */
    method HandleBlock(block: Block, chain: Chain) returns (accepted: bool)
      requires Synced(chain)
      modifies this, chain
      ensures Synced(chain) && difficulty == old(difficulty) && activeValidators == old(activeValidators)
      ensures accepted == (block.header.id == NextId(old(lastBlock.id)))
      ensures accepted ==>
                && chain.blocks == old(chain.blocks) + [block] && lastBlock == block.header
                && prevSolvedTime == old(currSolvedTime) && currSolvedTime == block.header.timestamp && !sleeping
      ensures !accepted ==>
                && chain.blocks == old(chain.blocks) && chain.ledger == old(chain.ledger)
                && lastBlock == old(lastBlock) && sleeping == old(sleeping)
                && prevSolvedTime == old(prevSolvedTime) && currSolvedTime == old(currSolvedTime)
    {
      if block.header.id != NextId(lastBlock.id) {
        return false;
      }
      chain.AddBlock(block);
      prevSolvedTime := currSolvedTime;
      currSolvedTime := block.header.timestamp;
      lastBlock := block.header;
      sleeping := false;
      return true;
    }

    /** submit_empty_block: the empty block always continues the chain. */
    method SubmitEmptyBlock(chain: Chain, input: HashInput, hash: Hash32, timestamp: nat)
      requires Synced(chain)
      modifies this, chain
      ensures Synced(chain) && chain.blocks == old(chain.blocks) + [Block(lastBlock, [])]
      ensures lastBlock ==
              Header(input, hash, old(lastBlock.hash), old(difficulty), timestamp, NextId(old(lastBlock.id)))
      ensures chain.ledger == old(chain.ledger)
      ensures prevSolvedTime == old(currSolvedTime) && currSolvedTime == timestamp
      ensures difficulty == old(difficulty) && sleeping == old(sleeping) && activeValidators == old(activeValidators)
    {
      var header := Header(input, hash, lastBlock.hash, difficulty, timestamp, NextId(lastBlock.id));
      TransactionsSnoc(chain.blocks, Block(header, []));
      assert TransactionsOf(chain.blocks) + [] == TransactionsOf(chain.blocks);
      chain.AddBlock(Block(header, []));
      prevSolvedTime := currSolvedTime;
      currSolvedTime := timestamp;
      lastBlock := header;
    }

    /** update_difficulty */
    method UpdateDifficulty(timedOut: bool)
      modifies this`difficulty
      ensures difficulty == NextDifficulty(old(difficulty), timedOut, SolvedTime(currSolvedTime, prevSolvedTime))
    {
      var solvedTime := SolvedTime(currSolvedTime, prevSolvedTime);
      if timedOut {
        if difficulty <= MIN_DIFFICULTY {
          return;
        }
        difficulty := difficulty - 1;
      } else if solvedTime < BLOCK_TIME / 2 * 1000000 {
        difficulty := (difficulty + 1) % TWO_TO_32;
      }
    }

    /** One round of the start loop, once the wait has ended: the timer sleeps again, the difficulty is
        adjusted, and after a timeout an empty block is submitted. */
    method Round(chain: Chain, timedOut: bool, input: HashInput, hash: Hash32, timestamp: nat)
      requires Synced(chain)
      modifies this, chain
      ensures Synced(chain) && sleeping
      ensures difficulty ==
              NextDifficulty(old(difficulty), timedOut, SolvedTime(old(currSolvedTime), old(prevSolvedTime)))
      ensures chain.blocks == old(chain.blocks) + (if timedOut then [Block(lastBlock, [])] else [])
      ensures chain.ledger == old(chain.ledger)
      ensures timedOut ==>
                && lastBlock ==
                   Header(input, hash, old(lastBlock.hash), difficulty, timestamp, NextId(old(lastBlock.id)))
                && prevSolvedTime == old(currSolvedTime) && currSolvedTime == timestamp
      ensures !timedOut ==>
                && lastBlock == old(lastBlock)
                && prevSolvedTime == old(prevSolvedTime) && currSolvedTime == old(currSolvedTime)
      ensures activeValidators == old(activeValidators)
    {
      sleeping := true;
      UpdateDifficulty(timedOut);
      if timedOut {
        SubmitEmptyBlock(chain, input, hash, timestamp);
      }
    }
  }
}
