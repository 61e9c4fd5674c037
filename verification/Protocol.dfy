/** The block protocol as a state machine. Each handler under its mutex is one step; a submission from
    the metronome to the blockchain is three: the metronome, holding its block mutex, sends the
    block; the blockchain stores it; the metronome hears back and moves on. Validators read the last
    header at any time and may submit blocks that have gone stale. */
module Protocol {
  import opened Bits
  import opened Radix
  import opened Coin
  import opened BlockChain
  import opened Metronome

  /** What the metronome is doing with its block mutex. */
  datatype Flight = Idle | Sent(block: Header) | Stored(block: Header)

  /** The blockchain's headers, the metronome's last block and submission, the header each validator
      is working from, and the blocks that validators have submitted but nobody has looked at. */
  datatype State = State(chain: seq<Header>, last: Header, flight: Flight,
                         current: map<nat, Header>, network: set<Header>)

  datatype Action =
    | Read(v: nat)
    | Propose(v: nat, input: HashInput, solution: Hash32, difficulty: Word, timestamp: nat)
    | Deliver(block: Header)
    | Timeout(input: HashInput, hash: Hash32, difficulty: Word, timestamp: nat)
    | Store
    | Acknowledge

  const NULL_HASH: Hash32 := Zeros(32)
  const NO_BLOCK_ID: Word := TWO_TO_32 - 1

  function Head(s: State): Header
    requires s.chain != []
  {
    s.chain[|s.chain| - 1]
  }

  /** create_block: the new block's header follows the one the validator read. */
  function Follow(prev: Header, input: HashInput, hash: Hash32, difficulty: Word, timestamp: nat): Header {
    Header(input, hash, prev.hash, difficulty, timestamp, NextId(prev.id))
  }

  /** One step; an action that is not possible changes nothing. */
  function Next(s: State, a: Action): (t: State)
    requires s.chain != []
    ensures t.chain != []
  {
    match a
    case Read(v) =>
      // request_new_block_header: take a header with a higher number, or any header at first.
      if v !in s.current || Head(s).id > s.current[v].id || s.current[v].id == NO_BLOCK_ID
      then s.(current := s.current[v := Head(s)])
      else s
    case Propose(v, input, solution, difficulty, timestamp) =>
      if v in s.current && solution != NULL_HASH
      then s.(network := s.network + {Follow(s.current[v], input, solution, difficulty, timestamp)})
      else s
    case Deliver(b) =>
      if s.flight.Idle? && b in s.network
      then
        var t := s.(network := s.network - {b});
        if b.id == NextId(s.last.id) then t.(flight := Sent(b)) else t
      else s
    case Timeout(input, hash, difficulty, timestamp) =>
      if s.flight.Idle? then s.(flight := Sent(Follow(s.last, input, hash, difficulty, timestamp))) else s
    case Store =>
      if s.flight.Sent? then s.(chain := s.chain + [s.flight.block], flight := Stored(s.flight.block)) else s
    case Acknowledge =>
      if s.flight.Stored? then s.(last := s.flight.block, flight := Idle) else s
  }

  /** The metronome starts from the head of a chain that holds the genesis block. */
  function Start(genesis: Header): State {
    State([genesis], genesis, Idle, map[], {})
  }

  function After(genesis: Header, actions: seq<Action>): (s: State)
    ensures s.chain != []
  {
    if actions == [] then Start(genesis)
    else Next(After(genesis, actions[..|actions| - 1]), actions[|actions| - 1])
  }

  // ---------------------------------------------------------------- the invariant

  /** Numbers are consecutive, modulo 2^32. */
  ghost predicate Consecutive(chain: seq<Header>) {
    forall i {:trigger chain[i].id} | 0 <= i < |chain| :: chain[i].id == (chain[0].id + i) % TWO_TO_32
  }

  /** Block `i` names the hash of its predecessor. */
  predicate LinkedAt(chain: seq<Header>, i: nat)
    requires 1 <= i < |chain|
  {
    chain[i].prevHash == chain[i - 1].hash
  }

  /** The header was built on block `i` of the chain. */
  predicate BuiltOn(chain: seq<Header>, b: Header, i: nat) {
    i < |chain| && b.prevHash == chain[i].hash && b.id == NextId(chain[i].id)
  }

  ghost predicate BuiltOnChain(chain: seq<Header>, b: Header) {
    exists i: nat :: BuiltOn(chain, b, i)
  }

  ghost predicate Inv(s: State) {
    && s.chain != [] && Consecutive(s.chain)
    && (forall i | 1 <= i < |s.chain| && i <= TWO_TO_32 :: LinkedAt(s.chain, i))
    && (match s.flight
        case Idle => s.last == Head(s)
        case Sent(b) => s.last == Head(s) && b.id == NextId(s.last.id) && BuiltOnChain(s.chain, b)
        case Stored(b) => |s.chain| >= 2 && s.last == s.chain[|s.chain| - 2] && b == Head(s))
    && (forall v | v in s.current :: s.current[v] in s.chain)
    && (forall b | b in s.network :: BuiltOnChain(s.chain, b))
  }

  lemma BuiltOnMember(chain: seq<Header>, prev: Header, b: Header)
    requires prev in chain && b.prevHash == prev.hash && b.id == NextId(prev.id)
    ensures BuiltOnChain(chain, b)
  {
    var i :| 0 <= i < |chain| && chain[i] == prev;
    assert BuiltOn(chain, b, i);
  }

  lemma BuiltOnLonger(chain: seq<Header>, more: seq<Header>, b: Header)
    requires BuiltOnChain(chain, b)
    ensures BuiltOnChain(chain + more, b)
  {
    var i: nat :| BuiltOn(chain, b, i);
    assert BuiltOn(chain + more, b, i);
  }

  /** Two numbers modulo 2^32 that are less than 2^32 steps apart agree only if they are the same. */
  lemma SameNumber(base: nat, i: nat, j: nat)
    requires i <= j < i + TWO_TO_32
    requires (base + i) % TWO_TO_32 == (base + j) % TWO_TO_32
    ensures i == j
  {
    var q, r := (base + i) / TWO_TO_32, (base + j) / TWO_TO_32;
    assert j - i == TWO_TO_32 * (r - q);
  }

  /** Storing a block that has the next number and was built on some block of the chain: it was built
      on the last one, unless the numbers have wrapped around. */
  lemma StoreKeepsChain(chain: seq<Header>, b: Header)
    requires chain != [] && Consecutive(chain)
    requires b.id == NextId(chain[|chain| - 1].id) && BuiltOnChain(chain, b)
    ensures Consecutive(chain + [b])
    ensures |chain| <= TWO_TO_32 ==> LinkedAt(chain + [b], |chain|)
  {
    var n := |chain|;
    NextNumber(chain[0].id + n - 1);
    forall i {:trigger (chain + [b])[i].id} | 0 <= i < n + 1
      ensures (chain + [b])[i].id == ((chain + [b])[0].id + i) % TWO_TO_32
    {
      if i < n {
        assert (chain + [b])[i] == chain[i];
      }
    }
    var i: nat :| BuiltOn(chain, b, i);
    if n <= TWO_TO_32 {
      NextNumber(chain[0].id + i);
      SameNumber(chain[0].id, i + 1, n);
    }
  }

  lemma NextStore(s: State)
    requires Inv(s) && s.flight.Sent?
    ensures Inv(Next(s, Store))
  {
    var b := s.flight.block;
    StoreKeepsChain(s.chain, b);
    var t := Next(s, Store);
    forall i | 1 <= i < |t.chain| && i <= TWO_TO_32
      ensures LinkedAt(t.chain, i)
    {
      if i < |s.chain| {
        assert LinkedAt(s.chain, i);
      }
    }
    forall c | c in t.network
      ensures BuiltOnChain(t.chain, c)
    {
      BuiltOnLonger(s.chain, [b], c);
    }
  }

  lemma NextKeepsInv(s: State, a: Action)
    requires Inv(s)
    ensures Inv(Next(s, a))
  {
    hide BuiltOnChain, LinkedAt, Consecutive;
    match a
    case Read(v) =>
    case Propose(v, input, solution, difficulty, timestamp) =>
      if v in s.current {
        BuiltOnMember(s.chain, s.current[v], Follow(s.current[v], input, solution, difficulty, timestamp));
      }
    case Deliver(b) =>
    case Timeout(input, hash, difficulty, timestamp) =>
      if s.flight.Idle? {
        BuiltOnMember(s.chain, s.last, Follow(s.last, input, hash, difficulty, timestamp));
      }
    case Store =>
      if s.flight.Sent? {
        NextStore(s);
      }
    case Acknowledge =>
  }

  lemma {:induction false} EveryRun(genesis: Header, actions: seq<Action>)
    ensures Inv(After(genesis, actions))
  {
    hide Inv, Next;
    if actions == [] {
      StartInv(genesis);
    } else {
      var n := |actions| - 1;
      EveryRun(genesis, actions[..n]);
      NextKeepsInv(After(genesis, actions[..n]), actions[n]);
    }
  }

  lemma StartInv(genesis: Header)
    ensures Inv(Start(genesis))
  {
  }

  lemma RunConsecutive(genesis: Header, actions: seq<Action>)
    ensures Consecutive(After(genesis, actions).chain)
  {
    hide After, Consecutive;
    EveryRun(genesis, actions);
  }

  lemma NumbersDiffer(chain: seq<Header>, i: nat, j: nat)
    requires Consecutive(chain) && i < j < |chain| && j - i < TWO_TO_32
    ensures chain[i].id != chain[j].id
  {
    assert chain[i].id == (chain[0].id + i) % TWO_TO_32 && chain[j].id == (chain[0].id + j) % TWO_TO_32;
    if chain[i].id == chain[j].id {
      SameNumber(chain[0].id, i, j);
    }
  }

  lemma NumbersFollow(chain: seq<Header>, i: nat)
    requires Consecutive(chain) && i + 1 < |chain|
    ensures chain[i + 1].id == NextId(chain[i].id)
  {
    assert chain[i].id == (chain[0].id + i) % TWO_TO_32 && chain[i + 1].id == (chain[0].id + (i + 1)) % TWO_TO_32;
    NextNumber(chain[0].id + i);
  }

  /** At most one block per height: over every run, two blocks less than 2^32 places apart have
      different numbers, and each number is one more than its predecessor's. */
  lemma OneBlockPerHeight(genesis: Header, actions: seq<Action>, i: nat, j: nat)
    requires i < j < |After(genesis, actions).chain| && j - i < TWO_TO_32
    ensures var chain := After(genesis, actions).chain;
            chain[i].id != chain[j].id && (j == i + 1 ==> chain[j].id == NextId(chain[i].id))
  {
    hide After, Consecutive, NextId;
    var chain := After(genesis, actions).chain;
    RunConsecutive(genesis, actions);
    NumbersDiffer(chain, i, j);
    NumbersFollow(chain, i);
  }

  /** The chain only grows: whatever happens later, nothing that is stored is changed or removed. */
  lemma {:induction false} ChainGrows(genesis: Header, actions: seq<Action>, later: seq<Action>)
    ensures After(genesis, actions).chain <= After(genesis, actions + later).chain
    decreases |later|
  {
    hide Next;
    if later == [] {
      assert actions + later == actions;
    } else {
      var n := |later| - 1;
      ChainGrows(genesis, actions, later[..n]);
      NextGrows(After(genesis, actions + later[..n]), later[n]);
      assert (actions + later)[..|actions + later| - 1] == actions + later[..n];
    }
  }

  lemma NextGrows(s: State, a: Action)
    requires s.chain != []
    ensures s.chain <= Next(s, a).chain
  {
  }

  /** A submission that nothing interrupts: the block is taken exactly when its number is the next one,
      and then it is both the head of the chain and the metronome's last block. */
  lemma UninterruptedSubmission(s: State, b: Header)
    requires s.chain != [] && s.flight.Idle? && s.last == Head(s) && b in s.network
    ensures var t := Next(Next(Next(s, Deliver(b)), Store), Acknowledge);
            && t.flight.Idle? && t.last == Head(t)
            && t.chain == (if b.id == NextId(s.last.id) then s.chain + [b] else s.chain)
            && t.network == s.network - {b} && t.current == s.current
  {
    if b.id == NextId(s.last.id) {
      assert Next(s, Deliver(b)).flight == Sent(b);
    }
  }

  lemma UninterruptedTimeout(s: State, input: HashInput, hash: Hash32, difficulty: Word, timestamp: nat)
    requires s.chain != [] && s.flight.Idle? && s.last == Head(s)
    ensures var b := Follow(s.last, input, hash, difficulty, timestamp);
            var t := Next(Next(Next(s, Timeout(input, hash, difficulty, timestamp)), Store), Acknowledge);
            t == s.(chain := s.chain + [b], last := b)
  {
  }

  /** What last_block answers is worth building on: a block on the header that a validator read is
      taken exactly when that header's number is still the head's. Before the numbers come round this
      means that it is the head, and the new block is linked to it. */
  lemma HeadIsExtended(s: State, v: nat, input: HashInput, solution: Hash32, difficulty: Word, timestamp: nat)
    requires Inv(s) && s.flight.Idle? && v in s.current && solution != NULL_HASH
    ensures var read := s.current[v];
            var b := Follow(read, input, solution, difficulty, timestamp);
            var sent := Next(s, Propose(v, input, solution, difficulty, timestamp));
            var t := Next(Next(Next(sent, Deliver(b)), Store), Acknowledge);
            && t.chain == (if read.id == Head(s).id then s.chain + [b] else s.chain)
            && (|s.chain| <= TWO_TO_32 ==>
                  && (read.id == Head(s).id <==> read == Head(s))
                  && (read == Head(s) ==> LinkedAt(s.chain + [b], |s.chain|)))
  {
    hide LinkedAt, NextId, Consecutive;
    var read := s.current[v];
    var b := Follow(read, input, solution, difficulty, timestamp);
    var sent := Next(s, Propose(v, input, solution, difficulty, timestamp));
    UninterruptedSubmission(sent, b);
    SameNext(read.id, Head(s).id);
    if |s.chain| <= TWO_TO_32 {
      SameNumberSameHeader(s, v);
      if read == Head(s) {
        LinksToHead(s.chain, b);
      }
    }
  }

  /** Equal numbers are equal headers, before the numbers come round. */
  lemma SameNumberSameHeader(s: State, v: nat)
    requires Inv(s) && v in s.current && |s.chain| <= TWO_TO_32
    ensures s.current[v].id == Head(s).id <==> s.current[v] == Head(s)
    ensures s.chain[0].id + |s.chain| <= TWO_TO_32 ==> s.current[v].id <= Head(s).id
  {
    hide LinkedAt, BuiltOnChain;
    var i :| 0 <= i < |s.chain| && s.chain[i] == s.current[v];
    assert s.chain[i].id == (s.chain[0].id + i) % TWO_TO_32;
    assert Head(s).id == (s.chain[0].id + (|s.chain| - 1)) % TWO_TO_32;
    if i < |s.chain| - 1 {
      NumbersDiffer(s.chain, i, |s.chain| - 1);
    }
  }

  /** What reading does, on a chain of at most 2^32 blocks: afterwards the validator has the head exactly if
      it had nothing, or nothing with a higher number, or the number it starts with; and always while the
      numbers have not passed 2^32. A header with a higher number, from before they did, is kept. */
  lemma ReadTakesHead(s: State, v: nat)
    requires Inv(s) && |s.chain| <= TWO_TO_32
    ensures var t := Next(s, Read(v));
            && v in t.current && t == s.(current := s.current[v := t.current[v]])
            && (t.current[v] == Head(s) <==>
                  v !in s.current || s.current[v].id <= Head(s).id || s.current[v].id == NO_BLOCK_ID)
            && (t.current[v] != Head(s) ==> v in s.current && t.current[v] == s.current[v])
            && (s.chain[0].id + |s.chain| <= TWO_TO_32 ==> t.current[v] == Head(s))
  {
    hide Inv;
    if v in s.current {
      SameNumberSameHeader(s, v);
      assert s.current[v := s.current[v]] == s.current;
    }
  }

  /** A validator that finds no solution submits nothing. */
  lemma NullSolutionSubmitsNothing(s: State, v: nat, input: HashInput, difficulty: Word, timestamp: nat)
    requires s.chain != []
    ensures Next(s, Propose(v, input, NULL_HASH, difficulty, timestamp)) == s
  {
  }

  /** Reading, solving and submitting without interruption extends the chain by a linked block, whatever the
      validator held before, while the numbers have not passed 2^32. */
  lemma HonestRound(s: State, v: nat, input: HashInput, solution: Hash32, difficulty: Word, timestamp: nat)
    requires Inv(s) && s.flight.Idle? && solution != NULL_HASH
    requires s.chain[0].id + |s.chain| <= TWO_TO_32
    ensures var b := Follow(Head(s), input, solution, difficulty, timestamp);
            var sent := Next(Next(s, Read(v)), Propose(v, input, solution, difficulty, timestamp));
            var t := Next(Next(Next(sent, Deliver(b)), Store), Acknowledge);
            t.chain == s.chain + [b] && LinkedAt(t.chain, |s.chain|)
  {
    hide Next, Inv, LinkedAt, Follow;
    ReadTakesHead(s, v);
    NextKeepsInv(s, Read(v));
    HeadIsExtended(Next(s, Read(v)), v, input, solution, difficulty, timestamp);
  }

  /** One submission at a time: until the blockchain stores it, a block in flight is neither lost nor
      overtaken, and neither chain nor metronome moves. */
  lemma {:induction false} FlightIsExclusive(genesis: Header, actions: seq<Action>, later: seq<Action>)
    requires After(genesis, actions).flight.Sent? && forall a | a in later :: !a.Store?
    ensures var s, t := After(genesis, actions), After(genesis, actions + later);
            && t.flight == s.flight && t.chain == s.chain && t.last == s.last
            && Next(t, Store).chain == s.chain + [s.flight.block]
    decreases |later|
  {
    hide After, Next;
    if later == [] {
      assert actions + later == actions;
    } else {
      var n := |later| - 1;
      assert later[n] in later;
      FlightIsExclusive(genesis, actions, later[..n]);
      AfterSnoc(genesis, actions + later[..n], later[n]);
      assert actions + later == (actions + later[..n]) + [later[n]];
      InFlight(After(genesis, actions + later[..n]), later[n]);
    }
    StoreAppends(After(genesis, actions + later));
  }

  lemma InFlight(s: State, a: Action)
    requires s.chain != [] && s.flight.Sent? && !a.Store?
    ensures var t := Next(s, a);
            t.flight == s.flight && t.chain == s.chain && t.last == s.last
  {
  }

  lemma StoreAppends(s: State)
    requires s.chain != [] && s.flight.Sent?
    ensures Next(s, Store).chain == s.chain + [s.flight.block]
  {
  }

  lemma SameNext(x: Word, y: Word)
    ensures NextId(x) == NextId(y) <==> x == y
  {
  }

  lemma LinksToHead(chain: seq<Header>, b: Header)
    requires chain != [] && b.prevHash == chain[|chain| - 1].hash
    ensures LinkedAt(chain + [b], |chain|)
  {
  }

  // ---------------------------------------------------------------- the servers refine the steps

  /** The chain and the metronome as this state machine sees them. */
  ghost predicate Shows(s: State, timer: Timer, chain: Chain)
    reads timer, chain
  {
    && timer.Synced(chain) && s.flight.Idle?
    && s.chain == HeadersOf(chain.blocks) && s.last == timer.lastBlock
  }

  function HeadersOf(blocks: seq<Block>): (headers: seq<Header>)
    ensures |headers| == |blocks| && forall i | 0 <= i < |blocks| :: headers[i] == blocks[i].header
  {
    seq(|blocks|, i requires 0 <= i < |blocks| => blocks[i].header)
  }

  /** handle_block on the servers is an uninterrupted submission of the block's header. */
  method HandleBlockIsSubmission(timer: Timer, chain: Chain, block: Block, ghost s: State)
    returns (accepted: bool, ghost t: State)
    requires Shows(s, timer, chain) && block.header in s.network
    modifies timer, chain
    ensures t == Next(Next(Next(s, Deliver(block.header)), Store), Acknowledge)
    ensures Shows(t, timer, chain) && (accepted <==> |t.chain| == |s.chain| + 1)
  {
    hide Next;
    UninterruptedSubmission(s, block.header);
    t := Next(Next(Next(s, Deliver(block.header)), Store), Acknowledge);
    ghost var before := chain.blocks;
    accepted := timer.HandleBlock(block, chain);
    if accepted {
      assert HeadersOf(before + [block]) == HeadersOf(before) + [block.header];
    }
  }

  /** submit_empty_block on the servers is an uninterrupted timeout. */
  method EmptyBlockIsTimeout(timer: Timer, chain: Chain, input: HashInput, hash: Hash32, timestamp: nat, ghost s: State)
    returns (ghost t: State)
    requires Shows(s, timer, chain)
    modifies timer, chain
    ensures t == Next(Next(Next(s, Timeout(input, hash, old(timer.difficulty), timestamp)), Store), Acknowledge)
    ensures Shows(t, timer, chain)
  {
    hide Next;
    UninterruptedTimeout(s, input, hash, timer.difficulty, timestamp);
    t := Next(Next(Next(s, Timeout(input, hash, timer.difficulty, timestamp)), Store), Acknowledge);
    ghost var before := chain.blocks;
    timer.SubmitEmptyBlock(chain, input, hash, timestamp);
    assert chain.blocks == before + [Block(timer.lastBlock, [])];
    assert HeadersOf(chain.blocks) == HeadersOf(before) + [timer.lastBlock];
  }

  // ---------------------------------------------------------------- exactly how far links hold

  /** In every run, the block at place `i`, once there, names the hash of its predecessor. */
  ghost predicate AlwaysLinkedAt(i: nat)
    requires i >= 1
  {
    forall genesis, actions :: i < |After(genesis, actions).chain| ==> LinkedAt(After(genesis, actions).chain, i)
  }

  const INPUT: HashInput := HashInput(Zeros(16), Zeros(32), 0)

  function Ones32(): (h: Hash32)
    ensures h != NULL_HASH
  {
    var h := seq<Byte>(32, _ => 1);
    assert h[0] == 1;
    h
  }

  /** `n` timeouts in a row, each an empty block with the given hash. */
  function EmptyBlocks(n: nat, hash: Hash32): seq<Action> {
    if n == 0 then []
    else EmptyBlocks(n - 1, hash) + [Timeout(INPUT, hash, MIN_DIFFICULTY, 0), Store, Acknowledge]
  }

  lemma AfterSnoc(genesis: Header, actions: seq<Action>, a: Action)
    ensures After(genesis, actions + [a]) == Next(After(genesis, actions), a)
  {
    assert (actions + [a])[..|actions|] == actions;
  }

  lemma AfterThree(genesis: Header, actions: seq<Action>, a: Action, b: Action, c: Action)
    ensures After(genesis, actions + [a, b, c]) == Next(Next(Next(After(genesis, actions), a), b), c)
  {
    hide Next, After;
    AfterSnoc(genesis, actions, a);
    AfterSnoc(genesis, actions + [a], b);
    AfterSnoc(genesis, actions + [a] + [b], c);
    assert actions + [a, b, c] == actions + [a] + [b] + [c];
  }

  /** What `n` empty blocks do to an idle state. */
  lemma {:induction false} AfterEmptyBlocks(genesis: Header, actions: seq<Action>, n: nat, hash: Hash32)
    requires var s := After(genesis, actions); s.flight.Idle? && s.last == Head(s)
    ensures var s, t := After(genesis, actions), After(genesis, actions + EmptyBlocks(n, hash));
            && t.flight.Idle? && t.last == Head(t) && t.current == s.current && t.network == s.network
            && |t.chain| == |s.chain| + n && s.chain <= t.chain
            && (n > 0 ==> t.last.hash == hash)
            && t.last.id == (s.last.id + n) % TWO_TO_32
  {
    hide After;
    if n == 0 {
      assert actions + EmptyBlocks(0, hash) == actions;
    } else {
      AfterEmptyBlocks(genesis, actions, n - 1, hash);
      var before := actions + EmptyBlocks(n - 1, hash);
      var tick := Timeout(INPUT, hash, MIN_DIFFICULTY, 0);
      AfterThree(genesis, before, tick, Store, Acknowledge);
      assert actions + EmptyBlocks(n, hash) == before + [tick, Store, Acknowledge];
      NextNumber(After(genesis, actions).last.id + n - 1);
    }
  }

  /** A validator that reads a header and submits its block only after 2^32 more blocks, or a multiple of
      that, is believed, and the link breaks. */
  lemma StaleBlockAccepted(k: nat, wrap: nat)
    requires wrap > 0 && wrap % TWO_TO_32 == 0
    ensures !AlwaysLinkedAt(k + wrap + 1)
  {
    hide After, LinkedAt, Next;
    var genesis := Header(INPUT, NULL_HASH, NULL_HASH, MIN_DIFFICULTY, 0, 0);
    var read := Read(0);
    var propose := Propose(0, INPUT, Ones32(), MIN_DIFFICULTY, 0);
    AfterNothing(genesis);
    AfterEmptyBlocks(genesis, [], k, NULL_HASH);
    var a0 := [] + EmptyBlocks(k, NULL_HASH);
    var s0 := After(genesis, a0);
    var stale := s0.last;
    assert stale.hash == NULL_HASH;

    AfterSnoc(genesis, a0, read);
    AfterSnoc(genesis, a0 + [read], propose);
    var a1 := a0 + [read] + [propose];
    var s1 := After(genesis, a1);
    var b := Follow(stale, INPUT, Ones32(), MIN_DIFFICULTY, 0);
    ReadAndPropose(s0);

    AfterEmptyBlocks(genesis, a1, wrap, Ones32());
    var a2 := a1 + EmptyBlocks(wrap, Ones32());
    var s2 := After(genesis, a2);
    assert s2.last.id == s1.last.id == stale.id by {
      DivModUnique(stale.id + wrap, TWO_TO_32, wrap / TWO_TO_32, stale.id);
    }

    AfterSnoc(genesis, a2, Deliver(b));
    AfterSnoc(genesis, a2 + [Deliver(b)], Store);
    DeliverAndStore(s2, b);
    var s3 := After(genesis, a2 + [Deliver(b)] + [Store]);
    assert s3.chain == s2.chain + [b];
    BreaksLink(s2.chain, b);
    assert !LinkedAt(s3.chain, k + wrap + 1);
  }

  /** A validator that has not read anything yet reads the head and proposes a block on it. */
  lemma ReadAndPropose(s: State)
    requires s.chain != [] && 0 !in s.current
    ensures var t := Next(Next(s, Read(0)), Propose(0, INPUT, Ones32(), MIN_DIFFICULTY, 0));
            && t.chain == s.chain && t.last == s.last && t.flight == s.flight
            && Follow(Head(s), INPUT, Ones32(), MIN_DIFFICULTY, 0) in t.network
  {
  }

  lemma DeliverAndStore(s: State, b: Header)
    requires s.chain != [] && s.flight.Idle? && b in s.network && b.id == NextId(s.last.id)
    ensures Next(Next(s, Deliver(b)), Store).chain == s.chain + [b]
  {
  }

  lemma AfterNothing(genesis: Header)
    ensures After(genesis, []) == Start(genesis)
  {
  }

  lemma BreaksLink(chain: seq<Header>, b: Header)
    requires chain != [] && b.prevHash != chain[|chain| - 1].hash
    ensures !LinkedAt(chain + [b], |chain|)
  {
  }

  /** Each block names its predecessor, in every run, at exactly the places up to 2^32: as long as the
      32-bit block number has not come round to a number used before. */
  lemma LinksHoldExactlyUntilWrap(i: nat)
    requires i >= 1
    ensures AlwaysLinkedAt(i) <==> i <= TWO_TO_32
  {
    if i <= TWO_TO_32 {
      forall genesis, actions | i < |After(genesis, actions).chain|
        ensures LinkedAt(After(genesis, actions).chain, i)
      {
        EveryRun(genesis, actions);
      }
    } else {
      var wrap := TWO_TO_32;
      StaleBlockAccepted(i - 1 - wrap, wrap);
    }
  }
}
