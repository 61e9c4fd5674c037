# Verified model of a small proof-of-work coin

The system is a coin made of cooperating servers: a transaction pool, a blockchain that keeps the blocks
and the ledger, a metronome that lets one block through every few seconds, and validators that search for
proofs. Blocks are identified by BLAKE3 hashes, keys are written in Base58. This project models the four
parts of it whose correctness cannot be settled by trying inputs, and proves them for all inputs and all
runs:

* **BLAKE3 tree hashing** (`Blake3*.dfy`, `Bits.dfy`). `Blake3Spec` defines the hash as sections 2.1 and
  2.4 to 2.6 of "BLAKE3: one function, fast everywhere" do: a recursive left-balanced tree over chunks, a
  root, a stream of output blocks. The compression function is an arbitrary function, so nothing below
  depends on its rounds. The streaming hasher is then modelled as the program has it: a chunk state with a
  64-byte buffer, a stack of chaining values that is merged lazily by counting bits, subtrees of any power
  of two, a recursive wide hash for any SIMD degree that writes into arrays at computed offsets, layers of
  parents that pass an odd value through. `HashPieces` is the main result: whatever the pieces, the platform
  and the seek position, the bytes that come out are those of the recursive tree over the whole message.
  `Blake3Collision` shows what that tree is worth: two messages with one hash are a collision of the compression
  function itself.
* **Base58** (`Base58*.dfy`, `Radix.dfy`). `Base58` says what encoding and decoding mean, and that they undo
  each other; `Base58Codec` has the two in-place converters with their early stop, size estimate, masks and
  32-bit words, each proved to compute exactly that.
* **The coin protocol** (`Coin.dfy`, `TxPool.dfy`, `Ledger.dfy`, `BlockChain.dfy`, `Metronome.dfy`,
  `Protocol.dfy`). Each server is a class whose handlers change its fields; each handler runs under its
  server's mutex and is one step. `TxPool.Run` and `Protocol.After` are runs of any length and interleaving;
  a submission on its way from the metronome to the blockchain is several steps of its own.
* **Proof search** (`Digest.dfy`, `Pow.dfy`, `Pom.dfy`). Difficulty as arithmetic, and what the two searches
  find.

## Where the code does not do what one would expect

Each of these is proved, with the exact condition under which the expected property holds.

* A transfer from an account that is not in the ledger to itself creates its amount out of nothing
  (`Ledger.SelfTransferCreatesCoins`): the debit adds an account, and the credit has just added the same one.
  The mint is the only source of coins exactly when such transfers add up to a multiple of 2^32
  (`Ledger.OnlyTheMintIssues`).
* For the same reason the order of transactions can matter (`Ledger.OrderMatters`). Two orders give the same
  ledger exactly when such transfers create the same amounts, modulo 2^32, in every account
  (`Ledger.OrderIrrelevant`).
* Block numbers are 32 bits wide. A validator that holds a header for 2^32 blocks is believed when it submits
  a block built on it, and the hash link breaks. Links hold at exactly the places up to 2^32
  (`Protocol.LinksHoldExactlyUntilWrap`).
* The prefix search sorts by bytes but matches by bits, lowest bit first. It finds a match whenever there is
  one exactly at the difficulties that are whole bytes (`ProofOfMemory.SearchCompleteForWholeBytes`). At the
  others it still finds some match whenever an entry agrees with the target on the whole bytes that hold the
  difficulty's bits (`ProofOfMemory.SearchFinds`).
* Accepting two transactions with the same key can leave a handed-out copy that the pool's set has forgotten
  (`TxPool.DuplicateKeyIsLost`). Sets and queues agree in every run that accepts given transactions exactly when
  no two of them have the same key (`TxPool.SetsMatchExactlyWhenFresh`).
* A Base58 text that decodes need not be the encoding of the buffer: "2" is not, in any buffer of two bytes or more
  (`Base58.ShortTextChanges`). It is exactly when the text stands for as many bytes as the buffer has
  (`Base58.DecodeEncode`). The decoders of keys, signatures and identifiers do not look at the size reported, so
  several texts are the same key (`Base58Codec.DecodeKey`, `Base58.OneMoreOne`).
* The difficulty keeps its minimum except in one step, the one in which it wraps around
  (`Metronome.DifficultyKeepsMinimum`), and quick rounds do lead there (`Metronome.QuickRoundsRaise`).

One consequence of the code as it is: every block of a validator holds a reward, whose key the pool has never handed
out. Confirming it therefore drains everything handed out, to other validators as well, and sends it back
(`TxPool.RewardDrainsPool`).

## How a method is specified

A method that changes state is proved against a function or predicate of the old state (`Node` and `Stream`
for the hasher, `Encode` and `Decode` for the codec, `Add`, `Pop` and `Confirm` for the pool, `ApplyAll` for
the ledger), and the properties are lemmas about these. The hasher's ghost fields are the message so far and
the boundaries of the stack's entries; its `Valid` ties every stack entry to the chaining value of the chunks
it covers.

`dafny verify dfyconfig.toml` checks everything.

## Model

| member | source | states |
|---|---|---|
| `Bits.MaskIsMod` | external/blake3/blake3.c:521 | For a power of two p, the mask test of update is the remainder: `(p - 1) & c` is c mod p. |
| `Bits.ClearLowBit` | external/blake3/blake3_impl.h:129 | `x & (x - 1)` takes away exactly the lowest set bit, and so one from the population count. |
| `Bits.Popcnt` | external/blake3/blake3_impl.h:122-133 | The fallback loop counts the binary ones of any number. |
| `Bits.HighestOneStep` | external/blake3/blake3_impl.h:111-116 | One line of the fallback: at most 2s bits left before it, at most s after it, and the word is still the original shifted down by the count. |
| `Bits.HighestOne` | external/blake3/blake3_impl.h:92-119 | The six steps find the index of the highest set bit of every non-zero 64-bit word. |
| `Bits.RoundDownToPowerOf2` | external/blake3/blake3_impl.h:135-139 | The largest power of two at most x, and 1 for 0. |
| `Blake3Spec.LoadStoreWords` | external/blake3/blake3_impl.h:147-182 | Loading key words undoes storing chaining-value words, for any list of words. |
| `Digest.WordsAreLittleEndian` | external/blake3/blake3_impl.h:147-151 | The words of a block are its bytes four by four, as little-endian numbers. |
| `Blake3Spec.NodeBelowRoot` | external/blake3/blake3.c:142-152 | No node of the tree carries the ROOT flag, in any mode. |
| `Blake3Spec.RootFlagOnlyAtRoot` | external/blake3/blake3.c:89-96 | The root node, and with it every input of the output compressions, is the same under any two kernels that agree on compressions without ROOT. |
| `Blake3Tree.CondenseKeepsTree` | external/blake3/blake3.c:212-245 | Replacing a list of chaining values by the parents of adjacent pairs, an odd last one passed through, keeps the left-balanced tree over the list, and from three values on both children of its root. |
| `Blake3Tree.CondenseHalves` | external/blake3/blake3.c:354-358 | The condensed list splits where the list split: its halves are the condensed halves. |
| `Blake3Tree.LeavesAppend` | external/blake3/blake3.c:168-205 | The chunks of a + b are those of a and then those of b, when a is whole chunks. |
| `Blake3Tree.LeavesTree` | external/blake3/blake3.c:157-162 | The left-balanced tree over the list of chunk chaining values is the recursive tree over the bytes, and its root node is the parent of the same two values. |
| `Blake3Tree.JoinHalves` | external/blake3/blake3.c:282-320 | A power-of-two list followed by one that is no longer: the two lists are the two children of the root. |
| `Blake3Chunk.ChunkState.Init` | external/blake3/blake3.c:10-18 | A fresh chunk state stands for no data, with its key, flags and counter 0. |
| `Blake3Chunk.ChunkState.Reset` | external/blake3/blake3.c:20-27 | Resetting forgets the data and takes the new counter; the flags stay. |
| `Blake3Chunk.ChunkState.Len` | external/blake3/blake3.c:29-32 | Blocks compressed and bytes buffered give the number of bytes absorbed. |
| `Blake3Chunk.ChunkState.FillBuf` | external/blake3/blake3.c:34-44 | As much of the input as fits is appended to the data; either all of it was taken or the buffer is full. |
| `Blake3Chunk.ChunkState.Update` | external/blake3/blake3.c:112-140 | The data absorbed is the old data and then the input, however it is cut; the last block is never compressed early; key, flags and counter stay. |
| `Blake3Chunk.ChunkState.Finish` | external/blake3/blake3.c:142-147 | The output node is the chunk of the specification over all the data absorbed. |
| `Blake3Collision.ShortMessages` | external/blake3/blake3.c:142-147 | Up to one block, equal nodes are equal messages: the length is part of the node, so zeros at the end count. |
| `Blake3Collision.EqualNodes` | external/blake3/blake3.c:112-152 | Two messages, modes or positions with the same root are the same message, mode and position, or the compression function gives one result for two different inputs that were both compressed on the way. Block lengths, counters, key and the start, end and parent flags are all needed for this. |
| `Blake3Collision.EqualHashes` | external/blake3/blake3.c:569-611 | The same for equal 32-byte hashes: otherwise there is a collision below the root, or between the first output blocks of two different roots. |
| `Blake3Collision.BlocksAreNotNodes` | external/blake3/blake3.c:142-152 | A block in the middle of a chunk is never compressed with the same inputs as the last block of a chunk or a parent. |
| `Blake3Chunk.StreamWithinBlock` | external/blake3/blake3.c:95-104 | A slice of output block c from offset o is bytes 64c + o and on of the one stream. |
| `Blake3Chunk.OutputRootBytes` | external/blake3/blake3.c:89-110 | The buffer holds the bytes of the stream from the seek position on, for any seek and any length; exactly one compression is made for each output block touched, with that block's counter and the ROOT flag. |
| `Blake3Chunk.HashOne` | external/blake3/blake3_portable.c:125-143 | The block loop with its flag variable gives the chain in which the start flags are on the first block and the end flags on the last. |
| `Blake3Chunk.HashOneIsChunk` | external/blake3/blake3_portable.c:125-143 | A full chunk through the sixteen-block loop has the chaining value of the chunk of the specification, so of the chunk state. |
| `Blake3Chunk.HashOneIsParent` | external/blake3/blake3.c:229-234 | One block with PARENT, counter 0 and no start or end flags is the parent of the specification. |
| `Blake3Chunk.HashMany` | external/blake3/blake3_portable.c:145-160 | One chaining value per input, in order, with counters rising or not, and nothing else in the output array changes. |
| `Blake3Wide.WideCountComplete` | external/blake3/blake3.c:293-299 | A complete subtree of at least `degree` chunks yields exactly `degree` values, or two at degree 1. |
| `Blake3Wide.WideLayout` | external/blake3/blake3.c:282-320 | In every recursive call the left half fills exactly the slots before the right half, the right half is no longer, a single left value means a single right value, and the count is at most max(degree, 2). |
| `Blake3Wide.LeavesAt` | external/blake3/blake3.c:180-204 | Chunk i of an input has counter + i as its number and the bytes from 1024i on. |
| `Blake3Wide.CompressChunksParallel` | external/blake3/blake3.c:168-205 | The output slots hold the chaining values of all chunks in order, a partial last one included; other slots are untouched. |
| `Blake3Wide.CompressParentsParallel` | external/blake3/blake3.c:212-245 | The output slots hold the list with adjacent pairs replaced by parents and an odd last value passed through; other slots are untouched. |
| `Blake3Wide.LeftLength` | external/blake3/blake3.c:157-162 | The number of bytes that go left in the recursive tree. |
| `Blake3Wide.CombineHalves` | external/blake3/blake3.c:309-320 | Two single values are returned uncompressed; otherwise one layer of parents is formed. |
| `Blake3Wide.CompressHalves` | external/blake3/blake3.c:282-307 | After both recursive calls the array holds the two lists without a gap, and together they stand for the tree of the whole input. |
| `Blake3Wide.CompressSubtreeWide` | external/blake3/blake3.c:264-321 | For every power-of-two degree and every input, the values returned have the tree of the input over them, with both children of its root when it has any; other slots are untouched. |
| `Blake3Wide.CompressSubtreeToParentNode` | external/blake3/blake3.c:333-360 | For every degree, exactly the chaining values of the two children of the root of the recursive tree; the root is not compressed. |
| `Blake3Stack.CanonLength` | external/blake3/blake3.c:400-405 | A merged stack has one entry per set bit of the chunk count. |
| `Blake3Stack.LazyStep` | external/blake3/blake3.c:404-413 | After an aligned subtree of p chunks: either the count has one more bit and the stack is merged as it is, or the entry below is exactly p chunks long too and the merged one is aligned again. |
| `Blake3Stack.PairPush` | external/blake3/blake3.c:543-545 | The first half of a pair completes nothing: the stack with it on top is merged already. |
| `Blake3Stack.SpineGaps` | external/blake3/blake3.c:585-609 | Every entry is a power of two long and more than half of all that lies from its start on, so it is a left subtree of the final tree. |
| `Blake3Hasher.StackHoldsMerge` | external/blake3/blake3.c:406-412 | Two top entries of equal length replaced by their parent: the stack still holds the chaining values of the chunks it covers. |
| `Blake3Hasher.MergeStep` | external/blake3/blake3.c:404-413 | While there are more entries than set bits, the top two cover equally many chunks; when there are not, the stack is the merged one. |
| `Blake3Hasher.ChunkCountBound` | external/blake3/blake3.h:38-60 | A message below 2^64 bytes never needs more than 54 merged entries, so 55 slots suffice. |
| `Blake3Hasher.ChooseSubtree` | external/blake3/blake3.c:503-523 | The shrinking loop ends with the largest power of two that is at most the input and divides the bytes so far, at least one chunk. |
| `Blake3Hasher.Hasher.Init` | external/blake3/blake3.c:362-367 | A fresh hasher stands for the empty message in the given mode. |
| `Blake3Hasher.Hasher.Reset` | external/blake3/blake3.c:613-616 | Resetting keeps the mode and forgets the message. |
| `Blake3Hasher.Hasher.MergeCvStack` | external/blake3/blake3.c:404-413 | Afterwards the stack holds exactly one entry per set bit, each the chaining value of its chunks. |
| `Blake3Hasher.Hasher.MergeTop` | external/blake3/blake3.c:407-411 | One merge: the two top entries become their parent, the rest of the stack stays. |
| `Blake3Hasher.Hasher.PushCv` | external/blake3/blake3.c:447-453 | The stack is merged and the new value lies on top of it unmerged; its length is the population count before the push plus one, within its 55 slots. |
| `Blake3Hasher.Hasher.FinishChunk` | external/blake3/blake3.c:467-488 | A chunk already begun is filled; it is pushed only when more input follows it. |
| `Blake3Hasher.Hasher.HashSubtree` | external/blake3/blake3.c:503-550 | One round of the main loop: the input shrinks, all consumed bytes are in the stack, and when nothing is left the stack has at least two entries, the last unmerged. |
| `Blake3Hasher.Hasher.PushPair` | external/blake3/blake3.c:536-546 | The two halves of a subtree are pushed one by one; the second is left unmerged and the stack has two more entries than set bits. |
| `Blake3Hasher.Hasher.HashRest` | external/blake3/blake3.c:503-561 | The main loop and what is left after it restore the invariant over the whole message. |
| `Blake3Hasher.Hasher.KeepRemainder` | external/blake3/blake3.c:558-561 | The last bytes, at most a chunk, stay in the chunk state and the stack below is merged. |
| `Blake3Hasher.Hasher.Update` | external/blake3/blake3.c:455-562 | The hasher then stands for the old message followed by the input; the mode stays. |
| `Blake3Hasher.Hasher.RollUp` | external/blake3/blake3.c:603-609 | From each boundary on, the entry is the left child and the rest of the message the right child of a node of the recursive tree. |
| `Blake3Hasher.Hasher.LastNode` | external/blake3/blake3.c:592-602 | The roll-up starts from the last chunk, or from the parent of the top two entries, of which there are always two; either way it is the tree over the rest of the message. |
| `Blake3Hasher.Hasher.RootNode` | external/blake3/blake3.c:592-609 | The roll-up ends with the root of the recursive tree over the whole message, not compressed. |
| `Blake3Hasher.Hasher.FinalizeSeek` | external/blake3/blake3.c:569-611 | The buffer holds the hash of the whole message from the seek position on; the hasher does not change; exactly one ROOT compression is made for each output block. All other compressions take flags of a type without ROOT. |
| `Blake3Api.HashPieces` | external/blake3/blake3.c:362-611 | Streaming equals the specification: for every way of cutting a message into updates and every SIMD degree, the output is the recursive tree hash of the whole message. |
| `Blake3Api.SameMessageSameHash` | external/blake3/blake3.c:455-562 | Two cuts of one message on two platforms give the same bytes. |
| `Blake3Api.ReadTwice` | external/blake3/blake3.c:569-611 | Two finalize calls on one hasher: bytes at the same position agree, and the second continues the first when it starts where that ended. |
| `Blake3Api.HashOnce` | external/blake3/blake3.c:369 | The default mode over one piece is the hash with the standard key words and no mode flag. |
| `Blake3Api.InitKeyed` | external/blake3/blake3.c:371-376 | Keyed mode: the key bytes as words and KEYED_HASH. |
| `Blake3Api.InitDeriveKey` | external/blake3/blake3.c:378-388 | Key derivation: the key words are the hash of the context in its own mode, and the message is hashed in another. |
| `Radix.EncoderBound` | external/base58/base58.c:157 | 256^n is at most 58^(floor(138n/100) + 1), for every n. |
| `Base58Tables.DigitOfCharOf` | external/base58/base58.c:32-42 | Looking up a digit's character gives the digit back. |
| `Base58Tables.CharOfDigitOf` | external/base58/base58.c:32-42 | Every character is -1 and none of the digits' characters, or it is the character of its digit. |
| `Base58Tables.Alphabet` | external/base58/base58.c:32-42 | The digits are exactly the letters and figures other than 0, O, I and l, and rise with their character codes. |
| `Base58.AboutEncode` | external/base58/base58.c:155-179 | An encoding has the value of the bytes and as many leading ones as they have leading zeros. |
| `Base58.EncodeDecode` | external/base58/base58.c:44-184 | Decoding the encoding of any non-empty byte string into a buffer of its size gives back the bytes and the size. |
| `Base58.DecodesWhen` | external/base58/base58.c:68-126 | A text decodes exactly when all its characters are digits and its value is zero or it stands for at most as many bytes as the buffer has: one for each leading one, and those of the value. |
| `Base58.DecodeEncode` | external/base58/base58.c:114-126 | Whenever decoding succeeds, the reported size is the number of bytes the text stands for, and encoding the buffer gives back the text exactly when that is the size of the buffer. |
| `Base58.OneMoreOne` | external/base58/base58.c:114-126 | A further leading one is accepted, with the same bytes, exactly when the text is all ones or stands for fewer bytes than the buffer has. |
| `Base58.ShortTextChanges` | external/base58/base58.c:114-126 | The text "2" decodes into any buffer of two bytes or more and is not the encoding of what it leaves there. |
| `Base58.EncodeInjective` | external/base58/base58.c:149-184 | Two byte strings have the same encoding exactly when they are the same. |
| `Base58.EstimateSuffices` | external/base58/base58.c:157-159 | The value of any bytes fits the digits the encoder sets aside for them. |
| `Base58.EncodeLength` | external/base58/base58.c:157 | An encoding has at most floor(138n/100) + 1 characters for n bytes. |
| `Base58.KeyRoundTrip` | src/keys.cpp:70-128 | A key, signature or identifier of up to 64 bytes fits the 128-character buffer when encoded, and decodes to itself. |
| `Base58.MintTest` | src/blockchain.cpp:84 | A 32-byte key is written as thirty-two ones exactly when all its bytes are zero. |
| `Base58Codec.AddByte` | external/base58/base58.c:161-167 | The inner loop multiplies the buffer's number by 256 and adds a byte; it never steps below position 0, its carry stays at most 255, and stopping at `high` with no carry loses nothing. |
| `Base58Codec.Convert` | external/base58/base58.c:157-167 | After the conversion the buffer is the value of the bytes in base 58. |
| `Base58Codec.B58Enc` | external/base58/base58.c:149-184 | The encoding and a terminator are written exactly when they fit, and nothing beyond them; otherwise nothing is written; the size needed is reported either way. |
| `Base58Codec.CarryMask` | external/base58/base58.c:79-80 | The six-bit mask drops no bit of the carry, for every word and every carry below 58. |
| `Base58Codec.ZeroMaskTest` | external/base58/base58.c:59-88 | The top-word mask is hit exactly when the word does not fit its bytes. |
| `Base58Codec.OverflowTest` | external/base58/base58.c:86-88 | The test after each digit fires exactly when the number so far needs more than the buffer's bytes. |
| `Base58Codec.AddDigit` | external/base58/base58.c:78-82 | The inner loop multiplies the words' number by 58 and adds a digit; what does not fit comes out as the carry. |
| `Base58Codec.ReadDigits` | external/base58/base58.c:67-89 | The reading loop goes through exactly when every character is a digit and the value is below 256^binsz, so an early rejection is never wrong; the words then hold the value. |
| `Base58Codec.WriteBytes` | external/base58/base58.c:91-112 | The words are written as exactly binsz bytes, high byte first, an incomplete first word included. |
| `Base58Codec.B58ToBin` | external/base58/base58.c:44-129 | Succeeds exactly when the text decodes: all digits, value below 256^binsz, and value zero or no more leading ones than leading zero bytes; then buffer and size are the decoded ones. The three kinds of failure leave what they leave. |
| `Base58Codec.EncodeKey` | src/keys.cpp:70-78 | Encoding up to 64 bytes into the 128-character buffer never fails and gives the encoding. |
| `Base58Codec.DecodeKey` | src/keys.cpp:80-88 | Which texts are accepted, ignoring the reported size: those that stand for at most as many bytes as the key has, and any number of ones. The key then has the text's value, and is written as that text exactly when the text stands for as many bytes as the key has. |
| `TxPool.ConsumedIsShortest` | src/tx_pool.cpp:81-91 | Confirming consumes the shortest prefix of what was handed out that covers the block's keys, or all of it when none does. |
| `TxPool.ConsumedSplits` | src/tx_pool.cpp:81-91 | The consumed transactions are the confirmed and the requeued ones, each as often. |
| `TxPool.RequeuedIsFilter` | src/tx_pool.cpp:86-90 | With distinct keys, exactly those of the block are dropped and the others go back in order. |
| `TxPool.ForeignKeyDrains` | src/tx_pool.cpp:81-84 | A block with a key that was not handed out consumes everything. |
| `TxPool.TransactionPool.AddTransaction` | src/tx_pool.cpp:29-51 | Accepted exactly when the signature is valid; then appended to queue and set, otherwise nothing changes. |
| `TxPool.TransactionPool.PopTransactions` | src/tx_pool.cpp:53-73 | The first transactions, one fewer than a block holds at most, move in order from submitted to handed out, with their keys. |
| `TxPool.TransactionPool.ConfirmTransactions` | src/tx_pool.cpp:75-94 | The draining loop does to the two queues and sets what `Confirm` says. |
| `TxPool.StatusTellsPlace` | src/tx_pool.cpp:96-119 | Over every run with fresh keys, the status query on an accepted transaction answers submitted, unconfirmed or confirmed exactly as it is in the one queue, in the other, or was in a confirmed block; it never answers unknown. The blockchain, asked in turn, is taken to know the blocks the pool was told of, which it stores first. |
| `TxPool.ForeignKeyAsksChain` | src/tx_pool.cpp:112-118 | Over every run, for a key that was never accepted the blockchain's answer is passed on, whatever it is. |
| `TxPool.JustAccepted` | src/tx_pool.cpp:102-110 | After any run a transaction just accepted is reported as submitted, even if one with the same key has been handed out. |
| `BlockChain.AskStatus` | src/tx_pool.cpp:96-119 | Pool and blockchain together: a key never accepted is confirmed exactly when a block holds it and unknown otherwise; with fresh keys an accepted one is where the answer says. |
| `TxPool.PopKeepsLine` | src/tx_pool.cpp:56-70 | First in, first out: handing out moves the boundary between the two queues and nothing else. |
| `TxPool.LineIsArrival` | src/tx_pool.cpp:29-73 | Over every run before the first block, the two queues in a row are the accepted transactions in the order of acceptance. |
| `TxPool.CountIsUnfinished` | src/tx_pool.cpp:123-126 | Over every run the count is the number of accepted transactions that no block has confirmed yet. |
| `TxPool.EveryRun` | src/tx_pool.cpp:29-94 | Over every run, whatever the keys: submitted, handed out and confirmed transactions together are the accepted ones, each as often; and the sets name only transactions in the queues. |
| `TxPool.SetsMatchExactlyWhenFresh` | src/tx_pool.cpp:47-48 | The sets are exactly the queues' keys, in every run that accepts given transactions, exactly when no two of these have the same key. |
| `TxPool.ExactlyOnePlace` | src/tx_pool.cpp:29-94 | Over every run with fresh keys each accepted transaction is in exactly one of submitted, handed out and confirmed. |
| `TxPool.DuplicateKeyIsLost` | src/tx_pool.cpp:81-84 | Accept a key twice and confirm one copy: the other is still handed out but in no set. |
| `TxPool.RewardDrainsPool` | src/validator.cpp:73-93 | After any run with fresh keys, a block with a reward empties the handed-out queue and sends back, in order, all that is not in the block. |
| `TxPool.EmptyBlockChangesNothing` | src/metronome.cpp:63-72 | The metronome's empty blocks leave the pool as it is. |
| `TxPool.RoomForReward` | src/tx_pool.cpp:56-59 | What is handed out and a reward fit a block; fewer than the maximum are handed out only when the queue is then empty. |
| `Ledger.MintIsZeroKey` | src/blockchain.cpp:84 | The mint test holds for the zero key and for no other. |
| `Ledger.BalanceOf` | src/blockchain.cpp:70-93 | After any transactions each balance is, modulo 2^32, what it was plus received less sent, plus what self-transfers of the account made while absent; the zero account is never debited. |
| `Ledger.TotalIsIssued` | src/blockchain.cpp:70-93 | After any transactions the total over all accounts is, modulo 2^32, what it was plus the amounts minted or self-created. |
| `Ledger.RewardMints` | src/transaction.cpp:46-60 | A reward puts 50 coins into the wallet's account and the total, modulo 2^32, and changes no other account. |
| `Ledger.OnlyTheMintIssues` | src/blockchain.cpp:82-90 | From an empty ledger the total is the minted amount modulo 2^32 exactly when the self-transfers by absent accounts add up to a multiple of 2^32. |
| `Ledger.SelfTransferCreatesCoins` | src/blockchain.cpp:82-90 | One self-transfer by an absent account leaves it with the amount, and nothing was minted. |
| `Ledger.OrderIrrelevant` | src/blockchain.cpp:70-93 | Two orders of the same transactions give the same ledger exactly when self-transfers by absent accounts create the same amounts, modulo 2^32, in every account. |
| `Ledger.OrderMatters` | src/blockchain.cpp:82-90 | A payment to a new account and a self-transfer of that account give different ledgers in the two orders. |
| `BlockChain.Chain.constructor` | src/blockchain.cpp:172-179 | The chain starts as the genesis block with its transactions applied to nothing. |
| `BlockChain.Chain.SyncBal` | src/blockchain.cpp:70-93 | The loop over a block applies its transactions in order. |
| `BlockChain.Chain.AddBlock` | src/blockchain.cpp:124-132 | Any block is appended, and the ledger is still that of all blocks' transactions. |
| `Protocol.HeadIsExtended` | src/blockchain.cpp:152-155 | What a last-block query gives a validator: a block built on the header it read is taken exactly when that header's number is still the head's; on a chain of at most 2^32 blocks this means that it is the head, and the block is linked to it. |
| `Protocol.ReadTakesHead` | src/validator.cpp:95-114 | On a chain of at most 2^32 blocks, reading gives a validator the head exactly if it had nothing, no higher number, or the number it starts with; always, while the numbers have not passed 2^32; otherwise it keeps what it has, and nothing else changes. |
| `Protocol.HonestRound` | src/validator.cpp:48-93 | Read, solve and submit without interruption: the chain grows by a block linked to the head, whatever the validator held before, while the numbers have not passed 2^32. |
| `Protocol.NullSolutionSubmitsNothing` | src/validator.cpp:61-62 | A validator without a solution submits nothing. |
| `BlockChain.Chain.GetBalance` | src/blockchain.cpp:145-150 | Received less sent over the whole chain modulo 2^32, plus what the account created; zero for an account never seen. |
| `BlockChain.Chain.TxStatus` | src/blockchain.cpp:157-170 | Confirmed exactly when some block holds a transaction with that source and number. |
| `BlockChain.Chain.GetTotalCoins` | src/blockchain.cpp:192-216 | The 32-bit sum over the ledger, read as a signed number, is what the whole chain issued. |
| `BlockChain.ToInt32Exact` | src/blockchain.cpp:213 | The signed total lies within 32 bits and is congruent to the word. |
| `Metronome.DifficultyKeepsMinimum` | src/metronome.cpp:92-119 | A round keeps the minimum difficulty unless the difficulty is at its maximum and rises. |
| `Metronome.DifficultyBounds` | src/metronome.cpp:92-119 | Over any number of rounds below the wrap-around the difficulty is between the minimum and the minimum plus the rounds. |
| `Metronome.QuickRoundsRaise` | src/metronome.cpp:108-110 | n rounds solved at once raise the difficulty to the minimum plus n modulo 2^32, so the bound is reached and one round more than it allows wraps around. |
| `Metronome.DifficultyMoves` | src/metronome.cpp:92-119 | Down by one exactly after a timeout above the minimum of 20, up by one exactly after a solution in less than three seconds, and otherwise unchanged, a slow solution included. |
| `Metronome.TimeoutsLower` | src/metronome.cpp:95-104 | k timeouts after n quick rounds leave the minimum plus n less k, and never less than the minimum. |
| `Metronome.SolvedTimeExact` | src/metronome.cpp:93 | The 32-bit solved time is the difference of the two 64-bit times exactly when that is within 2^31 microseconds; just above it is negative. |
| `Metronome.Timer.constructor` | src/metronome.cpp:14-21 | The metronome starts at the head of the chain, asleep, at the minimum difficulty. |
| `Metronome.Timer.HandleBlock` | src/metronome.cpp:141-166 | A block is taken exactly when its number is the next one modulo 2^32; then chain, last block and times move on; otherwise nothing changes. |
| `Metronome.Timer.SubmitEmptyBlock` | src/metronome.cpp:60-90 | An empty block that names the last hash and the next number is appended; the ledger stays. |
| `Metronome.Timer.UpdateDifficulty` | src/metronome.cpp:92-119 | The difficulty moves as `DifficultyMoves` and `TimeoutsLower` say, by the 32-bit difference of the two solved times. |
| `Metronome.Timer.Round` | src/metronome.cpp:33-57 | One round of the loop after its wait: first the difficulty is adjusted by the old times; after a timeout exactly one empty block follows, with the new difficulty, linked and next in number; otherwise chain and times stay. |
| `Protocol.StoreKeepsChain` | src/metronome.cpp:145-161 | A block with the next number, built on any block of the chain, was built on the last one, unless the chain is longer than 2^32. |
| `Protocol.EveryRun` | src/validator.cpp:48-114 | Every interleaving of validators, stale or not, timeouts and submissions in flight keeps the numbers consecutive, links blocks up to place 2^32, and keeps the metronome at the head or one block behind a stored submission. |
| `Protocol.OneBlockPerHeight` | src/blockchain.cpp:124-132 | Over every run, blocks less than 2^32 places apart have different numbers, and neighbours consecutive ones. |
| `Protocol.FlightIsExclusive` | src/metronome.cpp:141-152 | Over every run a block sent to the blockchain stays in flight until it is stored: until then chain and metronome do not move, and no other block is sent. |
| `Protocol.ChainGrows` | src/blockchain.cpp:129 | Over every run and whatever follows it, the chain so far is a prefix of the chain later: no stored block is changed or removed. |
| `Protocol.UninterruptedSubmission` | src/metronome.cpp:141-166 | A submission that nothing interrupts: the block becomes the head of the chain and the metronome's last block exactly when its number is the next one. |
| `Protocol.HandleBlockIsSubmission` | src/metronome.cpp:141-166 | The servers' block handler, on chain and metronome, is three steps of the state machine in a row. |
| `Protocol.EmptyBlockIsTimeout` | src/metronome.cpp:60-90 | The servers' submission of an empty block is a timeout, a store and an acknowledgement in a row. |
| `Protocol.StaleBlockAccepted` | src/metronome.cpp:146 | At every place beyond 2^32: a run in which a validator keeps a header for 2^32 blocks, or a multiple of that, and its block breaks the link. |
| `Protocol.LinksHoldExactlyUntilWrap` | src/metronome.cpp:141-166 | Place i is linked to its predecessor in every run exactly when i is at most 2^32. |
| `Digest.AgreeIsCongruent` | src/pom.cpp:27-35 | Two byte strings agree on their first d bits exactly when they are congruent modulo 2^d as little-endian numbers. |
| `Digest.AgreeWholeBytes` | src/pom.cpp:27-35 | Agreement on 8w bits is equality of the first w bytes. |
| `Digest.CheckPrefix` | src/pom.cpp:21-38 | True exactly when the first `difficulty` bits agree; an error exactly above the number of bits. |
| `Digest.CheckLeadingZeros` | src/pow.cpp:19-36 | The same against zero: true exactly when the hash is a multiple of 2^difficulty. |
| `ProofOfWork.VerifySolution` | src/pow.cpp:79-89 | True exactly for solutions: the hash of the previous hash followed by the candidate, in the default mode, is a multiple of 2^difficulty. |
| `ProofOfWork.SolveHash` | src/pow.cpp:38-77 | What is found is a solution, so it passes verification, and the first round that gives one; when the clock runs out no round gave one. |
| `ProofOfWork.DistinctCandidates` | src/pow.cpp:54-57 | Different 64-bit nonces give different candidates, although bytes are added without carry. |
| `ProofOfWork.CandidateShape` | src/pow.cpp:54-57 | The first candidate is the base; only the first eight bytes ever change, and the first one alone for nonces below 256. |
| `ProofOfWork.TriesAreDistinct` | src/pow.cpp:49-70 | Two rounds try the same candidate exactly when they are a multiple of 2^64 apart. |
| `ProofOfWork.NonceInMemory` | src/pow.cpp:54 | The eight bytes of the nonce in memory are the nonce, low byte first. |
| `ProofOfMemory.LessByPrefix` | src/pom.cpp:49 | Hashes that differ in their first w bytes are ordered by those alone. |
| `ProofOfMemory.PrefixBinarySearch` | src/pom.cpp:40-56 | The loop computes the search function over the whole table; an error exactly for a difficulty above 256 with something to check. |
| `ProofOfMemory.SearchSound` | src/pom.cpp:46-47 | Any index returned lies in the range and matches. |
| `ProofOfMemory.SearchFinds` | src/pom.cpp:49-52 | In a sorted table, an entry that shares the target's first ceil(d/8) bytes is never missed. |
| `ProofOfMemory.SharedIsFound` | src/pom.cpp:40-56 | At every difficulty the search over a sorted table finds a match if any entry shares the target's first ceil(d/8) bytes. |
| `ProofOfMemory.SearchMisses` | src/pom.cpp:49-52 | For every difficulty that is not whole bytes, a sorted table of two and a target with a match that is not found. |
| `ProofOfMemory.SearchCompleteForWholeBytes` | src/pom.cpp:40-56 | The search finds a match in every sorted table that has one exactly when d is a multiple of 8. |
| `ProofOfMemory.Prover.GenHashes` | src/pom.cpp:64-93 | A sorted rearrangement of the hashes of the inputs with nonces 0, 1, 2 and so on, one per 32 bytes of memory. |
| `ProofOfMemory.InputBytesTell` | src/pom.cpp:69-82 | Different fingerprints, keys or 64-bit nonces are different bytes to hash. |
| `ProofOfMemory.EntriesAt` | src/pom.cpp:76-86 | Entry i, before sorting, is the hash of the input with nonce i. |
| `ProofOfMemory.Prover.SolveHash` | src/pom.cpp:95-125 | At every difficulty the entry that the search points to, or nothing when it points to none; it matches; something is found if an entry shares the whole bytes; and at whole-byte difficulties exactly when there is a match. |

## Left out

- The compression rounds, and all SIMD and assembly code: the compression function and its extended-output
  form are arbitrary functions; of the SIMD code only the degree remains, any power of two up to a maximum
  that is one too. `hash_many` is the portable loop.
- The compiler builtins for population count and leading zeros: their fallbacks are modelled.
- The layout of chaining values in memory: the stack and the arrays of values have 32-byte entries instead of
  raw bytes, so positions are entry numbers; the buffer of the chunk state, the Base58 buffers and the output
  buffers are arrays of bytes.
- Messages of 2^64 bytes or more, for which BLAKE3 makes no promise: update requires the message to stay below.
  Counters and seek positions are unbounded numbers.
- Base58 text is the characters of a C string before its terminator, codes 1 to 255.
- Proof-of-memory verification and the nonce that the search reports: the search always reports the same
  nonce (src/pom.cpp:123), so what it finds need not verify, and no such claim is made.
- ProofOfMemory.Prover.GenHashes: `std::sort` is an insertion into a sorted list here; of sorting only its
  result matters, a sorted rearrangement. Memory sizes are not truncated to 32 bits.
- Clocks and random numbers are parameters: timestamps, the hashes of empty blocks, the base of the candidates,
  and how many rounds the clock allows.
- Sockets, serialisation, the thread pool and the server loop. Each handler that holds its server's mutex is
  one step. The replies are results of the methods. The blockchain always replies that a block is good, so the
  metronome's branch for a rejected block never runs.
- Signatures: whether one is valid is an input of `AddTransaction`.
- A claim that a transaction is on the chain at most once: `add_block` replies before the pool hears of the
  block (src/blockchain.cpp:132-142), so it may be handed out again in between.
- Reading and writing the chain as YAML: the writer stores the hash in the place of the previous hash
  (src/blockchain.cpp:104) and the reader never reads the number (src/blockchain.cpp:36-43), so nothing comes
  back as it was. Runs start from the genesis block.
- BlockChain.Chain.SyncBal: the ledger is a value, so whether an iterator survives the insertion of another
  account (src/blockchain.cpp:76-87) is not captured; the old entry is taken to be still there.
- BlockChain.Chain.TxStatus, and the other queries of the blockchain: they run without its mutex in the program
  and are taken to see the blocks between two additions.
- Metronome.Timer.Round: the wait itself, a loop around a condition variable, is not part of the model; its outcome
  is the parameter. What may happen between the parts of a round is in `Protocol`, where a timeout may come at
  any moment.
- Protocol: blocks are their headers there, and a validator's polling loop is one step that may change nothing.
  Difficulties and proofs of work are arbitrary, as nobody checks them.
- RIPEMD-160 and the Graphene functions, which are switched off, the commented-out checksum functions, the wallet,
  the configuration, the monitor and the analysis scripts.
