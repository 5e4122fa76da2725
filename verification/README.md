# Verified models of a blockchain's core

This project models the state machines at the core of the Grug execution environment and of the Dango
application built on it, and proves what they promise:

- **The versioned state tree** (`Jmt*.dfy`). A path-compressed binary Merkle tree over 256-bit keys, kept as a
  table from (version, bit path) to node beside a set of orphaned nodes. The class `MerkleTree` applies sorted
  batches in place, proves presence and absence, and prunes. Its ghost state is the tree of each version that is
  still available. Applying a batch gives the one canonical tree of the updated key-value map, writes exactly
  that tree's new nodes and orphans exactly the nodes it lacks; so after any run the table holds exactly the
  nodes the available versions need, and pruning removes exactly the others. The root hash is a function of the
  map. Proofs are complete for any hash function, and sound if the hash function does not collide on the finitely
  many inputs that the tree and the verifier hash.
- **Transactions and submessages** (`App*.dfy`). Contracts are arbitrary functions from the store, the gas meter
  and the call to writes and an answer. `AppSemantics` and `AppTransaction` say by value, without buffers, what
  executing a message or a transaction means; `AppExecutor` executes over a stack of write buffers as the program
  does, and is proved to do the same. Of every execution it is proved that the store is explained by a
  list of kept calls alone: leaving out everything that was rolled back, the kept calls, made one after another
  on the initial store, give the same answers and the same store. After a success all of them succeeded, and if
  no call failed at all then all are kept. `AppOrder` says of each execution what is called, in which order, on
  which store and with what: submessages and replies, funds and recipients, and every step of a transaction.
- **Fixed-point arithmetic** (`Math*.dfy`). The Babylonian square root, the decimal square root that gives up
  precision when the word is too small, and printing and parsing of decimals, for every machine word: what is
  printed reads back, and exactly which texts are read, and as which decimal.
- **Three contracts** (`AuthNonces.dfy`, `BankLedger.dfy`, `Dex*.dfy`, with sums over maps in `MapSums.dfy`). The
  window of seen nonces, the bank's ledger, and an order book with its depth index, each with invariants over any
  run. Of the auction it is proved that the range of prices found by walking down both sides of the book is exactly
  the range at which as much is traded as at any price, that every order gets what the volume leaves for it after
  those with a better price and the older ones at its own, that as much is bought as is sold, and that what is left
  does not cross.

Where the program updates state step by step the model is a class or a method with a loop, proved against a
function on values; where it computes by expressions the model is a function with lemmas about it. Arithmetic
that the program checks is checked in the model with the same bounds. Rust's overflow checks are on in the release
profile too, so an unchecked addition that overflows counts as a failure.

## What turned out not to hold

- The verifier accepts a present key's own leaf as evidence of the key's absence. Only the prover avoids this.
  An accepted proof of absence is right if and only if its node is not the key's own leaf
  (`VerifyingIsSound`, `NonMembershipIsSound`, `OwnLeafIsAccepted`).
- The comments at `grug/jellyfish-merkle/src/tree.rs:84` and `:108` say that a batch that changes nothing leaves
  the version as it is. The code saves the root again at the new version and orphans the old one, and so does the
  model.
- A decimal with an odd number of places has its square root computed as that of a tenth of it. The result is the
  root if and only if the number of places is even or the decimal is zero (`RootIsRightIff`,
  `OddPlacesExample`, in a word of 128 bits). The types in use have an even number.
- A decimal without decimal places prints its minimum twice, and the text does not parse
  (`PrintedReadsBackIff`). All other values of all types read back.
- The parser of decimals accepts a sign after the dot and counts it as a place: a plus on every type, and on a
  signed type a minus that only zeros follow. `1.+5` is read as 1.05 and `1.-0` as 1 (`PlusExample`,
  `MinusExample`). What follows the dot of an accepted text is digits alone if and only if it does not begin with
  a sign (`DigitsAfterDotIff`), and the value is the one written if and only if there is no such sign or only
  zeros follow it (`ReadAsWrittenIff`). A plus before the whole part is accepted too; `AcceptedIff` says exactly
  which texts are read.
- The comment at `grug/math/src/dec.rs:236` says that a product that is unwrapped cannot overflow. That is so for
  every text that is shorter than 2^32 characters (`PanicsOnlyOnLongText`). The length of the part after the dot is
  taken as 32 bits, so that longer texts exist that panic, on a type exactly if it has decimal places
  (`SomeTextPanicsIff`, `LongTextPanics`).
- The check that a nonce is not too far ahead adds 100 to the largest nonce seen. Once that overflows, an account
  accepts nothing any more: a client that counts up from zero gets exactly 2^32 - 99 transactions accepted
  (`NextNoncePassesIff`, `SendAll`, `CountingIsAccepted`).
- The quote side of the depth index does not always follow the worth of the orders. A fill of `x` out of `x + y`
  leaves one unit behind, under each key of the order, if and only if the remainders of `x * price` and
  `y * price` make up a whole unit (`SplitProduct`, `FillOrder`); nothing else does. What has been left behind is
  the difference at any time (`Indexed`, `FilledIsIndexed`), so an entry outlives its orders if and only if it is
  not zero (`WhatOutlivesOrders`). Orders and fills are whole coins, a million atomics each (`ExecuteAll`,
  `FillsAreWhole`), and so some fill leaves a unit behind at a price if and only if the price, in atomics, is not a
  multiple of 10^18 (`SomeSplitLosesIff`); in a run in which all prices are, nothing ever is (`ExecuteAll`). A bid
  of two million coins at the price 0.0000005, filled by one coin and then by the others, leaves an entry of base 0
  and quote 1 (`EntryOutlivesOrder`). The index never falls below the orders (`OrderIsBacked`).
- While a pair's bucket sizes stay as they are, an order of positive size can always be removed from the index
  (`RemoveOrder`). An order of size zero can become impossible to remove (`ZeroSizeIsStuck`): a bid of one for
  what costs two is one. An order has size zero exactly if it is a bid for less than one coin costs and the pair's
  `min_order_size` is zero (`SizeIsZeroIff`), so that one can be placed at a price if and only if `min_order_size`
  is zero and the price is above one (`ZeroSizePassesIff`).
- No operation of the bank stores a zero balance or a zero supply, also if a message holds a zero amount
  (`ExecuteAll`). Genesis does: it saves the coins as they are given, so that a zero is stored if and only if one
  is given (`Instantiate`, `ZerosAtGenesisIff`, `ZeroAtGenesis`).

## Model

| member | source | states |
|---|---|---|
| JmtTree.CanonicalIsUnique | grug/jellyfish-merkle/src/tree.rs:225-303 | Two canonical trees with the same contents differ in nothing but versions |
| JmtTree.Build | grug/jellyfish-merkle/src/tree.rs:372-439 | Every map has a canonical tree under its path, and it never needs a bit beyond the last |
| JmtTree.HashOfCanonical | grug/jellyfish-merkle/src/tree.rs:122-152 | The hash of a canonical tree depends on its contents alone, and there is none exactly if it is empty |
| JmtTree.ForkHasTwoKeys | grug/jellyfish-merkle/src/tree.rs:235-303 | An internal node of a canonical tree always has at least two keys below it |
| JmtTree.ReachIsBefore | grug/jellyfish-merkle/src/tree.rs:209-303 | The nodes of a tree are no younger than the tree |
| JmtBatch.PartitionIsExact | grug/jellyfish-merkle/src/tree.rs:605-614 | Splitting a sorted batch at a bit gives two sorted batches of the same operations, one for each side |
| JmtBatch.PrepareIsExact | grug/jellyfish-merkle/src/tree.rs:637-663 | Folding an existing leaf into a batch gives the map the batch makes of that leaf, in sorted order |
| JmtBatch.AppliedAt | grug/jellyfish-merkle/src/tree.rs:122-152 | What the map of a batch's result holds: inserted keys their new values, deleted ones none, all others what they had |
| JmtApply.LeafReplaced | grug/jellyfish-merkle/src/tree.rs:337-370 | What happens to a leaf whose key alone the batch concerns |
| JmtApply.ForkReplaced | grug/jellyfish-merkle/src/tree.rs:178-304 | Replacing both children replaces the tree and orphans exactly the nodes it lacks |
| JmtApply.LeafLifted | grug/jellyfish-merkle/src/tree.rs:235-303 | A new leaf that is the only key left moves up in place of its parent without a trace at its old place |
| JmtApply.KeptLeafLifted | grug/jellyfish-merkle/src/tree.rs:235-303 | An old leaf that moves up is orphaned where it was |
| JmtApply.CreatedFork | grug/jellyfish-merkle/src/tree.rs:372-439 | Two new subtrees become a fork, with the tops of both saved |
| JmtMerkleTree.MerkleTree.constructor | grug/jellyfish-merkle/src/tree.rs:58-71 | An empty store is valid |
| JmtMerkleTree.MerkleTree.RootHashAt | grug/jellyfish-merkle/src/tree.rs:76-79 | The root hash of an available version is that of its key-value map |
| JmtMerkleTree.MerkleTree.Apply | grug/jellyfish-merkle/src/tree.rs:122-152 | The new version is the canonical tree of the updated map; writes exactly its new nodes, orphans exactly the nodes it lacks, returns its hash, keeps all other versions |
| JmtMerkleTree.MerkleTree.ApplyAt | grug/jellyfish-merkle/src/tree.rs:155-174 | The same for a subtree, except that its top node is left to the caller |
| JmtMerkleTree.MerkleTree.ApplyAtInternal | grug/jellyfish-merkle/src/tree.rs:176-304 | The same for an internal node, with collapsing |
| JmtMerkleTree.MerkleTree.ApplyAtChild | grug/jellyfish-merkle/src/tree.rs:306-335 | The same for one child, which may be absent or get no operations |
| JmtMerkleTree.MerkleTree.ApplyAtLeaf | grug/jellyfish-merkle/src/tree.rs:337-370 | The same for a leaf |
| JmtMerkleTree.MerkleTree.CreateSubtree | grug/jellyfish-merkle/src/tree.rs:372-439 | Builds the canonical tree of a batch and a leaf, saves all of it but the top, and never runs out of bits |
| JmtMerkleTree.MerkleTree.Prove | grug/jellyfish-merkle/src/tree.rs:466-551 | For every key and available non-empty version, a proof that the verifier accepts against the root hash and the key's value or absence; otherwise an error |
| JmtMerkleTree.MerkleTree.Prune | grug/jellyfish-merkle/src/tree.rs:553-580 | Exactly the nodes needed by the version in force and all later ones remain; those versions' trees are untouched |
| JmtMerkleTree.MerkleTree.Ics23ProveExistence | grug/jellyfish-merkle/src/ics23.rs:49-104 | The inner operations match the siblings of the key's proof one for one and hash the leaf up to the root |
| JmtIcs23.OpsHashUp | grug/jellyfish-merkle/src/ics23.rs:49-104 | Applying the operations to a hash is folding the siblings as the verifier does |
| JmtHistory.ApplyKeepsValid | grug/jellyfish-merkle/src/tree.rs:136-152 | After an apply every stored node is needed, and each lives exactly from its version to the one that orphaned it |
| JmtHistory.PruneKeepsValid | grug/jellyfish-merkle/src/tree.rs:557-579 | The same after pruning, for the versions that remain |
| JmtHistory.NodesAreExact | grug/jellyfish-merkle/src/tree.rs:136-152 | A node is stored if and only if an available version reaches it |
| JmtHistory.NoExtraSaves | grug/jellyfish-merkle/src/tree.rs:235-303 | Every node of a version is reachable from that version's root |
| JmtHistory.LastInForce | grug/jellyfish-merkle/src/tree.rs:557-579 | Whatever the version pruned up to, the version in force then survives |
| JmtProof.ComputeAndCompareRootHash | grug/jellyfish-merkle/src/proof.rs:109-134 | The loop folds the siblings from the bottom up and compares with the root hash |
| JmtProof.VerifyProof | grug/jellyfish-merkle/src/proof.rs:27-49 | The verdict on which `VerifyingIsSound`, `ProofsAreComplete` and `RejectedBecause` rest, for every combination of claim and kind of proof |
| JmtProof.RejectedBecause | grug/jellyfish-merkle/src/proof.rs:27-107 | Exactly when a proof is rejected for its kind, for a child where the key would be, or for a leaf off the key's path |
| JmtProof.VerifyNonMembershipProof | grug/jellyfish-merkle/src/proof.rs:63-107 | What an internal node or another leaf must look like to show absence, and where too many siblings make it panic |
| JmtProof.PanicsOnLongProofs | grug/jellyfish-merkle/src/proof.rs:63-134 | The verifier panics exactly on more than 256 siblings, or on 256 below an internal node that shows absence |
| JmtProofTheorems.WalkEndsRight | grug/jellyfish-merkle/src/tree.rs:500-541 | The prover's walk ends at the key's leaf if the key is present and at a node that shows its absence otherwise, within 256 bits |
| JmtProofTheorems.ProofsAreComplete | grug/jellyfish-merkle/src/proof.rs:27-134 | The verifier accepts every proof of the prover |
| JmtProofTheorems.FoldFollowsTree | grug/jellyfish-merkle/src/proof.rs:109-134 | Without collisions, siblings that hash up to the root are those of the tree |
| JmtProofTheorems.MembershipIsSound | grug/jellyfish-merkle/src/proof.rs:51-61 | Without collisions, an accepted proof of presence is right about key and value |
| JmtProofTheorems.NonMembershipIsSound | grug/jellyfish-merkle/src/proof.rs:63-107 | Without collisions, an accepted proof of absence is right if and only if its node is not the key's own leaf |
| JmtProofTheorems.VerifyingIsSound | grug/jellyfish-merkle/src/proof.rs:27-134 | Without collisions, whatever the verifier accepts, of either kind, is the key's actual value or absence, if and only if the proof is not the key's own leaf |
| JmtProofTheorems.OwnLeafIsAccepted | grug/jellyfish-merkle/src/proof.rs:90-103 | The verifier accepts a present key's own leaf as evidence of absence |
| JmtProofTheorems.SameContentsSameHash | grug/jellyfish-merkle/src/tree.rs:225-303 | History independence: equal maps have equal root hashes whatever the batches before |
| JmtProofTheorems.SameHashSameContents | grug/jellyfish-merkle/src/node.rs:62-76 | Without collisions, equal root hashes mean equal maps |
| JmtBitArray.RepresentationIsUnique | grug/jellyfish-merkle/src/bitarray.rs:18-30 | Equal bit sequences have equal representations, since unused bits stay zero |
| JmtBitArray.BitArray.BitAtIndex | grug/jellyfish-merkle/src/bitarray.rs:88-102 | Any bit of the sequence |
| JmtBitArray.BitArray.Push | grug/jellyfish-merkle/src/bitarray.rs:104-128 | Appends one bit to the sequence in place, which must have room for it |
| JmtBitArray.BitArray.FromBits | grug/jellyfish-merkle/src/bitarray.rs:61-86 | The sequence of the bits given, packed into bytes |
| JmtBitArray.BitArray.FromBytes | grug/jellyfish-merkle/src/bitarray.rs:42-56 | The bits of the bytes, highest bit first |
| JmtBitArray.BitArray.Range | grug/jellyfish-merkle/src/bitarray.rs:130-134 | The iterator yields the bits between the bounds, in order or reversed |
| JmtBitArray.BitArray.ExtendOneBit | grug/jellyfish-merkle/src/bitarray.rs:32-40 | The path of a child |
| JmtBitArray.BitIterator.constructor | grug/jellyfish-merkle/src/bitarray.rs:199-208 | What is to be yielded is the slice between the bounds, in order or reversed, and nothing if they cross |
| JmtBitArray.BitIterator.Next | grug/jellyfish-merkle/src/bitarray.rs:266-279 | Yields the first bit to be yielded and keeps the rest |
| JmtBitArray.BitIterator.Drain | grug/jellyfish-merkle/src/bitarray.rs:199-279 | The whole iteration is the slice ascending or descending |
| JmtBitArray.BitsOf | grug/jellyfish-merkle/src/tree.rs:472-474 | What the iterator over a key's bytes yields is the key that the tree is walked along |
| JmtBitArray.ByteOrderIsBitOrder | grug/jellyfish-merkle/src/tree.rs:118-127 | Sorting hashes by bytes sorts them by bits, as the tree needs |
| AppStore.ApplyTwice | grug/types/src/buffer.rs:138-142 | Flushing one batch on another is the same as merging them, the later one winning |
| AppStore.ReadAfter | grug/types/src/buffer.rs:138-142 | After a batch, a key that was written has the new value, one that was deleted has none, and the others are unchanged |
| AppStore.BufferedStorage.Read | grug/types/src/buffer.rs:59-65 | A read through all buffers finds what the store with all pending writes holds |
| AppStore.BufferedStorage.Flush | grug/types/src/buffer.rs:138-142 | Writes go to the topmost buffer alone |
| AppStore.BufferedStorage.Consume | grug/types/src/buffer.rs:49-52 | Writing a buffer back changes nothing that is seen |
| AppStore.BufferedStorage.Commit | grug/types/src/buffer.rs:42-45 | The same, leaving the buffer open and empty |
| AppSemantics.RunCall | grug/app/src/vm.rs:137-438 | A call and its submessages leave a store explained by the kept calls alone, which are all calls if none failed; too deep it always fails |
| AppSemantics.RunSubMessages | grug/app/src/submessage.rs:61-91 | The same for all submessages of a response; beyond the depth limit they fail even if there are none |
| AppSemantics.RunEach | grug/app/src/submessage.rs:91-196 | The same one after another; a failure ends it and leaves what its siblings wrote |
| AppSemantics.RunSubMessage | grug/app/src/submessage.rs:92-192 | The same for one submessage and its reply: all of its effects or none; which reply, if any, `ReplyByModeAndOutcome` says |
| AppSemantics.RunMessage | grug/app/src/app.rs:1000-1077 | The same for each kind of message |
| AppSemantics.RunFundedCall | grug/app/src/execute/execute.rs:62-123 | The same for funds sent before a contract is called, without telling it |
| AppSemantics.RunTransfer | grug/app/src/execute/transfer.rs:59-148 | The same for a transfer and what its recipients then do |
| AppSemantics.ReplaysConcat | grug/app/src/submessage.rs:91-196 | Calls that replay on a store, followed by calls that replay on what they leave, replay together |
| AppSemantics.ThenIsExplained | grug/app/src/submessage.rs:91-196 | Executions in sequence are explained by the kept calls of both |
| AppExecutor.CallContract | grug/app/src/vm.rs:137-438 | Over buffers does what RunCall says, and writes to the topmost buffer alone |
| AppExecutor.HandleSubmessages | grug/app/src/submessage.rs:61-197 | Over buffers does what RunSubMessages says; terminates for arbitrary contracts |
| AppExecutor.ProcessInBuffer | grug/app/src/submessage.rs:92-108 | A message in a buffer of its own leaves all its writes or none |
| AppExecutor.HandleSubmessage | grug/app/src/submessage.rs:105-192 | Over buffers does what RunSubMessage says, and so what `ReplyByModeAndOutcome` says |
| AppExecutor.ProcessMessage | grug/app/src/app.rs:1000-1077 | Over buffers does what RunMessage says |
| AppExecutor.FundAndCall | grug/app/src/execute/instantiate.rs:116-162 | Over buffers does what RunFundedCall says |
| AppExecutor.DoTransfer | grug/app/src/execute/transfer.rs:59-148 | Over buffers does what RunTransfer says |
| AppExecutor.ProcessMessagesThenBackrun | grug/app/src/app.rs:896-950 | Over buffers executes what `WorkInTurn` says: all messages in order up to the first that fails, then the backrun |
| AppExecutor.ProcessFinalizeFee | grug/app/src/app.rs:952-998 | Settles the fee on the fee buffer, and drops that buffer if it fails |
| AppExecutor.ProcessTx | grug/app/src/app.rs:726-893 | Over the two buffers of a transaction does what RunTx says, and so what `TransactionInTurn` says, whatever buffers are open below |
| AppTransaction.RunInside | grug/app/src/app.rs:783-878 | Authentication and messages keep only successful calls: all, those of the authentication, or none |
| AppTransaction.RunTx | grug/app/src/app.rs:726-998 | The store after a transaction is explained by successful calls alone, replayed in order, which are all calls if none failed |
| AppTransaction.EndsInOneOfFourStages | grug/app/src/app.rs:726-998 | The store is unchanged, or has the effects of the fee, of fee and authentication, or of everything; which one follows from the step that failed, and only the last is a success |
| AppOrder.CallThenSubMessages | grug/app/src/submessage.rs:92-196 | A contract is called once, and then its submessages are attempted in order, each on what the one before it left, up to and including the first that ends in an error |
| AppOrder.ReplyByModeAndOutcome | grug/app/src/submessage.rs:105-192 | In each of the eight combinations of mode and outcome: called back right away with payload and outcome, on which store, and ending as that call does; or passed on as it is; or aborted with nothing kept |
| AppOrder.MessageByKind | grug/app/src/app.rs:1000-1077 | What is called for each kind of message, with what, and on which store |
| AppOrder.TransferMessage | grug/app/src/app.rs:1019-1032 | The recipients of a transfer message are told |
| AppOrder.FundsComeFirst | grug/app/src/execute/execute.rs:62-123 | After a success, attached funds were moved by the bank before the contract was called |
| AppOrder.TransferThenReceives | grug/app/src/execute/transfer.rs:59-148 | The bank moves the coins, and then each recipient that exists is told of its own, in order, unless nobody is to be told |
| AppOrder.WorkInTurn | grug/app/src/app.rs:896-950 | All messages are executed in order up to the first that fails, and the backrun exactly if it was asked for and none failed; it succeeds exactly if nothing failed |
| AppOrder.TransactionInTurn | grug/app/src/app.rs:726-998 | Every step of a transaction: who is called with what, on which store and meter, what a failure takes back, and what the taxman is told in the end |
| AppOrder.SuccessExecutesAll | grug/app/src/app.rs:726-950 | A transaction that succeeds has executed all its messages, in their order |
| MathSqrt.CheckedSqrt | grug/math/src/exponentiate.rs:130-153 | For every word: terminates, overflows nowhere, and gives the floor of the root, or an error for a negative number |
| MathSqrt.FloorRootIsUnique | grug/math/src/exponentiate.rs:128-153 | There is one floor of the root |
| MathSqrt.StepStaysAbove | grug/math/src/exponentiate.rs:141-146 | No step of the iteration falls below the root |
| MathSqrt.SumFits | grug/math/src/exponentiate.rs:141-146 | The sum of a step fits the word |
| MathSqrt.FindScaling | grug/math/src/exponentiate.rs:89-97 | Finds the largest scaling that fits |
| MathSqrt.DecimalCheckedSqrt | grug/math/src/exponentiate.rs:82-105 | Fails only for negative decimals, and otherwise gives the scaled root, which fits |
| MathSqrt.ScaledRootBounds | grug/math/src/exponentiate.rs:82-105 | The result is below the root by less than one unit of the scaling |
| MathSqrt.EvenPlacesGiveTheRoot | grug/math/src/exponentiate.rs:82-105 | With an even number of places it is the decimal's root, and the exact floor if the largest scaling fits |
| MathSqrt.RootIsRightIff | grug/math/src/exponentiate.rs:89-101 | It is the decimal's root if and only if the number of places is even or the decimal is zero |
| MathSqrt.OddPlacesExample | grug/math/src/exponentiate.rs:89-101 | A wrong root with one decimal place in a word of 128 bits |
| MathDecimalText.Format | grug/math/src/dec.rs:157-184 | Prints the sign and the digits of the magnitude without trailing zeros, except the minimum of a type without decimal places |
| MathDecimalText.TextReadsBack | grug/math/src/dec.rs:157-259 | The text of every value reads back as that value |
| MathDecimalGrammar.PrintedIsCanonical | grug/math/src/dec.rs:157-184 | The printed text has nothing superfluous: no leading zero, no zero at the end of the fraction, no sign but a needed minus, and a dot only before a fraction |
| MathDecimalText.PrintedReadsBackIff | grug/math/src/dec.rs:157-259 | What is printed reads back if and only if it is not the minimum of a signed type without decimal places |
| MathDecimalText.TooManyDigitsAreRefused | grug/math/src/dec.rs:224-232 | A part after the dot that is longer than the places is refused, whatever it consists of |
| MathDecimalText.PlusIsReadAsZero | grug/math/src/dec.rs:211-232 | Digits after a plus after the dot are read as after a zero |
| MathDecimalGrammar.AcceptedIff | grug/math/src/dec.rs:199-259 | A text is read as a value if and only if it is an optional sign, digits, and optionally a dot, an optional sign and digits, within the places, and has that value, which fits |
| MathDecimalGrammar.FitsIffValueFits | grug/math/src/dec.rs:199-259 | Nothing but the value itself can be too large, for parts shorter than 32 bits can count |
| MathDecimalGrammar.ParsingIsExact | grug/math/src/dec.rs:193-259 | Nothing is rounded: what has the shape is read as exactly its value, or refused if the type cannot hold it |
| MathDecimalGrammar.ReadAsWrittenIff | grug/math/src/dec.rs:211-232 | The value is the one written if and only if no sign follows the dot or only zeros follow that |
| MathDecimalGrammar.DigitsAfterDotIff | grug/math/src/dec.rs:211-221 | In accepted text only digits follow the dot if and only if no sign does; a minus there needs a signed type and zeros |
| MathDecimalGrammar.PlusExample | grug/math/src/dec.rs:211-232 | 1.+5 is read as 1.05 |
| MathDecimalGrammar.MinusExample | grug/math/src/dec.rs:211-232 | 1.-0 is read as 1 on a signed type |
| MathDecimalText.MalformedTextIsRefused | grug/math/src/dec.rs:193-259 | Empty text, text that starts with a dot, and text with two dots are refused |
| MathDecimalText.PanicsOnlyOnLongText | grug/math/src/dec.rs:222-240 | The product that is unwrapped overflows only for a text of 2^32 characters or more |
| MathDecimalText.LongTextPanics | grug/math/src/dec.rs:222-240 | The largest number after so many zeros that its length looks like none overflows it |
| MathDecimalText.SomeTextPanicsIff | grug/math/src/dec.rs:222-240 | Some text overflows it if and only if the type has decimal places |
| AuthNonces.Account.Authenticate | dango/auth/src/lib.rs:166-220 | Accepts a nonce exactly if it is acceptable by everything accepted so far, and only then changes the window |
| AuthNonces.CheckedIffAcceptable | dango/auth/src/lib.rs:169-214 | The check on the window decides what the whole history would |
| AuthNonces.RefusedBecause | dango/auth/src/lib.rs:169-214 | The reason given for a refusal is true of everything accepted so far |
| AuthNonces.WindowAfter | dango/auth/src/lib.rs:189-217 | The window stays that of the largest nonces accepted, and its maximum grows by at most 100 |
| AuthNonces.WindowChange | dango/auth/src/lib.rs:189-217 | Only a nonce older than all that are kept is dropped, and there are never more than 20 |
| AuthNonces.NoNonceTwice | dango/auth/src/lib.rs:166-220 | Whatever is attempted, no nonce is accepted twice |
| AuthNonces.NextNoncePassesIff | dango/client/src/signer.rs:39-54 | The client's next nonce passes exactly as long as any nonce does, which is while the maximum and 100 fit 32 bits |
| AuthNonces.CountingIsAccepted | dango/auth/src/lib.rs:166-220 | Of attempts that count up from zero exactly the first 2^32 - 99 are accepted |
| AuthNonces.NextInLine | dango/auth/src/lib.rs:193-214 | The nonce after the largest is accepted exactly while the largest plus 100 fits 32 bits |
| AuthNonces.SendAll | dango/client/src/signer.rs:39-54 | A client that asks for its nonce once and then signs and sends gets exactly as many transactions accepted as there is room for, under successive nonces |
| BankLedger.Bank.Instantiate | dango/bank/src/execute.rs:15-46 | The balances at genesis are saved as given and add up to the supplies; it fails exactly if a supply would be too large, and stores no zero exactly if none is given |
| BankLedger.ZerosAtGenesisIff | dango/bank/src/execute.rs:15-36 | A zero is stored at genesis if and only if one is given |
| BankLedger.Bank.ZeroAtGenesis | dango/bank/src/execute.rs:18-20 | A zero balance at genesis |
| BankLedger.Bank.Mint | dango/bank/src/execute.rs:94-132 | Exactly when it succeeds and what it changes; supplies stay conserved and orphaned transfers covered |
| BankLedger.Bank.Burn | dango/bank/src/execute.rs:134-147 | The same for burning |
| BankLedger.Bank.ForceTransfer | dango/bank/src/execute.rs:175-198 | The same for a forced transfer |
| BankLedger.Bank.RecoverTransfer | dango/bank/src/execute.rs:200-228 | While orphaned transfers are covered, refuses only those who are neither sender nor recipient; pays the caller |
| BankLedger.Bank.Send | dango/bank/src/execute.rs:259-283 | Exactly when one transfer succeeds and what it changes; an unknown recipient's coins are held and recorded |
| BankLedger.Bank.BankExecute | dango/bank/src/execute.rs:256-304 | The net change of every balance by all transfers together; it succeeds exactly if each transfer is within what the sender has after those before it, and what waits then fits |
| BankLedger.Bank.ExecuteAll | dango/bank/src/execute.rs:49-64 | Over any run balances add up to supplies, no zero is stored where none was, and what waits is covered unless the bank's own coins are spent |
| BankLedger.Bank.Execute | dango/bank/src/execute.rs:49-64 | Exactly when each operation succeeds, given who asks for it and what everybody has; what it does to balances, supplies and orphaned transfers; a failed one does nothing |
| BankLedger.Bank.MoveCoins | dango/bank/src/execute.rs:186-189 | Moves the coins in any order, exactly if the sender has them all |
| BankLedger.Bank.IncreaseBalance | dango/bank/src/execute.rs:346-367 | A balance that is not zero is stored, and no zero is |
| BankLedger.Bank.DecreaseBalance | dango/bank/src/execute.rs:369-390 | A balance that becomes zero is deleted |
| BankLedger.MovingConserves | dango/bank/src/execute.rs:346-390 | Moving conserves, and the addition cannot overflow |
| BankLedger.MintingConserves | dango/bank/src/execute.rs:306-324 | Minting conserves; if the supply fits, so does the balance |
| BankLedger.BurningConserves | dango/bank/src/execute.rs:326-344 | Burning conserves; a balance is never more than the supply |
| BankLedger.OrphanIsCovered | dango/bank/src/execute.rs:262-277 | A transfer to an unknown recipient is held by the bank in full |
| BankLedger.OrphanCanBePaid | dango/bank/src/execute.rs:206-215 | What waits can be paid out |
| DexBuckets.BucketIsNearest | dango/dex/src/liquidity_depth.rs:13-38 | A bid's bucket is the largest multiple up to the price, an ask's the smallest from it, or the largest number if there is none; it fails exactly if the quotient does not fit |
| DexBuckets.SplitProduct | dango/dex/src/liquidity_depth.rs:52-88 | Rounding two parts down loses one against rounding the whole exactly if their remainders make up one |
| DexSizes.LostCoins | dango/dex/src/liquidity_depth.rs:52-88 | For whole coins, what is lost depends on the price's last 18 digits alone |
| DexSizes.SomeSplitLosesIff | dango/dex/src/liquidity_depth.rs:52-88 | Some order of whole coins loses a unit when filled in two parts if and only if those are not all zeros |
| DexSizes.BidIsLargest | dango/dex/src/execute/order_creation.rs:73-89 | A bid is for as many coins as what is given can pay for, and takes no more than that |
| DexSizes.SizedByWorth | dango/dex/src/execute/order_creation.rs:73-99 | A bid's worth is its coins times the price rounded up, an ask's rounded down, and an ask is for all coins given |
| DexSizes.NewOrderIff | dango/dex/src/execute/order_creation.rs:101-110 | An order is accepted exactly if its worth is not below the minimum and it fits, with all its coins remaining |
| DexSizes.SizeIsZeroIff | dango/dex/src/execute/order_creation.rs:73-110 | A new order has size zero exactly if it is a bid for less than one coin costs and there is no minimum |
| DexSizes.ZeroSizePassesIff | dango/dex/src/execute/order_creation.rs:73-110 | One can be placed at a price if and only if there is no minimum and the price is above one |
| DexMatching.NothingTradesMore | dango/dex/src/core/order_matching.rs:32-95 | At no price is more traded than the volume found |
| DexMatching.RangeIsOptimal | dango/dex/src/core/order_matching.rs:6-12 | The range found is at which as much is traded as at any price, and without orders of size zero at no other price is |
| DexMatching.MatchOrders | dango/dex/src/core/order_matching.rs:32-95 | Walking down both sides finds that range and volume; it fails exactly if the matched volume of a side is too large |
| DexMatching.FillSide | dango/dex/src/core/order_filling.rs:60-181 | Every order gets what is left of the volume after those before it, up to its size |
| DexMatching.LeftDoesNotCross | dango/dex/src/core/order_filling.rs:67-116 | A bid and an ask that both keep something do not trade with each other |
| DexMatching.FilledAccepts | dango/dex/src/core/order_matching.rs:6-12 | Whoever gets something accepts every price of the range |
| DexMatching.FillsAreWhole | dango/dex/src/core/order_filling.rs:67-76 | Whole coins are filled by whole coins |
| DexMatching.ClearingPriceIsInRange | dango/dex/src/cron.rs:354-377 | The clearing price is in the range; exactly when there is none |
| DexMatching.ClearingPriceIsNearest | dango/dex/src/cron.rs:356-377 | It is the price of the range closest to the middle of the resting book, or else the middle of the range |
| DexQueue.PriceTimePriority | dango/types/src/dex/order.rs:13-27 | The order of the storage keys is that of better prices first, and older orders first at the same price |
| DexQueue.Iterate | dango/dex/src/cron.rs:297-316 | All orders of one direction, in that order |
| DexQueue.MatchedVolumeIsBest | dango/dex/src/core/order_matching.rs:32-95 | The volume is the most that the book, as a whole, trades at any one price |
| DexQueue.RangeClears | dango/dex/src/cron.rs:354-392 | At every price of the range so much is traded, and by orders that accept it |
| DexQueue.FillsBalance | dango/dex/src/core/order_filling.rs:27-57 | As much is bought as is sold |
| DexQueue.NoOvertaking | dango/dex/src/core/order_filling.rs:67-116 | Behind an order that is not filled wholly nobody gets anything |
| DexBook.Book.IncreaseDepths | dango/dex/src/liquidity_depth.rs:43-75 | Raises the depth of the order's bucket for every size, and no other; exactly when it fails |
| DexBook.Book.DecreaseDepths | dango/dex/src/liquidity_depth.rs:79-113 | Lowers it; what the index holds for an order can be taken out exactly if there are entries to take it from |
| DexBook.Book.CreateOrder | dango/dex/src/execute/order_creation.rs:101-153 | A new order of whole coins under a fresh number, and exactly when there is one; the index stays exact |
| DexBook.Book.PlaceOrder | dango/dex/src/execute/order_creation.rs:71-153 | A user's order has the size that what is given allows, and is placed exactly if that is not too large or too small and the index has room |
| DexBook.Book.RemoveOrder | dango/dex/src/cron.rs:91-110 | An order leaves book and index; it cannot fail for an order of positive size |
| DexBook.Book.CancelOrder | dango/dex/src/execute/order_cancellation.rs:62-133 | Exactly when a cancellation succeeds; an ask gives back its coins and a bid their worth rounded down; for a resting order of positive size, exactly for its owner if the refund fits |
| DexBook.CancelingUndoesPlacing | dango/dex/src/execute/order_cancellation.rs:108-118 | Canceling a new order gives back all of what an ask took, and of what a bid took all but what rounding keeps, which is no more than one coin |
| DexBook.Book.FillOrder | dango/dex/src/cron.rs:433-511 | A fill reduces or removes the order, and takes from the index what was filled and its rounded worth; exactly what rounding leaves behind; passive orders wait for the next auction; it cannot fail for an order of positive size |
| DexBook.Book.FillOrders | dango/dex/src/cron.rs:416-540 | Every order to be filled is, by as much as it is to be, and no other |
| DexBook.Book.RemovePassiveOrders | dango/dex/src/cron.rs:91-110 | Exactly the passive orders leave |
| DexBook.Book.ReplacePassiveOrders | dango/dex/src/cron.rs:91-275 | The book is then exactly the orders that were not passive and one new order for each offer of the pool |
| DexBook.Book.CancelImmediateOrders | dango/dex/src/cron.rs:568-591 | Exactly the orders that do not rest leave, and the index is not concerned |
| DexBook.Book.MatchBook | dango/dex/src/cron.rs:290-397 | The fills give every order of the book its part of the volume, and the volume is the most that can be traded |
| DexBook.Book.Clear | dango/dex/src/cron.rs:290-591 | The book trades the most it can at one price that clears it, in price-time priority, as much bought as sold; what is left does not cross; no fill fails without orders of size zero |
| DexBook.Book.Auction | dango/dex/src/cron.rs:91-591 | The passive orders become exactly what the pool offers, and the book that results is cleared by the most it can trade, at one price; the index stays exact and the resting book is uncrossed; without sizes of zero it fails only in placing passive orders or in matching numbers that are too large |
| DexBook.Book.ExecuteAll | dango/dex/src/cron.rs:91-591 | Over any run of placing, canceling and auctions the index is exact and all orders are whole coins; without sizes of zero every resting order can be taken out of the index; with coarse prices rounding loses nothing |
| DexDepths.PlacedIsIndexed | dango/dex/src/cron.rs:210-238 | The index stays exact when an order is placed |
| DexDepths.FilledIsIndexed | dango/dex/src/cron.rs:452-491 | It stays exact when an order is filled, what rounding loses being added to what it lost under those keys before |
| DexDepths.WhatOutlivesOrders | dango/dex/src/liquidity_depth.rs:100-109 | Without orders under a key the index holds there exactly what rounding has lost |
| DexDepths.RemovedIsIndexed | dango/dex/src/execute/order_cancellation.rs:83-106 | It stays exact when an order is removed |
| DexDepths.OrderIsBacked | dango/dex/src/liquidity_depth.rs:96-106 | No part of an order makes the index underflow |
| DexBook.EntryOutlivesOrder | dango/dex/src/liquidity_depth.rs:100-109 | A run after which an entry is left without orders |
| DexBook.ZeroSizeIsStuck | dango/dex/src/liquidity_depth.rs:94-109 | A run after which an order of size zero cannot be removed |

## Left out

- The concrete hash function: it is a parameter, and soundness of proofs assumes that it neither collides nor
  gives the zero hash on the inputs that occur.
- `MerkleTree::apply_raw`, which hashes and sorts a raw batch, and serialization of bit paths as storage keys.
- The versions given to the tree: the model asks for strictly increasing ones, as the disk database supplies them.
- Loading errors of the tree's storage, which cannot occur on a valid store; a missing version is an error.
- RootHashAt: a version whose map is empty looks like one that was never written.
- Events and their nesting, tracing, and error texts: a reply sees the trace of calls and answers, which
  determines them.
- The block and the authentication mode: they are the same throughout a transaction, and what contracts and the
  host do may depend on them in any way.
- Gas arithmetic: contracts may consume gas in any way, and the meter is threaded through and never wound back.
- What the host itself does for a message before a contract is called (configuration, code and contract records,
  address derivation, loading of records) is an arbitrary function of store and message, as contracts are.
- Range scans through a buffer, queries, cronjobs, genesis, and the loop over the transactions of a block.
- `Dec::checked_pow`, rounding conversions and the other arithmetic of decimals.
- Transaction expiry, sessions and signatures: an attempt says whether the rest of the authentication passes.
  Simulation, which skips the nonce.
- The bank's namespaces and metadata: who may mint or burn is a parameter. That a failed operation leaves nothing
  behind is the transaction's doing and modelled in `AppExecutor`; `Execute` stands for it.
- Book.Auction: what is paid for a fill in the quote asset, with fees, refunds, volumes in USD and the pool's
  reserve, and failures in computing them; the middle of the resting book, which is any price or none.
- How a price is found for a market order: an order names the price that limit or market comes to.
- `Book.CancelOrder`: the order is named by its key, where the program looks the key up by the order's number.
- Prices and sizes of passive orders, which the pool's curve decides: any, but never of size zero, since both curves
  stop there (`dango/dex/src/core/xyk.rs:155`, `dango/dex/src/core/geometric.rs`).
- More than one pair, and a change of a pair's bucket sizes while orders rest: the index is that of one pair with
  fixed sizes. Depths of different pairs have different keys.
- The index of orders by their stored number, in which a bid and an ask can only meet after 2^63 orders.
