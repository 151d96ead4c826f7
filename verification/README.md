# A verified model of the coordinator-based blockchain

The system is a small replicated blockchain. Node 0 is the coordinator: miners propose blocks to
it, it validates and appends them one at a time and broadcasts commits. The other nodes follow:
they append the next block, ignore old ones, and when they are behind ask node 0 for the missing
blocks. Blocks travel and are stored as CSV lines; a Bash script verifies the same files
independently of the C code.

The project models that system from the bytes up. The transition system at the top calls the
same handler functions that the imperative classes are proved to implement, and those call the
parser, printer, Merkle and validation functions proved below them.

| file | models |
|---|---|
| `Text.dfy`, `Hex.dfy` | string searching, splitting and joining; fixed-width hexadecimal and `strtoull` |
| `Blocks.dfy`, `CsvCodec.dfy` | `common/block.c`: the block, its printer and its lenient parser |
| `Merkle.dfy`, `Hashing.dfy` | `common/crypto.c`: the level loop, the block hash, what equal hashes prove |
| `Validation.dfy` | `common/validation.c` |
| `ChainFile.dfy` | `common/blockchain.c`: the growing array and the CSV file |
| `BashVerifier.dfy` | `bash/blockchain.sh` |
| `ShellAgreement.dfy`, `AnyFile.dfy` | the script against the C side: on saved chains, and on every file text |
| `Mempool.dfy`, `Candidates.dfy`, `MinerProcess.dfy` | `miner/mempool.c`, `miner/miner.c` |
| `NodeQueue.dfy` | `common/node_queue.c`: the ring and the monitor with its condition variables |
| `NodeHandlers.dfy` | the handlers of `node/node.c` and one sync exchange |
| `Samples.dfy` | valid chains of any length, and answers that do not fit a message |
| `Protocol.dfy` | node 0, followers, miners and the network as one transition system |
| `LoadedRuns.dfy`, `Divergence.dfy`, `WrongCommits.dfy` | agreement from any loaded file; disagreement from the empty start; exactly when nodes disagree |
| `MiningRuns.dfy`, `SyncRuns.dfy` | mining and recovery over whole runs |

## Conventions

- SHA-256 (FIPS 180-4) is a parameter `h` of every statement: any function from strings to 64
  lowercase hexadecimal digits. No theorem assumes that it has no collisions; the binding
  theorems return the colliding pair instead, taken from the strings that were really hashed.
- A C string is the sequence of its bytes before the NUL. A message payload is cut at its first
  NUL by the code, so the model starts from the cut text. Files are taken to hold no NUL byte.
- Integers of type `uint64_t` are `U64`, and the successor of an index wraps. An append fails for
  lack of memory once a chain has 2^63 blocks; below that allocation succeeds. A file has at most
  2^63 characters.
- The network is a set of all messages ever sent. Delivering a member never, once or often, late
  or out of order is a choice of steps, so loss, duplication, delay and reordering are all in
  every run. Requests and answers of one sync exchange are separate steps, because the code drops
  `chain_lock` between them. Commits and answers are node 0's; a proposal may be any text.
- A restarted follower or miner is a new number that starts from the initial file.
- `GoodChain` is what a chain loaded from a file and accepted by `validate_blockchain` satisfies
  (or the empty chain). A node loads its initial file without validating it
  (`code/node/node.c:721-735`), so validity, miner and mining theorems assume it of the initial
  chain. Agreement and recovery hold for every file that loads (`LoadedRuns.Startable`), and ask only
  that no index has wrapped past 2^64 (`LoadedRuns.NoWrap`).

## Main results

- Agreement: `LoadedRuns.Agreement` and, as an equivalence, `WrongCommits.AgreementExact`, for no file
  and for every file that loads. From the empty start a follower can end up with a chain that is
  not a prefix of node 0's exactly when node 0 has a second block and its genesis block cannot be
  printed: the sync answer skips such a block and the sync-apply loop does not demand index 0. From
  four blocks on even two followers can then differ, and not before (`Divergence.ForkExact`). From a
  file it happens exactly when a commit carries the height of some follower as its index, is not
  the next block, and links to the block that the search for index count - 1 finds, because the
  initial file is not validated. A last block with its position for an index rules that out
  (`LoadedRuns.PlacedNeverWrong`), a file whose first blocks were cut off does not
  (`WrongCommits.CutExact`).
- Recovery by one sync exchange, with any steps in between, as an equivalence: `SyncRuns.Recovery`. Gaps of up to 15 blocks are always answered (`NodeHandlers.ShortGapFits`), 16
  need not be (`Samples.SixteenMayNotFit`). A follower with such a gap, to which no earlier answer
  adds anything, moves only by the next commit (`SyncRuns.StuckUntilNextCommit`); earlier answers
  add nothing once it has the blocks they were computed from (`SyncRuns.OldAnswerAddsNothing`).
- Mining end to end over runs: `MiningRuns.MiningExact`, `MiningRuns.RoundCompletes`,
  `MiningRuns.ViewNeverBack`, `MiningRuns.Resync`, `Protocol.MinerCoherence`, `Protocol.OneWinner`,
  `Protocol.PendingStays`.
- Binding: `Merkle.MerkleBinding`, `Merkle.JoinedBinding`, `Validation.HistoryBinding`.
- Parser and loader on every input, as equivalences: `Blocks.ParserExact`, `Hex.ParseHexExact`,
  `ChainFile.LoadExact`; and the round trips `Blocks.RoundTripExact`, `Blocks.ParserNormalForm`,
  `ChainFile.FileRoundTrip`.
- The handlers on any payload, as equivalences: `NodeHandlers.ProposalExact`,
  `NodeHandlers.CommitExact`, `NodeHandlers.ApplyExact`, `MinerProcess.SubmitExact`.
- Two verifiers: `ShellAgreement.BashAgrees` and `ShellAgreement.CAcceptanceImpliesBash` on saved
  chains, `AnyFile.TextsAgree` on arbitrary file texts.
- The queue: `NodeQueue.QueueSafety`, `NodeQueue.OpenServes`, `NodeQueue.ShutdownDrains`.

## Model

| member | source | states |
|---|---|---|
| `LoadedRuns.Agreement` | code/node/node.c:489-613 | from no file and from every file that loads: in every reachable state in which no message can lead a follower astray, every follower's chain is a prefix of node 0's and any two followers agree at every common height |
| `LoadedRuns.RunLoaded` | code/node/node.c:721-735 | from every file that loads a run keeps the blocks that node 0 added linked with indices in step, and, as long as no commit can be accepted at a wrong height, every follower on node 0's chain at a height that syncs lead to |
| `LoadedRuns.CommitStays` | code/node/node.c:505-549 | a commit at a prefix adds the next block or nothing, unless it carries the follower's height as index and links to the block that the search for index count - 1 finds |
| `LoadedRuns.CommitGoesWrong` | code/node/node.c:508-526 | and in that case it is appended |
| `LoadedRuns.PlacedNeverWrong` | code/node/node.c:505-526 | that never happens when the last loaded block has its position for an index |
| `LoadedRuns.LowNeverWrong` | code/node/node.c:510-522 | nor when every loaded index lies below the last position |
| `LoadedRuns.AheadNotYetWrong` | code/node/node.c:539-552 | nor before node 0 has more blocks than the last loaded index |
| `WrongCommits.AgreementExact` | code/node/node.c:505-605 | for no file and every file that loads, and every chain: some run in which node 0 reaches the chain makes a follower disagree if and only if either the nodes start empty, the chain is good with a second block and its genesis block is not printable, or the chain extends the file and a commit of it can be accepted at a wrong height that syncs lead to |
| `WrongCommits.StopReached` | code/node/node.c:453-481 | every height of that kind is reached by some run |
| `Divergence.ForkExact` | code/node/node.c:505-526 | from the empty start some run reaching a given chain makes two followers hold different blocks at a common height if and only if the chain is good with at least four blocks and its genesis block is not printable; from a file only if a commit can be accepted at a wrong height |
| `WrongCommits.CutExact` | code/node/node.c:721-735 | from a file with a stretch c[a..b] of a valid chain some run reaching the rest of the chain makes a follower disagree if and only if a > 0 and the chain has at least a + b blocks |
| `WrongCommits.StrayFile` | code/node/node.c:510-512 | from the file of blocks 0, 2, 1 of any valid chain of four some run makes node 0 and a follower disagree after two proposals |
| `Divergence.ForkingRun` | code/node/node.c:505-605 | the run in which one follower applies the commit of block 2 twice and another goes on to block 3 |
| `Divergence.GenesisNeverArrives` | code/node/node.c:453-458 | in every run from empty nodes no follower ever holds a genesis block that cannot be printed |
| `Divergence.RunInLine` | code/node/node.c:505-605 | while node 0 has at most three blocks, followers without its genesis block are still prefixes of one chain |
| `Divergence.DisagreementReached` | code/node/node.c:453-476 | whatever such a chain looks like beyond, a run exists in which node 0 holds it and a follower does not hold a prefix of it |
| `Divergence.DivergingRun` | code/node/node.c:592-593 | the six steps after which node 0 has two blocks and an initially empty follower has only the second |
| `Divergence.UnprintableGenesisExists` | code/common/block.c:264-269 | for every hash function there are valid chains of every length whose genesis block the parser yields and the printer refuses |
| `Protocol.CoordinatorValid` | code/node/node.c:116-155 | in every reachable state from an empty or valid chain node 0's chain is empty or passes whole-chain validation, block i has index i, and it is the initial chain followed by the accepted blocks in order |
| `Protocol.OneWinner` | code/node/node.c:116-168 | over any interleaving of proposals the growth in height is the number of acceptances, and of two accepted proposals the later carries the larger index |
| `Protocol.MinerCoherence` | code/miner/miner.c:145-263 | in every reachable state a miner's view is (0, zeros) or (k, hash of node 0's block k-1) with k at most node 0's height, and its pool holds grammar-valid transactions only |
| `MiningRuns.MiningExact` | code/miner/miner.c:610-733 | view read, batch taken later, proposal made later still: node 0 appends and broadcasts the candidate if and only if the view is still current and the time is not before the tip's; otherwise it is rejected as invalid |
| `MiningRuns.RoundCompletes` | code/node/node.c:149-155 | after a broadcast, delivery of the commit brings every miner to the new tip with none of its transactions pending, and every follower that was at the old tip to the new chain |
| `MiningRuns.MinerCatchesUp` | code/miner/miner.c:374-402 | the commit of node 0's newest block makes any older view current and removes every copy of its transactions |
| `MiningRuns.ViewNeverBack` | code/miner/miner.c:382-386 | over any run without a resync a miner's view never goes back |
| `MiningRuns.MinerStarts` | code/miner/miner.c:735-775 | a new miner would mine index 0 on zeros with nothing pending |
| `MiningRuns.Resync` | code/miner/miner.c:145-263 | height question, height answer, block question and block answer, with any steps between them, leave the view at the end node 0's chain had at the first, or as it was if that block cannot be printed; an empty chain resets it |
| `MiningRuns.SubmittedPends` | code/miner/miner.c:287-308 | a confirmed submission is pending over any run until a commit holds its text |
| `MiningRuns.MinedCarries` | code/miner/miner.c:644-709 | a candidate carries the view that was read, the given time and nonce, the front of the pool, and the root that hashing level after level gives |
| `Protocol.PendingStays` | code/miner/mempool.c:87-131 | over any run a pending transaction keeps its number of copies at least until the miner processes a commit holding the same text |
| `Protocol.CommitClears` | code/miner/miner.c:374-378 | a broadcast commit that holds the text removes every copy of it |
| `SyncRuns.Recovery` | code/node/node.c:552-605 | from no file and every file that loads: node 0 answers a request with a text that fits, any steps happen, the answer is applied; the follower then holds all that node 0 held when it answered if and only if the nodes started from a file, or node 0 was empty, or its genesis block can be printed; from a file this is stated for runs in which no commit can be accepted at a wrong height |
| `SyncRuns.StuckUntilNextCommit` | code/node/node.c:453-481 | whatever the nodes start from: while the answer for a follower's height does not fit in a message and none of the answers it was ever sent adds anything to its chain, it keeps its chain over any run until the commit of its very next block is delivered |
| `SyncRuns.OldAnswerAddsNothing` | code/node/node.c:585-605 | an answer computed when node 0 had at most as many blocks as the follower has now adds nothing |
| `SyncRuns.OldAnswerAtLast` | code/node/node.c:585-605 | the same for any follower whose last block is one that node 0 has, whatever lies before it |
| `SyncRuns.StuckReachable` | code/node/node.c:453-481 | for every hash function some run leaves a follower in that state that node 0 has answered before |
| `Protocol.RunGrows` | code/node/node.c:116-155 | over any run from any state the chains of node 0 and of every follower only grow at their end |
| `Protocol.NextKeeps` | code/node/node.c:617-654 | every step of every participant keeps the whole protocol invariant |
| `Protocol.RunKeeps` | code/node/node.c:657-672 | so does every run |
| `Divergence.ProposeRest` | code/node/node.c:71-177 | proposing the blocks of a valid chain in order makes node 0 hold exactly that chain, whatever its genesis block, and broadcasts every printable one |
| `Protocol.CommitAtPrefix` | code/node/node.c:505-549 | a commit of block j at a follower holding the first k blocks is old, asks for a sync from k, or is appended, as j is below, above or equal to k |
| `NodeHandlers.SyncCatchesUp` | code/node/node.c:579-605 | an answer computed from node 0's first n blocks for a request at `from`, applied at height k >= `from`, leaves exactly the longer of the two prefixes; only an empty follower facing an unprintable genesis block gets the n blocks without it |
| `NodeHandlers.SyncExact` | code/node/node.c:592-593 | a sync leaves a prefix of node 0's chain if and only if it is not the case that the follower is empty, node 0 has two blocks and the first is unprintable; in that case it leaves the chain without its genesis block |
| `NodeHandlers.SyncAtLast` | code/node/node.c:585-605 | wherever the follower's last block is block p-1 of node 0, whatever lies before it, an answer for a request at most p adds exactly the blocks from p on |
| `NodeHandlers.ApplyAt` | code/node/node.c:586-599 | one synced line of block j is added behind block p-1 if and only if j is p |
| `NodeHandlers.ApplyTail` | code/node/node.c:585-605 | consecutive lines that start no later than p add exactly the blocks from p on |
| `NodeHandlers.ApplyFresh` | code/node/node.c:592-593 | on an empty chain consecutive lines are all taken, whatever the first index |
| `NodeHandlers.RepeatAppend` | code/node/node.c:505-526 | a follower with more than a blocks that lacks the first a and ends before block k appends block k - a again when its commit arrives |
| `NodeHandlers.LinksOnlyNext` | code/common/validation.c:225-247 | in a valid chain block j links to block k-1 if and only if j = k |
| `NodeHandlers.ShortGapFits` | code/common/ipc.c:172-176 | the answer for a gap of at most 15 blocks is always within the 65536-byte payload limit |
| `Samples.SixteenMayNotFit` | code/common/ipc.c:172-176 | 15 is the largest such gap: at every height there is a valid printable chain with 16 more blocks whose answer is not sent |
| `Samples.UnanswerableStays` | code/node/node.c:453-481 | a request that cannot be answered, and every earlier one, stays so as node 0's chain grows |
| `NodeHandlers.ProposalKeepsGood` | code/node/node.c:116-155 | for any payload the chain stays valid; acceptance appends the parsed block at its own index, rejection changes and broadcasts nothing, and a broadcast is the printed new block |
| `NodeHandlers.ProposalExact` | code/node/node.c:71-177 | for any payload at a valid chain: accepted if and only if it parses to a block that makes a longer valid chain, broadcast if printable; each other reply has its own cause and changes nothing |
| `NodeHandlers.CommitExact` | code/node/node.c:489-552 | for any payload at a valid chain: the block is appended if and only if the longer chain is valid, a lower index is old, a higher one asks for a sync from the height, and nothing else changes the chain |
| `NodeHandlers.ApplyExact` | code/node/node.c:583-602 | the same of a synced line on a non-empty chain |
| `NodeHandlers.ApplyExactEmpty` | code/node/node.c:589-595 | on an empty chain any valid block is taken, whatever its index |
| `NodeHandlers.JunkSkipped` | code/node/node.c:582-604 | a line of an answer that does not parse is skipped and the lines behind it still count |
| `NodeHandlers.InvalidTipStays` | code/common/validation.c:213-217 | a loaded chain with an invalid last block takes no proposal and no synced line |
| `NodeHandlers.QueryExact` | code/node/node.c:246-291 | at a valid chain the answer to an index query reads as the block at that position if it can be printed, and as no block otherwise |
| `NodeHandlers.Node.Check` | code/node/node.c:122-132 | the three validation calls pass if and only if the block is valid and, when there is a last block, linked to it |
| `NodeHandlers.Node.HandleProposal` | code/node/node.c:71-177 | chain, reply and broadcast are those of the handler function for every payload |
| `NodeHandlers.Node.HandleCommit` | code/node/node.c:489-552 | action and chain are those of the handler function for every payload; at a valid chain it appends if and only if the longer chain is valid |
| `NodeHandlers.Node.HandleSyncRequest` | code/node/node.c:426-482 | the loop produces the printable blocks from the requested position on, and no answer if and only if they exceed 65536 bytes |
| `NodeHandlers.Node.ApplySynced` | code/node/node.c:583-602 | one turn of the loop leaves the chain that applying the line defines |
| `NodeHandlers.Node.HandleSyncReply` | code/node/node.c:579-605 | the token loop leaves the chain that applying the lines in order defines |
| `NodeHandlers.Node.HandleQueryIndex` | code/node/node.c:246-291 | the answer is the printed block with that index, or one of the two error texts |
| `MinerProcess.CandidateExact` | code/miner/miner.c:634-727 | a candidate from any view of node 0's chain is printed, read back and appended if and only if the view is current and time has not gone back; from any older view it is rejected |
| `Candidates.CandidateValid` | code/miner/miner.c:681-709 | a candidate made of grammar-valid transactions is valid, printable and survives print and parse |
| `MinerProcess.Miner.HandleCommit` | code/miner/miner.c:337-405 | pool and view after a commit; a commit below the view leaves the view alone, and any other sets the restart flag |
| `MinerProcess.Miner.HandleSubmit` | code/miner/miner.c:265-335 | passes if and only if the first 255 characters are a valid transaction and the pool has room, and then stores exactly them |
| `MinerProcess.Miner.ResyncEmpty` | code/miner/miner.c:184-195 | an empty chain resets the view to (0, zeros) |
| `MinerProcess.Miner.ResyncBlock` | code/miner/miner.c:236-253 | a readable block reply replaces the view whatever it was; anything else changes nothing |
| `MinerProcess.Miner.BuildCandidate` | code/miner/miner.c:634-709 | no candidate on an empty pool, otherwise one with the view and the front of the pool, all of it up to 16 entries; view and pool stay |
| `MinerProcess.SubmitExact` | code/miner/miner.c:265-335 | what a submission does for every payload, with the cause of each refusal |
| `MinerProcess.CommitView` | code/miner/miner.c:374-402 | a commit of node 0's block j moves the view to the later of what it was and j + 1, and takes exactly the block's transactions out of the pool |
| `MinerProcess.OldCommitStays` | code/miner/miner.c:382-402 | whatever the payload, a commit below the view leaves index and hash alone |
| `MinerProcess.ResyncView` | code/miner/miner.c:233-253 | the reply for block i of node 0's chain sets the view to (i + 1, its hash), and an unprintable block leaves it alone |
| `Merkle.MerkleBinding` | code/common/crypto.c:88-221 | lists of any lengths without empty or 128-hex-digit entries and with equal roots are equal, or two strings hashed on the way collide |
| `Merkle.JoinedBinding` | code/common/crypto.c:88-221 | lists of any non-empty entries with equal roots that also join to the same text are equal, or two strings hashed on the way collide |
| `Validation.ValidListsBind` | code/common/validation.c:12-14 | the same for all non-empty lists of grammar-valid transactions |
| `Merkle.LevelConfusion` | code/common/crypto.c:172-204 | without that restriction two different lists share their root for every hash function: a list of digest pairs and the list below it, and computing the second root hashes only strings hashed for the first |
| `Merkle.NodesBind` | code/common/crypto.c:172-204 | equal slots at one level have the same leaves below them or a collision below them |
| `Merkle.LeftEdge` | code/common/crypto.c:139-210 | trees of different depth with equal roots always contain a collision |
| `Merkle.CalculateMerkleRoot` | code/common/crypto.c:88-221 | the in-place level loop terminates within its slots, returns the closed form's root, and hashes exactly the closed form's strings |
| `Merkle.RootIsReduced` | code/common/crypto.c:88-221 | the closed form is what hashing neighbours level after level gives, an odd end paired with the hash of the empty string, at least once |
| `Merkle.PadLevel` | code/common/crypto.c:144-157 | an odd level is completed by the hash of the empty string in its spare slot |
| `Merkle.PairLevel` | code/common/crypto.c:159-208 | the next level is that of the closed form, half as long |
| `Merkle.CountIsCeiling` | code/common/crypto.c:139-210 | slot i of level k is not padding if and only if i * 2^k < n |
| `Merkle.DepthIsLeast` | code/common/crypto.c:139-210 | the number of rounds is the least d >= 1 with 2^d >= n |
| `Hashing.HashInputInjective` | code/common/crypto.c:223-334 | two blocks with the parser's transaction shape have the same hash input if and only if they are equal |
| `Hashing.HashInputParts` | code/common/crypto.c:223-334 | equal hash inputs have equal header fields and equal joined transactions, though nothing separates the fields |
| `Hashing.BuildHashInput` | code/common/crypto.c:223-334 | the buffer is filled exactly and holds the concatenation, or the block is refused |
| `Hashing.CalculateBlockHash` | code/common/crypto.c:336-365 | the hash of that input, or the same refusal |
| `Validation.HistoryBinding` | code/common/validation.c:252-297 | two valid chains with equal tip hashes are equal, lengths included, or two of the strings hashed for their blocks and genesis roots collide |
| `Validation.TipsBind` | code/common/validation.c:196-250 | equal tip hashes of valid chains give equal heights and equal tips, or a collision |
| `Validation.BlocksBind` | code/common/crypto.c:223-334 | two valid blocks with the same hash input are the same block, or both are genesis blocks and their roots collide |
| `Validation.IncrementalIsWhole` | code/common/validation.c:252-297 | for an empty or valid chain, validating the chain with one more block is the same as the checks made at append time |
| `Validation.IndexIsPosition` | code/common/validation.c:225-227 | in a valid chain every index is its position |
| `Validation.PrefixValid` | code/common/validation.c:252-297 | every prefix of a valid chain is valid or empty |
| `Validation.ValidIsPrintable` | code/common/validation.c:144-158 | every valid block after genesis can be printed and has the parser's shape |
| `Validation.UnprintableIsQuotedGenesis` | code/common/block.c:254-269 | a valid parsed block is unprintable if and only if it is a genesis block with a quote in its payload |
| `Validation.MatchesPattern` | code/common/validation.c:12-14 | the single left-to-right pass accepts exactly the language of the regular expression |
| `Validation.ValidTxShape` | code/common/validation.c:12-14 | a valid transaction holds no quote, comma, newline or separator, does not end in a colon, and is neither empty nor a digest pair |
| `Validation.ValidateTransaction` | code/common/validation.c:10-56 | passes if and only if 1 to 255 characters long and in the language of the pattern |
| `Validation.ValidateStructure` | code/common/validation.c:87-159 | the early-return loop decides the structure predicate, genesis exempt from the pattern |
| `Validation.ValidateMerkleRoot` | code/common/validation.c:161-194 | passes if and only if the structure holds and the stored root is the list's root |
| `Validation.ValidateLink` | code/common/validation.c:196-250 | passes if and only if both blocks are valid and linked, with the error that tells which failed |
| `Validation.ValidateChain` | code/common/validation.c:252-297 | passes if and only if the chain is not empty, starts at index 0, and every block and link is valid |
| `Blocks.RoundTripExact` | code/common/block.c:213-504 | printing and parsing returns the same block if and only if no transaction holds the separator and no non-final one ends in a colon |
| `Blocks.PrintThenParse` | code/common/block.c:213-356 | a block the printer accepts is read back unchanged if and only if no non-final transaction ends in a colon |
| `Blocks.ParserNormalForm` | code/common/block.c:358-504 | for every line that parses, printing the block and parsing again gives the same block, and the printer accepts it if and only if no transaction holds a quote |
| `Blocks.ParserYieldsShape` | code/common/block.c:460-487 | whatever the line, a parsed block has at least one transaction, all storable, with no separator, newline or early trailing colon |
| `Blocks.ParserExact` | code/common/block.c:358-504 | for every line and every block: the parser returns the block if and only if the line, up to its end, is a row of three fields that read as its numbers, its two hashes and its joined transactions between quotes, and the block has the parser's shape |
| `Blocks.ColonAmbiguity` | code/common/block.c:264-269 | two different printable blocks print the same line when a colon moves across the separator, and the parser returns the second |
| `Blocks.LineLength` | code/common/block.c:287-294 | the printed length is the precomputed total and at most 4293 |
| `Blocks.AddAllExact` | code/common/block.c:104-155 | adding transactions one by one succeeds if and only if the resulting list is storable, and then appends them in order |
| `Blocks.AddAllRefuses` | code/common/block.c:104-155 | the first transaction that cannot be added decides the error: its length, or the full list |
| `Blocks.PrintsWhenPrintable` | code/common/block.c:230-276 | the printer succeeds exactly on printable blocks |
| `CsvCodec.PrintBlock` | code/common/block.c:213-356 | the offset-driven writer produces the line or the error of the specification; a produced line parses back if and only if the list is shaped |
| `CsvCodec.ParseBlock` | code/common/block.c:358-504 | the cursor-driven parser returns exactly the block that the line spells, in normal form, and an error if and only if it spells none |
| `CsvCodec.MeasureTransactions` | code/common/block.c:242-276 | the loop accepts if and only if all transactions are printable, and sums the joined length |
| `CsvCodec.WriteJoined` | code/common/block.c:325-343 | after the loop the buffer holds what it held, followed by the joined transactions |
| `CsvCodec.WriteLine` | code/common/block.c:287-356 | the buffer of the precomputed size is filled exactly |
| `CsvCodec.TakeFields` | code/common/block.c:387-405 | the comma searches cut the row at its first five commas or fail |
| `CsvCodec.TakeTransactions` | code/common/block.c:460-487 | the separator loop adds the first-match pieces in order |
| `CsvCodec.IsLowercaseHexHash` | code/common/block.c:41-60 | true if and only if 64 lowercase hexadecimal digits |
| `Text.SplitJoinExact` | code/common/block.c:460-487 | splitting a joined non-empty list gives the list back if and only if it is shaped |
| `Text.JoinSplit` | code/common/block.c:460-487 | joining the pieces of any text gives the text back |
| `Text.SplitShaped` | code/common/block.c:460-487 | first-match splitting never leaves a separator in a piece nor a trailing colon on a non-final one |
| `Text.JoinCount` | code/common/block.c:460-487 | a joined list never splits into fewer pieces than it had |
| `Hex.ParseHex16` | code/common/block.c:10-39 | every 64-bit value printed with sixteen digits is read back |
| `Hex.ParseHexExact` | code/common/block.c:10-39 | for every text and value: it reads as the value if and only if it is sixteen characters of optional white space, sign and prefix and then digits, below 2^64 before the sign, negated modulo 2^64 by a minus |
| `Hex.LowerDigit` | code/common/block.c:26-34 | capital hexadecimal digits count as the small ones |
| `Hex.NonCanonicalSpelling` | code/common/block.c:22-34 | every value below 16^14 also has a "0x" spelling that the reader accepts |
| `ChainFile.FileRoundTrip` | code/common/blockchain.c:172-347 | a saved non-empty printable chain loads back unchanged if and only if all its transaction lists are shaped; every line fits the buffer |
| `ChainFile.LoadedShape` | code/common/blockchain.c:227-347 | whatever the file, every loaded block has the parser's shape |
| `ChainFile.LoadExact` | code/common/blockchain.c:227-347 | for every text and every chain: it loads as the chain if and only if it has the header, every line fits the buffer, and every row that is not blank parses, the chain being their blocks in order and not empty |
| `ChainFile.FindIndexValid` | code/common/blockchain.c:112-130 | in a valid chain the linear search by index is array access |
| `ChainFile.AppendExact` | code/common/blockchain.c:72-110 | an append succeeds if and only if there is memory and the list is storable, and then the copy is the block |
| `ChainFile.Blockchain.Grow` | code/common/blockchain.c:42-70 | capacity 4, then doubled, contents kept |
| `ChainFile.Blockchain.Append` | code/common/blockchain.c:72-110 | the block is at the end of the chain, or nothing changed |
| `ChainFile.Blockchain.GetByIndex` | code/common/blockchain.c:112-130 | the first block with that index |
| `ChainFile.Blockchain.GetByHash` | code/common/blockchain.c:132-165 | the first block with that hash, none if and only if no block has it |
| `ChainFile.Blockchain.SaveCsv` | code/common/blockchain.c:172-225 | succeeds if and only if all blocks are printable; otherwise the file holds exactly the blocks before the first that is not |
| `ChainFile.Blockchain.ReadBlocks` | code/common/blockchain.c:274-319 | the line loop computes the specified chain or error |
| `ChainFile.Blockchain.LoadCsv` | code/common/blockchain.c:227-347 | a failed load leaves the destination unchanged, a successful one replaces it by the file's blocks |
| `ShellAgreement.BashAgrees` | code/bash/blockchain.sh:205-332 | the script accepts a saved chain if and only if every block passes its own checks on the text it rereads and the genesis payload holds no comma; for chains with the parser's transaction shape those checks are the C validation apart from timestamps |
| `ShellAgreement.CAcceptanceImpliesBash` | code/common/validation.c:252-297 | of the chains the C side accepts and saves, the script rejects exactly those whose genesis payload holds a comma or, split again, has an empty piece or another root; a genesis list with the parser's shape never does |
| `ShellAgreement.ScriptExact` | code/bash/blockchain.sh:146-333 | on rows of any number and length of transactions the script accepts if and only if every block passes its checks |
| `ShellAgreement.BashIgnoresTime` | code/bash/blockchain.sh:205-332 | for every hash function there is a saved chain that the script accepts and the C side rejects |
| `AnyFile.TextsAgree` | code/bash/blockchain.sh:146-333 | for every file text without NUL bytes: the C side loads a chain valid apart from timestamps from it and its lines are as the printer writes them, if and only if the script accepts it and it keeps the limits only the C side has (line length, 16 pieces of at most 255 characters, nothing after the closing quote, no carriage return inside a row) |
| `AnyFile.ReadFieldsExact` | code/bash/blockchain.sh:219-245 | for every line and all fields: the script reads the fields if and only if the line is made of them, without commas, the last one quoted, and at most two commas behind it |
| `AnyFile.ScriptAcceptsMore` | code/bash/blockchain.sh:277-297 | for every hash function there is a file with seventeen transactions in a block that the script accepts and the C side does not load |
| `AnyFile.RowsAgree` | code/bash/blockchain.sh:205-325 | the same for the rest of a file after any rows already read |
| `AnyFile.ReadsCanonical` | code/bash/blockchain.sh:219-270 | a row that the script reads with its encodings, within the C limits, is the printed form of the block the C parser makes of it |
| `AnyFile.CanonicalReads` | code/common/block.c:358-504 | and such a printed row is read by the script as that block's fields |
| `ShellAgreement.ValidSplitsTime` | code/common/validation.c:225-247 | whole-chain validation is validity apart from timestamps together with timestamps that never fall |
| `ShellAgreement.ReadPrinted` | code/bash/blockchain.sh:219-245 | a printed line is read field by field, or not at all if the transactions hold a comma |
| `ShellAgreement.RowOfBlock` | code/bash/blockchain.sh:247-314 | the row checks on the printed fields of any block are the script's view of index, payload, root and link |
| `ShellAgreement.ShellIsLinked` | code/bash/blockchain.sh:247-314 | for the lists the parser yields that view is the C check without the timestamp |
| `BashVerifier.Verify` | code/bash/blockchain.sh:146-333 | the line loop decides acceptance of any file text |
| `BashVerifier.CheckRow` | code/bash/blockchain.sh:247-314 | one pass of the loop decides the row predicate |
| `BashVerifier.SplitTransactions` | code/bash/blockchain.sh:45-68 | fails if and only if a piece is empty, and otherwise splits as the C parser does |
| `BashVerifier.ComputeRoot` | code/bash/blockchain.sh:84-109 | the growing-array loop returns the same root as the C loop |
| `Mempool.RemoveIncludedCounts` | code/miner/mempool.c:87-131 | swap-with-last removal drops every copy of an included text and no copy of any other |
| `Mempool.RemoveKeepsValid` | code/miner/mempool.c:87-131 | removal keeps the pool grammar-valid |
| `Mempool.Pool.Add` | code/miner/mempool.c:33-60 | stores at the end, or refuses a bad length or a full pool and changes nothing |
| `Mempool.Pool.Snapshot` | code/miner/mempool.c:62-85 | the first entries in order, none removed |
| `Mempool.Pool.Remove` | code/miner/mempool.c:87-131 | the array holds the specified remainder, with the counts of the conservation law |
| `NodeQueue.QueueSafety` | code/common/node_queue.c:30-89 | in every reachable state with barging threads and spurious wakeups no wakeup is lost, every waiting or woken producer still has its message, nobody sleeps after the shutdown, and what was popped is a prefix of what was pushed |
| `NodeQueue.NextAwake` | code/common/node_queue.c:35-89 | every step keeps each queued message covered by a woken consumer while one sleeps, and each free slot by a woken producer |
| `NodeQueue.OpenServes` | code/common/node_queue.c:35-77 | on an open queue every new or resumed call that gets the lock is served, waking one thread of the other side, or waits; none is refused |
| `NodeQueue.ShutdownCloses` | code/common/node_queue.c:80-89 | the shutdown closes the queue, wakes every sleeper and loses no message |
| `NodeQueue.ShutdownDrains` | code/common/node_queue.c:60-89 | after the shutdown nothing is pushed and pops take the remaining messages oldest first |
| `NodeQueue.ClosedPopTakes` | code/common/node_queue.c:60-77 | on a closed queue that is not empty a pop takes a message, both a new call and a consumer resuming from its wait |
| `NodeQueue.WindowPop` | code/common/node_queue.c:71-73 | moving the head drops the oldest message and keeps the rest in order across the wrap |
| `NodeQueue.WindowPush` | code/common/node_queue.c:46-48 | writing at the tail appends and keeps the rest in order across the wrap |
| `NodeQueue.Ring.Push` | code/common/node_queue.c:30-53 | appends to the queue, waits if and only if it is open and full, is refused if and only if it is closed, and then changes nothing |
| `NodeQueue.Ring.Pop` | code/common/node_queue.c:55-78 | takes the oldest message, waits if and only if the queue is open and empty, is refused if and only if it is closed and empty, and then changes nothing |
| `NodeQueue.Ring.Shutdown` | code/common/node_queue.c:80-89 | closes the queue and keeps its contents |

## Behaviour that a reader of the handlers may not expect

The model follows the code in each of these points.

- The sync-apply loop logs a completed recovery whatever it
  applied, and does not demand index 0 on an empty chain, which is what `NodeHandlers.SyncExact`
  is about.
- A submitted transaction longer than 255 characters is cut, not refused, before it is validated.
- Duplicate transactions and transactions already in the chain are accepted everywhere.

## Left out

- LoadedRuns.Agreement: says nothing once indices have wrapped past 2^64, which takes a file whose last index is 2^63 or more.
- WrongCommits.AgreementExact: leaves out the chains that have wrapped in the same sense.
- Divergence.ForkExact: for files from which a commit can be accepted at a wrong height it is not said when two followers then differ from each other, only that one differs from node 0.
- SyncRuns.Recovery: for the same files nothing is said, because a follower that already left node 0's chain need not return to it.
- AnyFile.TextsAgree: a file with NUL bytes is not described, because the C loader cuts or refuses a line there and the shell drops the byte, while a string of the model holds none.
- Sockets, partial reads and writes, message headers and connection handling (`code/common/ipc.c`): only the payload limit and lossy delivery are modelled.
- The inside of SHA-256, and `digest_to_hex`, which only formats its result.
- The POSIX regular expression engine: the one pattern is a predicate, proved equal to its language in `Validation.MatchesPattern`, over ASCII letters and digits.
- Allocation failure, except that an append to a chain of 2^63 blocks fails; the growth of output buffers in the handlers is therefore a string that gets longer.
- Aliasing between blocks: a block is a value, so `block_init`, `block_destroy` and freeing are not modelled and `block_copy` is the loop that adds its transactions.
- The decimal text of heights, sync positions and query arguments (`snprintf`, `sscanf`, `strtol`): the numbers themselves are passed.
- `handle_query_chain`, queries by hash at the node, `block_serialize` and `block_deserialize`: the printer, the parser and the searches under them are modelled, the rest adds only easy members.
- A restart of node 0, and a node 0 that is replaced while runs continue.
- The miner's pool and its view are guarded by two locks; a commit is one step in `Protocol.Next`, while reading the view and taking the batch are separate points in `MiningRuns.MiningExact`.
- Liveness: delivery, connecting while `chain_lock` is held, sleeping, the mining dice and the limit of 16 probed peers; `SyncRuns.Recovery` says what one exchange achieves.
- Fork and exec, signals, the process table and the command prompt (`code/bootstrap/bootstrap.c`), the client and the logger.
- The other subcommands of `code/bash/blockchain.sh`, such as `hash_hex_block`, and its messages.
