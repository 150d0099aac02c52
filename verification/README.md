# CoCaX ledger: a verified model

CoCaX is a small proof-of-work ledger with verifier votes ("PoVS"). A node holds a chain of blocks,
a map of accounts, the minted supply and a mempool. It verifies and votes on blocks, commits them,
fines miners of rejected blocks, swaps its tip for a better-confirmed sibling, adopts or appends
blocks from peers, and mines blocks from its mempool. This project models that state and every step
that changes it, and proves what every run of a node keeps.

## How it is built

The Go code works by updating shared objects, so each of its operations is a method here that does
the same to the same fields: accounts are objects held in a map and updated in place
(`StateHeap.AccountCell`, `StateHeap.ChainState`), a block passed by pointer is an object whose votes,
final flag and nonce change (`BlockHeap.BlockCell`), the caches are maps entries are deleted from
(`Cache.SeenMap`). Every method is proved equal to a function on values: `View()` is the state as a
`Ledger`, and each contract equates the new `View()` with a function of the old one. The theorems are
then about those functions, over all inputs, all runs and all interleavings.

| module | file | subject |
|---|---|---|
| `Models` | models.dfy | entities, constants, cryptography as parameters |
| `Sorting` | sorting.dfy | string order, sorted permutations and their uniqueness |
| `Difficulty` | difficulty.dfy | clamping, machine arithmetic of the retarget, windows |
| `Emission` | emission.dfy | halving rewards and their sum |
| `AccountMath` | accounts.dfy | verification's simulation, the apply step, their agreement |
| `Votes` | votes.dfy | vote merging, finalization threshold, quorums |
| `Consensus` | consensus.dfy | verification, commit, rewards, penalties, books |
| `Replay` | replay.dfy | rebuilding the state from the chain |
| `ForkChoice` | forkchoice.dfy | replacing the tip, confirming a stored block |
| `Sync` | sync.dfy | appending or adopting a peer's blocks, the finality guard |
| `Mempool` | mempool.dfy | admission, priority order, bisection, eviction |
| `Template` | template.dfy | block candidates, nonce search, what a ready pool yields |
| `Protocol` | protocol.dfy | the node as a state machine; conservation and nonces over runs |
| `Offers` | offers.dfy | what is true of every block offered is true of every block on the chain |
| `Runs` | runs.dfy | interleaved AddBlock calls, fork choice and the retarget law over runs |
| `WindowRuns` | windowruns.dfy | one difficulty per window in every reachable chain |
| `ReplayRuns` | replayruns.dfy | replay of every reachable chain |
| `Balances` | balances.dfy | every balance of every reachable state, from the chain and the penalties |
| `PoolRuns` | poolruns.dfy | the mempool over runs, and when it can be mined |
| `EmissionRuns` | emissionruns.dfy | the supply of every reachable chain whose blocks claim the schedule |
| `Finality` | finality.dfy | the finalized prefix over runs |
| `Limits` | limits.dfy | runs from genesis on which a wished-for property fails |
| `Cache` | cache.dfy | the caches of seen identifiers |
| `BlockHeap` | block.dfy | a block in memory |
| `StateHeap` | state.dfy | the chain state in memory |

A run (`Protocol.Run`) is any sequence of events: any number of AddBlock calls in flight, each split
into taking its snapshot, counting its votes and its turn at the lock; penalties; submissions; fork
resolutions; synchronisations; confirmations of stored blocks; and changes of the validator registry.
`IsGenesis` and `GenesisLedger` are the state a first run creates.

Decisions that shape the statements:

- Money is `real`. Rewards halve below 1e-8, so no decimal grid would hold them. The mempool compares
  fees up to 1e-9. Its order is stated for any fees on which that comparison is transitive, which
  `Mempool.BeforeTransitiveExactly` shows to be exactly when the comparator is; fees with the eight
  decimals of the signing payload are such (`Mempool.GridAgrees`), and
  `Limits.OffGridPoolOutOfOrder` is a run in which others are not.
- Hashing, signatures, transaction IDs and "%.8f" printing are functions in a parameter of type
  `Crypto`. Hashes have 64 characters. Collision freedom is assumed only where finality and IDs need
  it, and only on a finite set of headers or payloads, since no 64-character hash separates all.
- Nothing in block verification or admission checks the sign of an amount or a fee. Theorems about
  money, and those about replay and mining that rest on them, are about states whose own chain, or
  pool, carries none negative (`WellFormedChain`, `WellFormedTxs`); what was offered and refused does
  not matter to the main theorems. Links, numbering, nonces, difficulty, fork choice and finality do not
  look at signs at all, nor does replay where nothing was slashed.
  `AccountMath.SafeExactlyWhenNonNegative` says exactly which payments keep balances from going
  negative, `AccountMath.CreatesNoMoneyExactly` which never create money, and
  `Limits.NegativeFeeBreaksPenalty` shows a run in which a negative fee breaks the penalty's guard.
- Replay verifies with an empty chain behind it and so expects difficulty 1 for every block.
  Penalties are not on the chain, so replay forgets them. Both are modelled as written;
  `Replay.Replayable` is the exact condition under which a chain rebuilds.
- Chain replacement by a peer compares hashes at the last finalized index but takes the peer's final
  flags as they come, and fork choice takes a candidate's flag and votes as they come. A final block
  can be lost both ways: `Limits.DroppedMarkLosesFinality` and `Limits.FinalTipLostToSibling` are runs
  from genesis that do it. `Finality.FinalityOverRuns` says exactly which runs keep it.

Where the code and its documentation disagree, the code is followed:

- The repository's README.md, lines 111-113, promises that a retarget never falls below a quarter. Rounding breaks this for
  old difficulties such as 5; `Difficulty.QuarterKeptExactly` gives the exact condition.
- Its line 56 says the fee must be 0.01. The mempool enforces it; block verification does not look.
- Its lines 395-397 say blocks are not synchronised and transactions stay local; the code does both.

## Model

| member | source | states |
|---|---|---|
| `Protocol.ConservationOverRuns` | core/consensus.go:248-282 | in every state reachable through interleaved commits, penalties, forks and chain adoption, whatever was offered: if no payment on the chain itself is negative, minted supply = all balances + all fees ever burned, no balance is negative, the cap holds, and the penalty's supply guard never fails |
| `Protocol.NonceHistoryOverRuns` | core/consensus.go:119-128 | in every reachable state, negative amounts and fees included, each sender's transactions carry 1, 2, ..., k in chain order, its account's nonce is k, and no (sender, nonce) pair occurs twice on the chain |
| `Protocol.CountedNoncesNeverRepeat` | core/consensus.go:403-405 | counted nonces leave no two transactions of one sender with one nonce anywhere on a chain |
| `Balances.BalancesOverRuns` | core/consensus.go:379-417 | in every reachable state, whatever was offered and whatever the signs, each address holds the founder's coins if its chain names it founder, plus the rewards and receipts on the chain, less the payments and fees on it and what penalties took since the state was last rebuilt |
| `Protocol.RunKeepsShape` | core/consensus.go:296-426 | whatever is offered, any event sequence keeps the chain linked and numbered from zero and its nonces counting |
| `Protocol.RunKeepsAccounted` | core/consensus.go:296-426 | whatever is offered, any event sequence keeps the shape, and balanced books as long as the chain itself carries no negative amount or fee |
| `Protocol.UndisturbedCall` | core/consensus.go:296-426 | a call split into snapshot, count and turn, with nothing in between, is AddBlock, however many peers vote and whatever they answer |
| `Offers.RunHolds` | core/consensus.go:417 | a property of blocks that ignores votes, true of all a run starts from and is offered, is true of all blocks on its chain |
| `Runs.AppendedBlocksAreVotedAndValid` | core/consensus.go:330-417 | however stale a call's snapshot and votes, a block it appends was accepted by more than half of this node and the peers asked, counted from the answers themselves, carries each new verifier's vote as it was given, and is valid, senders present, against the very ledger it joins |
| `Runs.InterleavedCall` | core/consensus.go:296-426 | whatever goes on between a call's snapshot, its count and its turn, if more than half of this node, on that snapshot, and its peers accept, the block, with the votes given, is appended exactly when it is valid on the ledger of its turn with its senders present, and otherwise nothing happens; if not, the miner pays the penalty |
| `Runs.TurnAppendsExactly` | core/consensus.go:367-417 | a counted call appends its block at its turn if and only if more than half accepted, the block is valid then and its senders have accounts; a lost vote costs the miner the penalty, and any other failure nothing |
| `Runs.FailedTurnsChangeNothing` | core/consensus.go:369-396 | a turn at the lock that appends nothing changes nothing, except the penalty of a lost vote |
| `Runs.OneAppendPerHeight` | core/consensus.go:379-417 | without chain replacement, whatever two events append, calls racing for the lock or synchronisation, the later blocks stand at greater heights |
| `Runs.ForkChoiceOnlyImproves` | core/fork.go:37-90 | without chain replacement the chain never shortens, buried blocks change only by becoming final, and the block at the old tip's height, buried by now or not, has a (final, accepted votes) no lower, and higher if it is another block, unless both are final |
| `Runs.ChainsAreWellFormed` | core/consensus.go:75-118 | whatever a node is offered, every chain grown from genesis without a successful replacement is numbered by position, hash-linked, each hash recomputable and meeting its difficulty, transactions signed and sequenced with a coinbase only first, one difficulty per 2016-block window |
| `WindowRuns.WindowsOverRuns` | core/difficulty.go:68-86 | in every reachable state, forks and chain replacement included, all blocks of one window of 2016 have one difficulty, and those of the first window difficulty 1 |
| `ReplayRuns.ReplayAgreesWithRun` | core/fork.go:93-147 | in every reachable state, whatever was offered: with no negative amount on the chain, or with nothing slashed whatever the amounts, the chain rebuilds if and only if all its difficulties are 1 and its rewards fit the cap unslashed; in the first case chain, accounts and nonces agree and each balance and the supply exceed the live ones by exactly what was slashed, in the second the rebuilt state is the live one |
| `ReplayRuns.YoungChainsReplay` | core/fork.go:111-122 | in the same states, a chain of at most 2016 blocks rebuilds if and only if its rewards fit the cap |
| `Finality.FinalityOverRuns` | core/network.go:461-482 | once a block at or above f is final, no hash up to f changes and the mark stays, in every state of a run, if and only if each chain it adopts marks a block at or above f and no fork candidate displaces the block at f; refused offers do not matter |
| `Finality.NextSettlesExactly` | core/network.go:461-482 | a single event keeps height f settled if and only if it is so guarded |
| `Finality.ReplacementSettlesExactly` | core/network.go:461-482 | a successful replacement keeps height f settled if and only if the adopted chain marks a block at or above f |
| `Finality.ForkSettlesExactly` | core/fork.go:37-90 | fork resolution unsettles height f if and only if the candidate stands at f and displaces the tip there |
| `Finality.UnmarkedCandidatesAreGuarded` | core/fork.go:48-57 | a candidate at f that does not call itself final is harmless |
| `Finality.SettledPaymentsStay` | core/crypto.go:132-156 | in every state of a guarded run each block up to the settled height has the same transactions by ID and position, and the same payment in each that carries its computed ID, if IDs do not collide |
| `Finality.SameHeaderSamePayments` | core/crypto.go:145-156 | blocks with one header agree on IDs and positions, and on payments where the IDs are computed and do not collide |
| `Models.HeaderDetermines` | core/crypto.go:132-149 | two blocks have one header if and only if they agree in height, parent, timestamp, difficulty, nonce, miner, memo, printed reward, and IDs and positions |
| `Models.PayloadDetermines` | core/crypto.go:55-60 | two payments have one signing payload if and only if they agree in sender, receiver, nonce, timestamp, and printed amount and fee |
| `Sync.FinalizedPrefixSurvives` | core/network.go:461-482 | a successful chain replacement changes no block hash up to the last locally finalized block |
| `Sync.ReplacesExactly` | core/network.go:461-496 | a peer's chain replaces the local one if and only if it rebuilds and, where a local block is final, has the last such block's hash at its height; every other case has its error and changes nothing |
| `Sync.SyncsExactly` | core/network.go:389-423 | synchronising succeeds if and only if nothing is offered, or a whole chain that replaces the local one, or blocks that continue it and one after another verify with their senders present |
| `Sync.LinksAgreeDownwards` | core/consensus.go:80-93 | two linked chains that share one hash share every header below it |
| `Limits.DroppedMarkLosesFinality` | core/network.go:461-482 | from a state reached from genesis, with no hash collision, two successful replacements, the first dropping the mark, replace a final block |
| `Limits.FinalTipLostToSibling` | core/fork.go:48-57 | from a state reached from genesis, with no hash collision, fork choice replaces a final tip by another block that calls itself final |
| `Limits.NegativeFeeBreaksPenalty` | core/consensus.go:268-282 | a run from genesis with one fee of -5.0 leaves an account with more than was minted, and the penalty takes it without touching the supply |
| `Limits.PenalisedChainDoesNotReplay` | core/consensus.go:268-282 | a run from genesis, with one penalty between two accepted blocks, ends in a chain that does not rebuild |
| `PoolRuns.PoolIsTopNOverRuns` | core/mempool.go:43-71 | in every reachable state, as long as the fee comparison is transitive on the fees admitted, the mempool is within its limit, in the code's own order, and exactly the best of all transactions admitted since a block last cleared it |
| `PoolRuns.PendingStaysGenuine` | core/mempool.go:14-35 | in every reachable state every pending transaction is signed, carries its computed ID and, on the grid, exactly the fee 0.01, and no two share sender and nonce |
| `PoolRuns.SubmissionErrsExactlyWhenUnchanged` | core/mempool.go:63-71 | in every reachable state a submission errs exactly when the pool is unchanged, if transaction IDs do not collide |
| `Mempool.PoolIsTopN` | core/mempool.go:43-71 | after any submissions whose admitted fees compare transitively, the pool is the first MempoolMaxSize of the multiset of admitted ones sorted in the code's own order |
| `Mempool.GridPoolIsTopN` | core/mempool.go:45-71 | with eight-decimal fees that order is by exact fee descending, timestamp, nonce and ID |
| `Mempool.BeforeTransitiveExactly` | core/mempool.go:46-58 | for any set of fees, the comparator is transitive on all transactions with those fees if and only if the 1e-9 comparison is transitive on the fees |
| `Mempool.GridAgrees` | core/crypto.go:169-171 | on eight-decimal fees it is |
| `Mempool.BisectionInserts` | core/mempool.go:46-61 | the binary search finds the one place that keeps the pool in priority order, behind equals |
| `Mempool.ErrorExactlyWhenUnchanged` | core/mempool.go:63-71 | a submission errs exactly when the pool is unchanged; an admitted one only by being the lowest of a full pool |
| `Mempool.AdmitsExactly` | core/mempool.go:10-41 | for every pool, accounts and transaction: it is admitted if and only if it is a signed payment at fee 0.01 up to 1e-9 with the sender's next nonce, covered, and no pending one has its sender and nonce; the ID it comes with does not matter |
| `Mempool.RefusalNamesFirstFailure` | core/mempool.go:10-41 | a refusal names the first check that fails |
| `Mempool.BeforeReads` | core/mempool.go:46-58 | a fee higher by 1e-9 or more goes first; below that the earlier timestamp, the lower nonce, the smaller ID |
| `Mempool.GridEquality` | core/crypto.go:169-171 | on eight-decimal amounts the 1e-9 comparison is equality |
| `Mempool.OffGridRing` | core/mempool.go:46-58 | off that grid three admissible fees can each outrank the next in a ring |
| `Limits.OffGridPoolOutOfOrder` | core/mempool.go:43-61 | a run from genesis that admits fees 0.01-9e-10, 0.01 and 0.01+9e-10 leaves a pool out of the code's own order |
| `Mempool.PriorityIsOrder` | core/mempool.go:45-58 | fee, timestamp, nonce, ID rank transactions in a total preorder |
| `PoolRuns.PoolStaysMinable` | core/consensus.go:149-204 | in any run, whatever is offered or submitted, whose events change no account under a pending transaction: each pending transaction is admissible on its own and no sender has two, and if none pending is negative and the supply is within the cap, as it is when none on the chain is negative, mining succeeds exactly when the nonce search does |
| `PoolRuns.MiningIsARun` | core/consensus.go:429-438 | offering the template to an undisturbed call is MineBlock |
| `Template.MiningSucceeds` | core/consensus.go:429-438 | from such a pool a found nonce commits the whole pool in its order and clears it; otherwise nothing changes |
| `Template.TemplateVerifies` | core/consensus.go:173-204 | the candidate mined from a ready pool without negative amounts passes verification against the ledger it was made from |
| `Template.SubmissionKeepsReady` | core/mempool.go:31-41 | admission keeps at most one pending, individually admissible transaction per sender, whatever the signs |
| `EmissionRuns.MinedSupplyStaysUnderCap` | core/consensus.go:165-171 | in every reachable state, whatever was offered, whose chain claims at most each height's reward and carries no negative amount, fewer than 9,900,000 coins exist and neither cap branch is taken |
| `EmissionRuns.HonestOffersStayUnderCap` | core/consensus.go:165-171 | so in every run whose offered blocks, in flight, forked and synchronised ones included, do so |
| `EmissionRuns.OwnTemplatesAreOnSchedule` | core/consensus.go:163-199 | a template made in any state of a run, stale when offered or not, claims at most its height's reward, and is negative nowhere unless its pool is |
| `Template.MinedBlockPays` | core/consensus.go:163-199 | a mined block claims the capped scheduled reward, names miner and reward in its coinbase, and pays out exactly that; the pool's fees leave circulation |
| `Template.AttemptsAreFourExpected` | core/consensus.go:223-243 | at every difficulty the attempts are four times 16^d, limited to 100,000..500,000,000 |
| `Template.FirstWinIsFirst` | core/consensus.go:213-219 | the nonce search returns the first winning nonce in its range, and none only if there is none |
| `Template.MinedBlockIsSealed` | core/consensus.go:207-221 | a mined block differs in nonce, hash and clamped difficulty only, and its hash is its own and meets it |
| `Template.MinesExactly` | core/consensus.go:207-243 | mining yields the first nonce from the block's own on whose hash begins with enough zeros, within the attempts, and fails only if there is none |
| `Template.AttemptsTable` | core/consensus.go:223-243 | 100,000 attempts up to difficulty 3, then 262,144, 4,194,304 and 67,108,864, and 500,000,000 from 7 on |
| `Template.TemplateExactly` | core/consensus.go:149-204 | a template field by field: height, parent, timestamp, expected difficulty, the scheduled reward or what is left of 33,000,000, its coinbase, and the pool in order, numbered from 1 |
| `Template.TemplateNonceIsFirst` | core/consensus.go:207-221 | a template's nonce is the first from 0 whose hash begins with enough zeros |
| `Template.MiningFailsExactly` | core/consensus.go:429-438 | mining fails exactly without a first block, without a winning nonce, or when its block is refused, and says which |
| `AccountMath.ApplyIsSimulationPlusReward` | core/consensus.go:98-134 | with all senders present, applying after the reward gives exactly the simulated accounts plus the reward, self-transfers and mid-block receipts included |
| `AccountMath.ApplyFollowsSimulation` | core/consensus.go:398-414 | the apply loop stays a constant distance from the simulation, never overdraws, and destroys exactly the fees |
| `AccountMath.NoncesCountUp` | core/consensus.go:119-128 | a verified list continues every sender's nonces one by one |
| `AccountMath.SimulationMonotone` | core/consensus.go:119-134 | a list that verifies still verifies when balances are larger |
| `AccountMath.SafeExactlyWhenNonNegative` | core/consensus.go:123-132 | a payment its sender can cover keeps all balances non-negative, whatever the accounts, if and only if its amount is non-negative or it pays oneself without a positive fee |
| `AccountMath.CreatesNoMoneyExactly` | core/consensus.go:123-132 | a payment leaves no more money in the accounts, whatever they are, if and only if its fee is non-negative |
| `AccountMath.SimulatedTxsAreSequenced` | core/consensus.go:100-118 | verification forces sequence numbers to be positions, a coinbase to be first and every payment to be signed |
| `AccountMath.SimulatesExactly` | core/consensus.go:98-135 | a list verifies if and only if each transaction does where it stands: numbered by position, a coinbase only first, signed, with the sender's next nonce after those it has sent in the list, and covered by the sender's balance with what the list brought and took before |
| `AccountMath.AppliesExactly` | core/fork.go:125-143 | the apply loop succeeds if and only if each sender has an account at its turn, from before or from an earlier payment |
| `AccountMath.AppliedBalance` | core/consensus.go:403-413 | the apply loop changes each balance by what the list brings less what it takes |
| `Consensus.CommitIsSimulationPlusReward` | core/consensus.go:382-417 | a commit leaves exactly the accounts that verification simulated, plus the miner's reward |
| `Consensus.CommitIsAllOrNothing` | core/consensus.go:382-417 | a commit happens exactly when the block verifies and all senders exist, and otherwise leaves the ledger as it was |
| `Consensus.ApplyBlockKeepsBooks` | core/consensus.go:398-414 | a verified block keeps conservation, non-negative balances and the cap |
| `Consensus.NonceHistoryExtends` | core/consensus.go:119-128 | a verified block, whatever its amounts, carries every sender's nonces on by one |
| `Consensus.PenaltyKeepsBooks` | core/consensus.go:268-282 | on sound books a penalty keeps the books: what it takes leaves both the offender and the supply, and nobody else is touched |
| `Consensus.PenaltyExactly` | core/consensus.go:268-282 | an offender with an account loses a positive amount, or all it has if that is less, and the supply falls by as much where it can; without an account or a positive amount nothing changes |
| `Consensus.RewardExactly` | core/consensus.go:248-261 | a positive reward is paid to a named miner in full or up to 33,000,000, an account opened if need be, and nothing else changes |
| `Consensus.VerifiesExactly` | core/consensus.go:71-145 | a block verifies if and only if its difficulty is the expected one, its hash is its header's and begins with that many zeros, it follows the last block, its reward fits 33,000,000, and each transaction is acceptable where it stands; on a state without a first block only block 0 does |
| `Consensus.VerifyErrorsAreReal` | core/consensus.go:71-136 | an error names a check that does fail, with what was found and wanted |
| `Consensus.VotesCountExactly` | core/consensus.go:309-365 | the count is the number of acceptances given, this node's and the peers', and each verifier that had not voted is recorded with the vote it gave |
| `Consensus.CommitErrors` | core/consensus.go:382-396 | a refused commit names the failed check, or else a missing sender |
| `Consensus.CommitMovesExactly` | core/consensus.go:382-417 | a commit changes each balance by reward plus receipts less payments and fees, each nonce by the number of payments sent, and the supply by the reward |
| `Consensus.ConcludesExactly` | core/consensus.go:366-396 | a turn at the lock commits if and only if more than half accepted, the block verifies and its senders have accounts; a lost vote alone costs the penalty |
| `Consensus.AddsExactly` | core/consensus.go:296-426 | with any peers: AddBlock commits if and only if the block verifies, its senders have accounts, and this node and the accepting peers are more than half of all; otherwise the ledger is unchanged or the lost vote's penalty is paid |
| `Consensus.VerifiedBlockLinks` | core/consensus.go:75-118 | a verified block extends a linked chain by one |
| `Consensus.VerifyIgnoresVotes` | core/consensus.go:71-136 | verification and payment do not see votes or the final flag |
| `Consensus.AddBlockAlone` | core/consensus.go:296-426 | a lone node's AddBlock succeeds exactly on valid blocks with present senders; an invalid one costs its miner the penalty and changes nothing else |
| `Consensus.GenesisSound` | core/storage.go:53-63 | the first-run state is sound |
| `Consensus.GenesisExactly` | core/storage.go:53-63 | a first run leaves one block and 3,300,000 coins with the founder |
| `Replay.ReplayNeedsReplayable` | core/fork.go:111-122 | only chains of difficulty 1 whose rewards fit the cap rebuild |
| `Replay.ReplayLinks` | core/fork.go:111-145 | any chain that replays, whatever its amounts, is linked, its nonces count, and it has minted the founder's coins and every reward |
| `Replay.RebuiltIsShaped` | core/fork.go:93-147 | whatever chain from height 0 rebuilds is linked, numbered and counted |
| `Replay.RebuiltIsAccounted` | core/fork.go:93-147 | without negative amounts the rebuilt books balance too |
| `Replay.ReplayKeepsBooks` | core/fork.go:111-145 | the replay of a chain without negative amounts has balanced books |
| `Replay.MirrorCommit` | core/fork.go:120-144 | replaying a block the live node committed succeeds and keeps each balance ahead by what was slashed |
| `Replay.ReplayIgnoresVotes` | core/fork.go:111-145 | chains that differ in vote metadata replay alike |
| `Replay.BlockReplaysExactly` | core/fork.go:111-145 | a block replays if and only if it is at difficulty 1, sealed, follows the block before, fits the cap, its transactions are acceptable, and each sender has an account at its turn |
| `Replay.ReplayMovesExactly` | core/fork.go:120-144 | a replayed block changes each balance by reward plus receipts less payments and fees, and each nonce by the payments sent |
| `Replay.ReplaysBlockByBlock` | core/fork.go:111-145 | a chain replays if and only if each of its blocks does on what the blocks before it come to |
| `Replay.RebuildsExactly` | core/fork.go:93-147 | a chain rebuilds if and only if all its blocks replay one on another, and then every balance is the founder's coins, for the founder the chain names, plus what the chain's rewards and payments come to |
| `Replay.FounderExactly` | core/fork.go:96-104 | the founder is the receiver of the first transaction, or the configured address |
| `ForkChoice.ForkImprovesTip` | core/fork.go:37-90 | adoption swaps the tip alone, for a sibling of the same height and parent whose (final, accepted votes), own vote merged, is no lower, and higher unless both were final |
| `ForkChoice.AdoptedVotersAreDistinct` | core/fork.go:58-67 | every voter on an adopted block is named, none votes twice, and the candidate's votes are all kept |
| `ForkChoice.AdoptedExactly` | core/fork.go:37-90 | a candidate is adopted, and another hash stands at the tip's height, if and only if it is a better-confirmed sibling with named voters voting once that verifies, senders present, on the rebuilt base |
| `ForkChoice.ForkFailsExactly` | core/fork.go:20-90 | what is no better-confirmed sibling is passed over in silence; any other candidate not adopted is refused for its voters, the base, its validity or a missing sender, in that order, and nothing changes |
| `ForkChoice.FitsExactly` | core/fork.go:69-82 | on a chain from height 0 a candidate fits if and only if the chain below the tip rebuilds and the candidate verifies there, senders present |
| `ForkChoice.FinalTipLostExactly` | core/fork.go:48-57 | a final tip is lost if and only if such a candidate calls itself final and brings no fewer accepted votes |
| `ForkChoice.PeersPassExactly` | core/fork.go:58-67 | the peer check passes if and only if every voter is named and none votes twice |
| `ForkChoice.PeerErrorIsFirst` | core/fork.go:58-67 | otherwise the first voter that is unnamed, or repeats an earlier one, is reported as just that |
| `ForkChoice.ForkKeepsShape` | core/fork.go:69-90 | fork resolution keeps links, numbering and nonces, and adopts only above a chain that replays |
| `ForkChoice.ForkKeepsAccounted` | core/fork.go:69-90 | the books balance after fork resolution unless the chain carries negative amounts |
| `ForkChoice.MergeKeepsConfirmations` | core/consensus.go:338-365 | merging a node's own vote never lowers a candidate's confirmations |
| `ForkChoice.FinalizeExistingTouchesOneFlag` | core/network.go:269-299 | at most one flag changes, that of the first block with the hash, from not final to final, exactly when that is reported as news |
| `ForkChoice.IndexOfHash` | core/network.go:276-284 | the block confirmed is the first with that hash, if any |
| `Sync.SyncAppendsLongestValidPrefix` | core/network.go:410-422 | incremental sync appends, up to vote metadata, the blocks before the first that AddBlock refuses in the state reached, and only that block's penalty follows |
| `Sync.SyncKeepsAccounted` | core/network.go:389-423 | either way of synchronising keeps the shape, and the books unless the chain carries negative amounts |
| `Sync.LastFinalized` | core/network.go:462-467 | the guard's index is the last finalized one, or -1 |
| `Votes.MergeIsScheduleIndependent` | core/consensus.go:309-365 | any completion order of the verifiers, and any sorting algorithm, gives the same merged block and the same count |
| `Votes.MergeCorrect` | core/consensus.go:342-364 | the merged list has distinct peers, first carried votes then unseen peers in name order, and the vote map agrees with all of it |
| `Votes.CountsAcceptances` | core/consensus.go:309-338 | the votes collected count this node's acceptance and exactly the peers that accept |
| `Votes.VotesAreRecorded` | core/consensus.go:342-364 | each verifier that had not voted before has its vote, as given, in the merged list and in the map |
| `Votes.FirstVotesAreFirst` | core/consensus.go:344-351 | a carried vote is kept exactly when no earlier vote has its peer |
| `Votes.PeerNamesDiffer` | core/consensus.go:332-336 | verifier names never collide with each other or with "local" |
| `Votes.PeerNameReads` | core/consensus.go:332-336 | the i-th verifier is named "peer-" and its number from 1 in decimal |
| `Votes.CountIsOrderFree` | core/consensus.go:323-326 | the number of accepting votes depends on the multiset only |
| `Votes.ConfirmationsKeepConfirmed` | core/validator.go:44-73 | a block confirmed only by validators is final exactly at max(3, two thirds rounded up) acceptances by distinct active validators, and never has more |
| `Votes.FinalVotesAreFrozen` | core/validator.go:48-50 | no further validator confirmation changes a final block |
| `Votes.MergeLeavesVotesExactly` | core/consensus.go:342-364 | AddBlock's merge leaves a block's votes alone if and only if no carried peer votes twice and every result comes from a peer that has voted |
| `Votes.QuorumsIntersect` | core/finalization.go:10-31 | any two blocks finalized by confirmations share at least a third of the active validators, rounded up, who accepted both |
| `Votes.ThresholdIsQuorum` | core/finalization.go:10-31 | the real-valued ceiling is the integer ceiling of two thirds, at least 3, or -1 without active validators |
| `Votes.ThresholdExactly` | core/finalization.go:10-31 | the threshold is the least number that is at least 3 and at least two thirds of the active validators, or -1 without any |
| `Votes.MarksExactly` | core/finalization.go:35-52 | marking changes the final flag alone, up, exactly when accepting votes reach that number |
| `Votes.AppendsExactly` | core/validator.go:44-73 | a confirmation is taken if and only if the block is not final, its peer has not voted and is an active validator; it is then recorded as given, and the block is final exactly when two thirds accept |
| `Difficulty.MachineRetarget` | core/difficulty.go:42-65 | for timestamps whose difference fits 64 bits nothing wraps, and the result is the nearest integer, halves up, to d * 60480 / a, limited to 1..64, where a is the elapsed time in seconds limited to 15,120..241,920 |
| `Difficulty.ExtremeWindows` | core/difficulty.go:49-58 | a window of at most 15,120 seconds gives min(64, 4d), one of 241,920 or more a quarter of d, rounded, and at least 1 |
| `Difficulty.HashMeetsExactly` | core/difficulty.go:33-39 | a hash meets a difficulty if and only if it begins with that many zeros |
| `Difficulty.NearestIsUnique` | core/difficulty.go:60-64 | rounding to nearest, halves up, has one result |
| `Difficulty.RetargetMonotone` | core/difficulty.go:42-65 | slower windows never raise the difficulty, higher old difficulties never lower it |
| `Difficulty.RetargetDamped` | core/difficulty.go:49-58 | a window on target changes nothing, any window gives at most 4d and at least (d-1)/4 |
| `Difficulty.QuarterKeptExactly` | core/difficulty.go:42-65 | the documented lower limit d/4 holds for every window if and only if d is 1 or not one more than a multiple of 4 |
| `Difficulty.WindowedDifficulty` | core/difficulty.go:68-86 | the difficulty is constant in each window of 2016 and changes only at multiples of 2016, by the retarget of the window before |
| `Difficulty.Clamp` | core/difficulty.go:22-30 | a clamped difficulty lies in 1..64 |
| `Emission.BlockReward` | core/crypto.go:159-166 | the halving loop computes 3.3 / 2^(index / 1,000,000) |
| `Emission.RewardHalves` | core/crypto.go:159-166 | the first million blocks are worth 3.3 each, and every block half of the one a million before |
| `Emission.EmissionAccount` | core/crypto.go:159-166 | exactly how much of 6,600,000 is left at every height |
| `Emission.EmissionBound` | core/crypto.go:159-166 | all rewards of blocks 1..n sum to less than 6,600,000, for every n |
| `Cache.TrimmedIsUnique` | core/network.go:661-696 | with distinct times, the single-pass and the sorting branch can only leave the same entries |
| `Cache.SeenMap.Trim` | core/network.go:661-696 | exactly min(excess, size) entries go, none newer than any that stays |
| `Cache.SeenMap.Oldest` | core/network.go:665-676 | the single pass finds an entry no newer than any other |
| `Cache.SeenMap.Listing` | core/network.go:683-686 | the listing has every entry once |
| `Cache.SeenMap.DropExpired` | core/network.go:643-652 | exactly the entries older than 30 minutes go |
| `Cache.SeenCache.Prune` | core/network.go:642-659 | both caches keep the newest unexpired entries, at most 2048 |
| `Cache.PrunedExactly` | core/network.go:642-659 | what pruning leaves is everything at most 1800 seconds old, or, if that is more than 2048, just 2048 of it, none older than one that goes |
| `BlockHeap.CalculateFinalizationThreshold` | core/finalization.go:10-31 | the counting loop computes the quorum that the theorems are about |
| `BlockHeap.CountAcceptedVotes` | core/fork.go:5-13 | the loop counts the accepting votes |
| `BlockHeap.BlockCell.MarkFinalizedIfThresholdReached` | core/finalization.go:35-52 | in place, the final flag is set exactly at the threshold and nothing else changes |
| `BlockHeap.BlockCell.MergeVerifications` | core/consensus.go:342-364 | in place, the carried and the new votes are merged as `MergeCorrect` describes |
| `BlockHeap.BlockCell.AppendVerification` | core/validator.go:44-73 | in place, a vote is appended, or refused with the block unchanged |
| `BlockHeap.BlockCell.MineBlockPoW` | core/consensus.go:207-221 | in place, the block ends with the first winning nonce, or advanced by all attempts |
| `StateHeap.VerifyBlockAgainstSnapshot` | core/consensus.go:71-97 | the checks in order name the first that fails |
| `StateHeap.VerifyTransactions` | core/consensus.go:98-135 | the loop over value copies accepts exactly the lists that simulate |
| `StateHeap.CollectVotes` | core/consensus.go:309-338 | whatever verifier finishes next, the collected votes are the same multiset and count |
| `StateHeap.Poll` | core/consensus.go:330-365 | whatever the completion order, block and count after the unlocked half are those of `CastVotes` |
| `StateHeap.ChainState.CloneAccountValues` | core/consensus.go:24-33 | the copy holds every account's value |
| `StateHeap.ChainState.SnapshotState` | core/consensus.go:43-55 | the snapshot is the state as a value |
| `StateHeap.ChainState.VerifyBlock` | core/consensus.go:139-145 | verification against a state, which needs a first block, changes nothing |
| `StateHeap.ChainState.DistributeRewards` | core/consensus.go:248-261 | on shared account objects, the miner alone is credited, up to the cap |
| `StateHeap.ChainState.ApplyPenalty` | core/consensus.go:268-282 | on shared account objects, the offender alone is debited and the supply burned |
| `StateHeap.ChainState.ApplyTransaction` | core/consensus.go:403-413 | two pointers, possibly the same account, move the money as on values |
| `StateHeap.ChainState.ApplyTransactions` | core/fork.go:125-143 | the apply loop equals its value form and stops at a missing sender |
| `StateHeap.ChainState.CommitBlock` | core/consensus.go:379-425 | verify again, check senders, then apply, clear and append; or leave everything |
| `StateHeap.ChainState.AddBlock` | core/consensus.go:296-426 | the whole operation on shared objects ends in the state, block and error of its value form |
| `StateHeap.ChainState.AddTxToMempool` | core/mempool.go:10-72 | admission, bisection, shift and truncation end in the pool and error of the value form |
| `StateHeap.ChainState.FindPosition` | core/mempool.go:46-58 | the bisection loop finds the searched position |
| `StateHeap.ChainState.CreateBlockTemplate` | core/consensus.go:149-204 | the template is the mined candidate, and the state is untouched |
| `StateHeap.ChainState.MineBlock` | core/consensus.go:429-438 | template and AddBlock end in the state of the value form |
| `StateHeap.ChainState.ResolveFork` | core/fork.go:20-91 | fork resolution over a rebuilt state of its own ends in the state and outcome of the value form |
| `StateHeap.ChainState.TryFinalizeExisting` | core/network.go:269-299 | the loop marks the first block with the hash and reports whether that was news |
| `StateHeap.ChainState.ReplaceChain` | core/network.go:461-496 | guard, rebuild and takeover end in the state and error of the value form |
| `StateHeap.ChainState.ApplySyncedBlocks` | core/network.go:389-423 | replacement, append loop or refusal end in the state and error of the value form |
| `StateHeap.ChainState.ReplayAll` | core/fork.go:111-145 | the replay loop ends in the replayed money or the first error |
| `StateHeap.RebuildStateFromChain` | core/fork.go:93-147 | a fresh state equal to the replayed ledger, or the first error |
| `StateHeap.CheckCandidatePeers` | core/fork.go:58-67 | the first unnamed or repeated voter is reported |

## Left out

- AddBlock error text and vote reasons: `firstErr` depends on which verifier finishes first; errors are constructors naming the failed check.
- ECDSA, SHA-256, hex and "%.8f" formatting (core/crypto.go): parameters; block headers are compared as records, not as the joined string that is hashed.
- Signatures, keys, memo and the coinbase flag of a transaction under a final block: the block hash covers sequence numbers and IDs only (core/crypto.go:132-149), and IDs cover the six signed fields.
- TCP, JSON, handshakes, deadlines and broadcasting (core/network.go), persistence (core/storage.go apart from the first-run state), rpc/, cmd/ and wallet/: I/O; what a peer or a user sends is an event's argument.
- The `knownBlockHashes` / `indexedHeight` index (core/network.go:625-737): it does not agree with the chain in every run.
- Races inside fork resolution, chain replacement and synchronisation, between reading and swapping the state: each is one step; only AddBlock is split at its lock.
- Sharing of one block, or of its vote map, between several AddBlock calls or between the chain and a caller: each call has its own block.
- Float64 rounding: money is exact. Integer widths are modelled in the retarget only; heights, nonces, sequence numbers and the 500,000,000 nonce attempts are unbounded naturals.
- Votes that AddBlock merges ("local", "peer-1", ...) count towards finalization although they are no registered validators (core/consensus.go:332-365); the quorum theorems are about blocks confirmed through AppendVerification alone.
- Nil pointers and nil account entries: objects are never null.
- Admissibility of the mempool after a penalty, a fork swap or a chain replacement: the code does not recheck pending transactions, so it is not an invariant.
- core/verification.go, cross signatures, `verified_sequence` and public keys of validators: no code that verifies, commits, replays or chooses blocks reads them, so the ledger does not depend on them.
- The wall clock: timestamps are arguments.
- ForkChoice.ResolveFork: returns one outcome instead of a flag and an error.
- StateHeap.ChainState.AddTxToMempool: returns the transaction with its ID instead of writing the ID through the caller's pointer.
- Sorting: the library sorts are modelled by insertion sort; `SortedVotesUnique` and `TrimmedIsUnique` show that any sort gives the same votes and, for distinct times, the same caches.
- Runs.ChainsAreWellFormed: the retarget at window starts is for runs without chain replacement, because a replacement is checked against difficulty 1 only; what holds in every run is `WindowRuns.WindowsOverRuns`.
