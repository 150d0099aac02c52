/** Block verification against a snapshot, the commit of a verified block, rewards and penalties,
    and what they keep true of the books. */
module Consensus {
  import opened Models
  import opened Difficulty
  import opened AccountMath
  import opened Votes

  /** What verification reads. Replay passes an empty chain with a last block. */
  datatype Snapshot = Snapshot(lastBlock: Option<Block>, chain: seq<Block>, minted: real, accounts: Accounts)

  function LastOf(chain: seq<Block>): Option<Block> {
    if chain == [] then None else Some(chain[|chain| - 1])
  }

  function SnapshotOf(l: Ledger): Snapshot {
    Snapshot(LastOf(l.chain), l.chain, l.minted, l.accounts)
  }

  /** Accepts a block with its simulated accounts, or names the first check that fails. */
  function VerifyBlock(c: Crypto, snap: Snapshot, b: Block): Result<Accounts, VerifyError> {
    var want := ExpectedDifficulty(snap.chain);
    var got := Clamp(b.difficulty);
    if got != want then Err(DifficultyMismatch(got, want))
    else if b.hash != BlockHash(c, b) then Err(HashMismatch)
    else if !HashMeets(b.hash, got) then Err(HashTooEasy)
    else if HasParent(snap) && b.index != snap.lastBlock.value.index + 1 then
      Err(IndexMismatch(b.index, snap.lastBlock.value.index + 1))
    else if HasParent(snap) && b.prevHash != snap.lastBlock.value.hash then Err(PrevHashMismatch)
    else if snap.minted + b.reward > TOTAL_SUPPLY_CAP then Err(CapExceeded)
    else Simulate(c, snap.accounts, b.transactions, 0)
  }

  predicate HasParent(snap: Snapshot) {
    snap.lastBlock.Some? && snap.lastBlock.value.hash != ""
  }

  /** Verification against a whole state, which must have a first block to build on. */
  function VerifyOnLedger(c: Crypto, l: Ledger, b: Block): Result<Accounts, VerifyError> {
    if !HasParent(SnapshotOf(l)) && b.index != 0 then Err(NoGenesisBlock)
    else VerifyBlock(c, SnapshotOf(l), b)
  }

  // ---- Committing ----

  datatype Money = Money(accounts: Accounts, minted: real)

  function DistributeRewards(m: Money, miner: string, reward: real): Money {
    if reward <= 0.0 || miner == "" then m
    else
      var available := TOTAL_SUPPLY_CAP - m.minted;
      var paid := if reward > available then available else reward;
      Money(Deposited(m.accounts, miner, paid), m.minted + paid)
  }

  /** Reward first, then the transactions; None when a sender is missing when its turn comes. */
  function ApplyBlock(m: Money, b: Block): Option<Money> {
    var paid := DistributeRewards(m, b.miner, b.reward);
    match ApplyTxs(paid.accounts, b.transactions)
    case None => None
    case Some(accounts) => Some(Money(accounts, paid.minted))
  }

  datatype CommitError = Invalid(error: VerifyError) | SenderMissing

  function MoneyOf(l: Ledger): Money {
    Money(l.accounts, l.minted)
  }

  /** The locked half of AddBlock: verify again against the latest state, insist that every sender
      has an account, then apply, clear the mempool and append. */
  function Commit(c: Crypto, l: Ledger, b: Block): (r: (Ledger, Option<CommitError>))
  {
    match VerifyBlock(c, SnapshotOf(l), b)
    case Err(e) => (l, Some(Invalid(e)))
    case Ok(_) =>
      if !SendersExist(l.accounts, b.transactions) then (l, Some(SenderMissing))
      else
        match ApplyBlock(MoneyOf(l), b)
        case None => (l, Some(SenderMissing))
        case Some(m) => (Ledger(l.chain + [b], m.accounts, m.minted, []), None)
  }

  /** What a penalty takes from the offender. */
  function Slash(l: Ledger, offender: string, amount: real): real {
    if offender !in l.accounts || amount <= 0.0 then 0.0
    else if amount > l.accounts[offender].balance then l.accounts[offender].balance
    else amount
  }

  function Penalise(l: Ledger, offender: string, amount: real): Ledger {
    if offender !in l.accounts || amount <= 0.0 then l
    else
      var applied := Slash(l, offender, amount);
      var acc := l.accounts[offender];
      l.(accounts := l.accounts[offender := acc.(balance := acc.balance - applied)],
         minted := if l.minted >= applied then l.minted - applied else l.minted)
  }

  // ---- AddBlock ----

  /** The unlocked half of AddBlock: the local vote against the given snapshot and the peers'
      votes are merged into the block, which may finalize it. */
  function CastVotes(c: Crypto, vals: ValidatorMap, snap: Snapshot, b: Block, peers: seq<bool>): (Block, nat) {
    var results := VoteResults(VerifyBlock(c, snap, b).Ok?, peers);
    (MarkFinalized(vals, MergeInto(b, results)), CountAccepted(results))
  }

  datatype AddError = Outvoted | NotCommitted(error: CommitError)

  /** The locked half: a lost vote costs the miner the reward it claimed, a won vote is committed. */
  function Conclude(c: Crypto, l: Ledger, b: Block, accepted: nat, total: nat): (Ledger, Option<AddError>) {
    if accepted < total / 2 + 1 then (Penalise(l, b.miner, b.reward), Some(Outvoted))
    else
      var (after, error) := Commit(c, l, b);
      (after, match error case None => None case Some(e) => Some(NotCommitted(e)))
  }

  /** AddBlock with nothing interleaved: the ledger, the block as the caller gets it back, and the error. */
  function AddBlock(c: Crypto, vals: ValidatorMap, l: Ledger, b: Block, peers: seq<bool>)
    : (Ledger, Block, Option<AddError>)
  {
    var (voted, accepted) := CastVotes(c, vals, SnapshotOf(l), b, peers);
    var (after, error) := Conclude(c, l, voted, accepted, |peers| + 1);
    (after, voted, error)
  }

  // ---- What the operations do, in the code's own terms ----

  /** A penalty takes the amount from the offender, but no more than the balance, and burns it; without an
      account or a positive amount nothing happens. */
  lemma PenaltyExactly(l: Ledger, offender: string, amount: real)
    ensures offender !in l.accounts || amount <= 0.0 ==> Penalise(l, offender, amount) == l
    ensures offender in l.accounts && amount > 0.0 ==>
              var held, after := l.accounts[offender].balance, Penalise(l, offender, amount);
              var left := if amount > held then 0.0 else held - amount;
              && after.accounts == l.accounts[offender := l.accounts[offender].(balance := left)]
              && after.minted == (if l.minted >= held - left then l.minted - (held - left) else l.minted)
              && after.chain == l.chain && after.mempool == l.mempool
  {}

  /** A positive reward is paid to a named miner in full, or as far as 33,000,000 goes, opening the account
      if need be; nothing else changes. */
  lemma RewardExactly(m: Money, miner: string, reward: real)
    ensures reward <= 0.0 || miner == "" ==> DistributeRewards(m, miner, reward) == m
    ensures reward > 0.0 && miner != "" ==>
              var after := DistributeRewards(m, miner, reward);
              var paid := if m.minted + reward > 33000000.0 then 33000000.0 - m.minted else reward;
              && after.minted == m.minted + paid
              && after.accounts.Keys == m.accounts.Keys + {miner}
              && Get(after.accounts, miner).balance == Get(m.accounts, miner).balance + paid
              && Get(after.accounts, miner).nonce == Get(m.accounts, miner).nonce
              && forall a :: a != miner ==> Get(after.accounts, a) == Get(m.accounts, a)
  {}

  /** A block verifies against a ledger if and only if it declares the difficulty the chain calls for, its
      hash is that of its header and begins with that many zeros, it follows the last block, its reward
      fits under 33,000,000, and each of its transactions is acceptable where it stands. Only block 0 can
      verify on a state without a first block. */
  lemma VerifiesExactly(c: Crypto, l: Ledger, b: Block)
    ensures VerifyBlock(c, SnapshotOf(l), b).Ok? <==>
              && Clamp(b.difficulty) == ExpectedDifficulty(l.chain)
              && b.hash == c.hash(HeaderOf(c, b)) && LeadingZeros(b.hash) >= Clamp(b.difficulty)
              && (l.chain != [] && l.chain[|l.chain| - 1].hash != "" ==>
                    b.index == l.chain[|l.chain| - 1].index + 1 && b.prevHash == l.chain[|l.chain| - 1].hash)
              && l.minted + b.reward <= 33000000.0
              && forall p :: 0 <= p < |b.transactions| ==> AcceptedAt(c, l.accounts, b.transactions, 0, p)
    ensures VerifyOnLedger(c, l, b).Ok? <==>
              && VerifyBlock(c, SnapshotOf(l), b).Ok?
              && (b.index == 0 || (l.chain != [] && l.chain[|l.chain| - 1].hash != ""))
  {
    hide Simulate, AcceptedAt, ExpectedDifficulty, HeaderOf, HashMeets;
    SimulatesExactly(c, l.accounts, b.transactions, 0);
    HashMeetsExactly(b.hash, Clamp(b.difficulty));
  }

  /** An error names a check that fails, with what it found and wanted. */
  lemma VerifyErrorsAreReal(c: Crypto, snap: Snapshot, b: Block)
    ensures var meets, want := HashMeets(b.hash, b.difficulty), ExpectedDifficulty(snap.chain);
            match VerifyBlock(c, snap, b)
            case Err(DifficultyMismatch(got, w)) => got == Clamp(b.difficulty) != w == want
            case Err(HashMismatch) => Clamp(b.difficulty) == want && b.hash != BlockHash(c, b)
            case Err(HashTooEasy) => b.hash == BlockHash(c, b) && !meets
            case Err(IndexMismatch(got, w)) =>
              snap.lastBlock.Some? && got == b.index != w == snap.lastBlock.value.index + 1
            case Err(PrevHashMismatch) => snap.lastBlock.Some? && b.prevHash != snap.lastBlock.value.hash
            case Err(CapExceeded) => snap.minted + b.reward > 33000000.0
            case Err(NoGenesisBlock) => false
            case _ => true
  {
    hide BlockHash, ExpectedDifficulty;
    ClampedMeets(b.hash, b.difficulty);
    SimulateErrors(c, snap.accounts, b.transactions, 0);
  }

  /** The simulation's own errors are about transactions. */
  lemma {:induction false} SimulateErrors(c: Crypto, accounts: Accounts, txs: seq<Transaction>, expectedSeq: nat)
    ensures match Simulate(c, accounts, txs, expectedSeq)
            case Ok(_) => true
            case Err(e) => e.CoinbaseNotFirst? || e.CoinbaseSequence? || e.SequenceMismatch? || e.BadSignature?
                           || e.NonceMismatch? || e.InsufficientBalance?
    decreases |txs|
  {
    if txs != [] {
      hide SimulateTx;
      var next := if txs[0].isCoinbase then accounts else SimulateTx(accounts, txs[0]);
      SimulateErrors(c, next, txs[1..], expectedSeq + 1);
    }
  }

  /** The count is of the acceptances given, and each new verifier's vote is recorded as given. */
  lemma VotesCountExactly(c: Crypto, vals: ValidatorMap, snap: Snapshot, b: Block, peers: seq<bool>)
    ensures var valid := VerifyBlock(c, snap, b).Ok?;
            var (voted, accepted) := CastVotes(c, vals, snap, b, peers);
            && accepted == (if valid then 1 else 0) + |set k | 0 <= k < |peers| && peers[k]|
            && (!HasPeer(b.verifications, "local") ==>
                  BlockVerification("local", valid) in voted.verifications
                  && "local" in voted.blockVerifications && voted.blockVerifications["local"] == valid)
            && forall k :: 0 <= k < |peers| && !HasPeer(b.verifications, PeerName(k)) ==>
                 BlockVerification(PeerName(k), peers[k]) in voted.verifications
                 && PeerName(k) in voted.blockVerifications && voted.blockVerifications[PeerName(k)] == peers[k]
  {
    hide VerifyBlock, MergeInto, VoteResults, CountAccepted, HasPeer;
    var valid := VerifyBlock(c, snap, b).Ok?;
    CountsAcceptances(valid, peers);
    VotesAreRecorded(b, valid, peers);
    MarksExactly(vals, MergeInto(b, VoteResults(valid, peers)));
  }

  // ---- What a chain records ----

  function ChainFees(chain: seq<Block>): real {
    if chain == [] then 0.0 else ChainFees(chain[..|chain| - 1]) + TxFees(chain[|chain| - 1].transactions)
  }

  /** The reward a block pays out. */
  function Paid(b: Block): real {
    if b.reward <= 0.0 || b.miner == "" then 0.0 else b.reward
  }

  function ChainRewards(chain: seq<Block>): real {
    if chain == [] then 0.0 else ChainRewards(chain[..|chain| - 1]) + Paid(chain[|chain| - 1])
  }

  /** The nonces of all transactions `a` sends, in chain order. */
  function ChainNonces(chain: seq<Block>, a: string): seq<nat> {
    if chain == [] then [] else ChainNonces(chain[..|chain| - 1], a) + TxNonces(chain[|chain| - 1].transactions, a)
  }

  // ---- The books ----

  /** Coins in circulation are the balances plus the burned fees. */
  ghost predicate Conserved(chain: seq<Block>, m: Money) {
    m.minted == Total(m.accounts) + ChainFees(chain)
  }

  /** Each account's nonce is the number of its transactions, which carry 1, 2, 3, ... */
  ghost predicate NonceHistory(chain: seq<Block>, m: Money) {
    forall a :: CountsFrom(ChainNonces(chain, a), 0) && Get(m.accounts, a).nonce == |ChainNonces(chain, a)|
  }

  /** Sound money: it needs amounts and fees that are not negative. */
  ghost predicate Books(chain: seq<Block>, m: Money) {
    && WellFormedChain(chain)
    && Conserved(chain, m)
    && NonNegative(m.accounts)
    && m.minted <= TOTAL_SUPPLY_CAP
    && m.minted <= FOUNDER_ALLOCATION + ChainRewards(chain)
    && Addressed(m.accounts)
  }

  lemma {:induction false} FeesNonNegative(txs: seq<Transaction>)
    requires WellFormedTxs(txs)
    ensures TxFees(txs) >= 0.0
  {
    if txs != [] {
      assert forall i :: 0 <= i < |txs[1..]| ==> txs[1..][i] == txs[i + 1];
      assert txs[0].isCoinbase || WellFormedTx(txs[0]);
      FeesNonNegative(txs[1..]);
    }
  }

  lemma {:induction false} ChainFeesNonNegative(chain: seq<Block>)
    requires WellFormedChain(chain)
    ensures ChainFees(chain) >= 0.0
  {
    if chain != [] {
      ChainFeesNonNegative(chain[..|chain| - 1]);
      FeesNonNegative(chain[|chain| - 1].transactions);
    }
  }

  function RewardShare(b: Block): string -> real {
    (a: string) => if a == b.miner then Paid(b) else 0.0
  }

  /** Under the cap, the reward is paid in full to the miner alone. */
  lemma RewardAhead(m: Money, b: Block)
    requires m.minted + b.reward <= TOTAL_SUPPLY_CAP
    ensures var paid := DistributeRewards(m, b.miner, b.reward);
            && Ahead(m.accounts, paid.accounts, RewardShare(b))
            && paid.minted == m.minted + Paid(b)
            && m.accounts.Keys <= paid.accounts.Keys
  {}

  lemma RewardPaid(m: Money, b: Block)
    requires NonNegative(m.accounts) && Addressed(m.accounts)
    requires m.minted + b.reward <= TOTAL_SUPPLY_CAP
    ensures var paid := DistributeRewards(m, b.miner, b.reward);
            && NonNegative(paid.accounts) && Addressed(paid.accounts)
            && Total(paid.accounts) == Total(m.accounts) + Paid(b)
  {
    var paid := DistributeRewards(m, b.miner, b.reward);
    if Paid(b) > 0.0 {
      TotalUpdate(m.accounts, b.miner, paid.accounts[b.miner]);
    }
  }

  /** A verified block adds its reward to the money and takes its fees, overdrawing nobody. */
  lemma ApplyBlockMoves(c: Crypto, m: Money, b: Block)
    requires NonNegative(m.accounts) && Addressed(m.accounts) && WellFormedTxs(b.transactions)
    requires m.minted + b.reward <= TOTAL_SUPPLY_CAP
    requires Simulate(c, m.accounts, b.transactions, 0).Ok?
    requires ApplyBlock(m, b).Some?
    ensures var after := ApplyBlock(m, b).value;
            && NonNegative(after.accounts) && Addressed(after.accounts)
            && after.minted == m.minted + Paid(b)
            && Total(after.accounts) == Total(m.accounts) + Paid(b) - TxFees(b.transactions)
    ensures NeverOverdraws(DistributeRewards(m, b.miner, b.reward).accounts, b.transactions)
  {
    var paid := DistributeRewards(m, b.miner, b.reward);
    RewardAhead(m, b);
    RewardPaid(m, b);
    ApplyFollowsSimulation(c, m.accounts, paid.accounts, RewardShare(b), b.transactions, 0);
    ApplyKeepsAddresses(paid.accounts, b.transactions);
  }

  lemma RecordsExtend(chain: seq<Block>, b: Block)
    ensures ChainFees(chain + [b]) == ChainFees(chain) + TxFees(b.transactions)
    ensures ChainRewards(chain + [b]) == ChainRewards(chain) + Paid(b)
    ensures forall a :: ChainNonces(chain + [b], a) == ChainNonces(chain, a) + TxNonces(b.transactions, a)
  {
    assert (chain + [b])[..|chain + [b]| - 1] == chain;
  }

  /** Applying a verified block to sound books leaves sound books. */
  lemma ApplyBlockKeepsBooks(c: Crypto, chain: seq<Block>, m: Money, b: Block)
    requires Books(chain, m) && WellFormedTxs(b.transactions)
    requires m.minted + b.reward <= TOTAL_SUPPLY_CAP
    requires Simulate(c, m.accounts, b.transactions, 0).Ok?
    requires ApplyBlock(m, b).Some?
    ensures Books(chain + [b], ApplyBlock(m, b).value)
    ensures NeverOverdraws(DistributeRewards(m, b.miner, b.reward).accounts, b.transactions)
    ensures ApplyBlock(m, b).value.minted == m.minted + Paid(b)
  {
    ApplyBlockMoves(c, m, b);
    RecordsExtend(chain, b);
    WellFormedParts(chain, b);
  }

  lemma NonceHistoryExtends(c: Crypto, chain: seq<Block>, m: Money, b: Block)
    requires NonceHistory(chain, m) && m.minted + b.reward <= TOTAL_SUPPLY_CAP
    requires Simulate(c, m.accounts, b.transactions, 0).Ok?
    requires ApplyBlock(m, b).Some?
    ensures NonceHistory(chain + [b], ApplyBlock(m, b).value)
  {
    var extended := chain + [b];
    RecordsExtend(chain, b);
    var paid := DistributeRewards(m, b.miner, b.reward);
    RewardAhead(m, b);
    forall a
      ensures CountsFrom(ChainNonces(extended, a), 0)
      ensures Get(ApplyBlock(m, b).value.accounts, a).nonce == |ChainNonces(extended, a)|
    {
      NoncesCountUp(c, m.accounts, paid.accounts, RewardShare(b), b.transactions, 0, a);
      CountsAppend(ChainNonces(chain, a), TxNonces(b.transactions, a));
      assert Get(paid.accounts, a).nonce == Get(m.accounts, a).nonce;
    }
  }

  lemma CountsAppend(s: seq<nat>, t: seq<nat>)
    requires CountsFrom(s, 0) && CountsFrom(t, |s|)
    ensures CountsFrom(s + t, 0)
  {}

  /** On sound books the penalty's guard always holds: it burns exactly what it takes. */
  lemma PenaltyKeepsBooks(l: Ledger, offender: string, amount: real)
    requires Books(l.chain, MoneyOf(l))
    ensures var after := Penalise(l, offender, amount);
            && Books(l.chain, MoneyOf(after)) && after.chain == l.chain && after.mempool == l.mempool
            && l.minted >= Slash(l, offender, amount) >= 0.0
            && after.minted == l.minted - Slash(l, offender, amount)
            && after.accounts.Keys == l.accounts.Keys
            && forall a :: Get(after.accounts, a) ==
                 Get(l.accounts, a).(balance := Get(l.accounts, a).balance
                                                - if a == offender then Slash(l, offender, amount) else 0.0)
  {
    ChainFeesNonNegative(l.chain);
    TotalCovers(l.accounts, offender);
    var after := Penalise(l, offender, amount);
    if offender in l.accounts && amount > 0.0 {
      TotalUpdate(l.accounts, offender, after.accounts[offender]);
    }
  }

  // ---- Links ----

  /** Recomputable hashes that meet their declared difficulty, sequenced and signed transactions,
      and each block naming its predecessor. */
  ghost predicate Linked(c: Crypto, chain: seq<Block>) {
    && (forall i :: 0 <= i < |chain| ==> Sealed(c, chain[i]))
    && (forall i :: 0 < i < |chain| ==>
          chain[i].prevHash == chain[i - 1].hash && chain[i].index == chain[i - 1].index + 1)
  }

  ghost predicate Sealed(c: Crypto, b: Block) {
    b.hash == BlockHash(c, b) && HashMeets(b.hash, b.difficulty) && Sequenced(b.transactions)
        && Authentic(c, b.transactions)
  }

  lemma HashLength(c: Crypto, b: Block)
    ensures |BlockHash(c, b)| == 64
  {}

  lemma ClampedMeets(hash: string, difficulty: nat)
    ensures HashMeets(hash, Clamp(difficulty)) <==> HashMeets(hash, difficulty)
  {}

  /** A verified block extends a linked chain. */
  lemma VerifiedBlockLinks(c: Crypto, snap: Snapshot, chain: seq<Block>, b: Block)
    requires Linked(c, chain) && snap.lastBlock == LastOf(chain)
    requires VerifyBlock(c, snap, b).Ok?
    ensures Linked(c, chain + [b])
    ensures chain != [] ==> b.index == chain[|chain| - 1].index + 1
  {
    hide BlockHash, ExpectedDifficulty, HashMeets;
    SimulatedTxsAreSequenced(c, snap.accounts, b.transactions, 0);
    if chain != [] {
      assert Sealed(c, chain[|chain| - 1]);
      HashLength(c, chain[|chain| - 1]);
    }
    ClampedMeets(b.hash, b.difficulty);
  }

  // ---- Soundness of a ledger ----

  /** What holds whatever the signs of amounts and fees: a linked chain numbered from zero, and
      nonces that count. */
  ghost predicate Shaped(c: Crypto, l: Ledger) {
    && l.chain != []
    && Linked(c, l.chain)
    && Positioned(l.chain)
    && NonceHistory(l.chain, MoneyOf(l))
  }

  ghost predicate Sound(c: Crypto, l: Ledger) {
    Shaped(c, l) && Books(l.chain, MoneyOf(l))
  }

  /** What holds in every reachable state, whatever was offered: the shape, and sound books as long
      as the chain itself carries no negative amount or fee. */
  ghost predicate Accounted(c: Crypto, l: Ledger) {
    Shaped(c, l) && (WellFormedChain(l.chain) ==> Books(l.chain, MoneyOf(l)))
  }

  lemma WellFormedParts(chain: seq<Block>, b: Block)
    ensures WellFormedChain(chain + [b]) <==> WellFormedChain(chain) && WellFormedTxs(b.transactions)
  {
    var longer := chain + [b];
    if WellFormedChain(longer) {
      assert longer[|chain|] == b;
      assert forall i :: 0 <= i < |chain| ==> longer[i] == chain[i];
    }
  }

  lemma CommitIsAllOrNothing(c: Crypto, l: Ledger, b: Block)
    ensures var (after, error) := Commit(c, l, b);
            && (error.Some? ==> after == l)
            && (error.None? <==> VerifyBlock(c, SnapshotOf(l), b).Ok? && SendersExist(l.accounts, b.transactions))
            && (error.None? ==>
                  after.chain == l.chain + [b] && after.mempool == []
                  && ApplyBlock(MoneyOf(l), b) == Some(MoneyOf(after)))
  {
    var paid := DistributeRewards(MoneyOf(l), b.miner, b.reward);
    if SendersExist(l.accounts, b.transactions) {
      assert l.accounts.Keys <= paid.accounts.Keys;
      ExistingSendersApply(paid.accounts, b.transactions);
    }
  }

  /** A refused commit says why: the failed check, or else a missing sender. */
  lemma CommitErrors(c: Crypto, l: Ledger, b: Block)
    requires Commit(c, l, b).1.Some?
    ensures Commit(c, l, b).1.value == match VerifyBlock(c, SnapshotOf(l), b)
                                       case Err(e) => Invalid(e)
                                       case Ok(_) => SenderMissing
  {
    hide VerifyBlock, ApplyBlock, SendersExist;
  }

  /** A committed block leaves exactly the accounts its verification simulated, with the reward on
      top for the miner: the apply loop on shared objects and the simulation on copies agree. */
  lemma CommitIsSimulationPlusReward(c: Crypto, l: Ledger, b: Block)
    requires Addressed(l.accounts) && Commit(c, l, b).1.None?
    ensures var after, simulated := Commit(c, l, b).0, VerifyBlock(c, SnapshotOf(l), b).value;
            && after.accounts == (if Paid(b) == 0.0 then simulated else Credit(simulated, b.miner, b.reward))
            && after.minted == l.minted + Paid(b)
  {
    CommitIsAllOrNothing(c, l, b);
    if Paid(b) == 0.0 {
      ApplyIsSimulation(c, l.accounts, b.transactions, 0);
    } else {
      ApplyIsSimulationPlusReward(c, l.accounts, b.transactions, 0, b.miner, b.reward);
      assert DistributeRewards(MoneyOf(l), b.miner, b.reward).accounts == Credit(l.accounts, b.miner, b.reward);
    }
  }

  /** A committed block leaves a shaped ledger with one more block, whatever its amounts. */
  lemma CommitKeepsShape(c: Crypto, l: Ledger, b: Block)
    requires Shaped(c, l)
    ensures Shaped(c, Commit(c, l, b).0)
  {
    CommitIsAllOrNothing(c, l, b);
    if Commit(c, l, b).1.None? {
      VerifiedBlockLinks(c, SnapshotOf(l), l.chain, b);
      NonceHistoryExtends(c, l.chain, MoneyOf(l), b);
    }
  }

  lemma PenaltyKeepsShape(c: Crypto, l: Ledger, offender: string, amount: real)
    requires Shaped(c, l)
    ensures Shaped(c, Penalise(l, offender, amount))
  {
    var after := Penalise(l, offender, amount);
    assert forall a :: Get(after.accounts, a).nonce == Get(l.accounts, a).nonce;
  }

  /** A committed block leaves a sound ledger with one more block, valid against the ledger it joined. */
  lemma CommitKeepsSound(c: Crypto, l: Ledger, b: Block)
    requires Sound(c, l) && WellFormedTxs(b.transactions)
    ensures Sound(c, Commit(c, l, b).0)
  {
    CommitIsAllOrNothing(c, l, b);
    CommitKeepsShape(c, l, b);
    if Commit(c, l, b).1.None? {
      ApplyBlockKeepsBooks(c, l.chain, MoneyOf(l), b);
    }
  }

  /** A commit pays the miner, moves every payment and counts every nonce, account by account. */
  lemma CommitMovesExactly(c: Crypto, l: Ledger, b: Block, a: string)
    requires Commit(c, l, b).1.None?
    ensures var before, after := Get(l.accounts, a), Get(Commit(c, l, b).0.accounts, a);
            var reward := if a == b.miner && b.miner != "" && b.reward > 0.0 then b.reward else 0.0;
            && after.balance == before.balance + reward + Received(b.transactions, a) - Spent(b.transactions, a)
            && after.nonce == before.nonce + |TxNonces(b.transactions, a)|
    ensures Commit(c, l, b).0.minted == l.minted + if b.miner != "" && b.reward > 0.0 then b.reward else 0.0
    ensures Commit(c, l, b).0.chain == l.chain + [b] && Commit(c, l, b).0.mempool == []
  {
    hide Commit, DistributeRewards, Simulate;
    CommitIsAllOrNothing(c, l, b);
    var paid := DistributeRewards(MoneyOf(l), b.miner, b.reward);
    RewardExactly(MoneyOf(l), b.miner, b.reward);
    RewardAhead(MoneyOf(l), b);
    AppliedBalance(paid.accounts, b.transactions, a);
    NoncesCountUp(c, l.accounts, paid.accounts, RewardShare(b), b.transactions, 0, a);
  }

  /** A turn at the lock commits if and only if a strict majority accepted, the block verifies now and all
      its senders have accounts; a lost vote, and nothing else, costs the miner the penalty. */
  lemma ConcludesExactly(c: Crypto, l: Ledger, b: Block, accepted: nat, total: nat)
    ensures var (after, error) := Conclude(c, l, b, accepted, total);
            && (error.None? <==>
                  && 2 * accepted > total && VerifyBlock(c, SnapshotOf(l), b).Ok?
                  && SendersExist(l.accounts, b.transactions))
            && (error == Some(Outvoted) <==> 2 * accepted <= total)
            && (error.None? ==> after.chain == l.chain + [b] && after.mempool == [] && Commit(c, l, b) == (after, None))
            && (error.Some? ==> after == if 2 * accepted <= total then Penalise(l, b.miner, b.reward) else l)
            && (error.Some? && 2 * accepted > total ==>
                  error.value == NotCommitted(match VerifyBlock(c, SnapshotOf(l), b)
                                              case Err(e) => Invalid(e)
                                              case Ok(_) => SenderMissing))
  {
    hide Commit, Penalise, VerifyBlock, SendersExist;
    if Commit(c, l, b).1.Some? { CommitErrors(c, l, b); }
    assert accepted < total / 2 + 1 <==> 2 * accepted <= total;
    CommitIsAllOrNothing(c, l, b);
    var committed := Commit(c, l, b);
    assert committed == (committed.0, committed.1);
  }

  /** AddBlock with external verifiers: the block is committed if and only if more than half of all votes,
      this node's own among them, accept it, it is valid and its senders have accounts. */
  lemma AddsExactly(c: Crypto, vals: ValidatorMap, l: Ledger, b: Block, peers: seq<bool>)
    ensures var (after, voted, error) := AddBlock(c, vals, l, b, peers);
            var valid := VerifyBlock(c, SnapshotOf(l), b).Ok?;
            var votes := (if valid then 1 else 0) + |set k | 0 <= k < |peers| && peers[k]|;
            && Body(voted) == Body(b)
            && (error.None? <==> 2 * votes > |peers| + 1 && valid && SendersExist(l.accounts, b.transactions))
            && (error == Some(Outvoted) <==> 2 * votes <= |peers| + 1)
            && (error.None? ==> after.chain == l.chain + [voted] && after.mempool == [])
            && (error.Some? ==> after == if 2 * votes <= |peers| + 1 then Penalise(l, b.miner, b.reward) else l)
            && (error.Some? && 2 * votes > |peers| + 1 ==>
                  error.value == NotCommitted(match VerifyBlock(c, SnapshotOf(l), b)
                                              case Err(e) => Invalid(e)
                                              case Ok(_) => SenderMissing))
  {
    var voted := CastVotes(c, vals, SnapshotOf(l), b, peers).0;
    VotesCountExactly(c, vals, SnapshotOf(l), b, peers);
    CastVotesKeepsBody(c, vals, SnapshotOf(l), b, peers);
    BodyFields(voted, b);
    VerifyIgnoresVotes(c, SnapshotOf(l), voted, b);
    hide CastVotes, Conclude, Commit, Penalise, VerifyBlock, SendersExist, HasPeer, PeerName;
    ConcludesExactly(c, l, voted, CastVotes(c, vals, SnapshotOf(l), b, peers).1, |peers| + 1);
  }

  /** On a ledger with a first block, verification against the state is verification against its snapshot. */
  lemma ShapedHasGenesis(c: Crypto, l: Ledger, b: Block)
    requires Shaped(c, l)
    ensures VerifyOnLedger(c, l, b) == VerifyBlock(c, SnapshotOf(l), b)
  {
    hide VerifyBlock, NonceHistory, BlockHash;
    assert Sealed(c, l.chain[|l.chain| - 1]);
    HashLength(c, l.chain[|l.chain| - 1]);
  }

  /** What a commit does to the money as a whole. */
  lemma CommitMoves(c: Crypto, l: Ledger, b: Block)
    requires Sound(c, l) && WellFormedTxs(b.transactions) && Commit(c, l, b).1.None?
    ensures var after := Commit(c, l, b).0;
            && after.minted == l.minted + Paid(b)
            && Total(after.accounts) == Total(l.accounts) + Paid(b) - TxFees(b.transactions)
  {
    CommitIsAllOrNothing(c, l, b);
    ApplyBlockMoves(c, MoneyOf(l), b);
  }

  lemma PenaltyKeepsSound(c: Crypto, l: Ledger, offender: string, amount: real)
    requires Sound(c, l)
    ensures Sound(c, Penalise(l, offender, amount))
  {
    PenaltyKeepsShape(c, l, offender, amount);
    PenaltyKeepsBooks(l, offender, amount);
  }

  // ---- Vote metadata does not matter to the ledger ----

  lemma VerifyIgnoresVotes(c: Crypto, snap: Snapshot, a: Block, b: Block)
    requires Body(a) == Body(b)
    ensures VerifyBlock(c, snap, a) == VerifyBlock(c, snap, b)
    ensures forall m :: ApplyBlock(m, a) == ApplyBlock(m, b)
    ensures Paid(a) == Paid(b)
  {
    BodyFields(a, b);
    assert HeaderOf(c, a) == HeaderOf(c, b);
  }

  lemma BodyFields(a: Block, b: Block)
    requires Body(a) == Body(b)
    ensures a == b.(verifications := a.verifications, finalized := a.finalized,
        blockVerifications := a.blockVerifications)
  {
    assert Body(a).index == Body(b).index && Body(a).hash == Body(b).hash;
  }

  lemma CastVotesKeepsBody(c: Crypto, vals: ValidatorMap, snap: Snapshot, b: Block, peers: seq<bool>)
    ensures Body(CastVotes(c, vals, snap, b, peers).0) == Body(b)
  {}

  /** A lone node's AddBlock succeeds exactly on the blocks that verify and whose senders exist;
      otherwise only the penalty, if any, touches the ledger. */
  lemma AddBlockAlone(c: Crypto, vals: ValidatorMap, l: Ledger, b: Block)
    ensures var (after, voted, error) := AddBlock(c, vals, l, b, []);
            var valid := VerifyBlock(c, SnapshotOf(l), b).Ok?;
            && Body(voted) == Body(b)
            && (error.None? <==> valid && SendersExist(l.accounts, b.transactions))
            && (error == Some(Outvoted) <==> !valid)
            && (error.None? ==>
                  after.chain == l.chain + [voted] && after.mempool == []
                  && Commit(c, l, voted) == (after, None))
            && (error.Some? ==> after == if valid then l else Penalise(l, b.miner, b.reward))
  {
    var voted := CastVotes(c, vals, SnapshotOf(l), b, []).0;
    CastVotesKeepsBody(c, vals, SnapshotOf(l), b, []);
    BodyFields(voted, b);
    VerifyIgnoresVotes(c, SnapshotOf(l), voted, b);
    CommitIsAllOrNothing(c, l, voted);
    var vote := BlockVerification(LOCAL, VerifyBlock(c, SnapshotOf(l), b).Ok?);
    var results := VoteResults(vote.accepted, []);
    assert results == [vote] && results[..0] == [];
    assert CountAccepted(results) == if vote.accepted then 1 else 0;
    assert voted.miner == b.miner && voted.reward == b.reward;
  }

  lemma ConcludeKeepsShape(c: Crypto, l: Ledger, b: Block, accepted: nat, total: nat)
    requires Shaped(c, l)
    ensures Shaped(c, Conclude(c, l, b, accepted, total).0)
  {
    CommitKeepsShape(c, l, b);
    PenaltyKeepsShape(c, l, b.miner, b.reward);
  }

  lemma CommitKeepsAccounted(c: Crypto, l: Ledger, b: Block)
    requires Accounted(c, l)
    ensures Accounted(c, Commit(c, l, b).0)
  {
    hide Commit, Books, Linked, NonceHistory, WellFormedChain, WellFormedTxs;
    CommitIsAllOrNothing(c, l, b);
    CommitKeepsShape(c, l, b);
    WellFormedParts(l.chain, b);
    if Commit(c, l, b).1.None? && WellFormedChain(Commit(c, l, b).0.chain) { CommitKeepsSound(c, l, b); }
  }

  lemma PenaltyKeepsAccounted(c: Crypto, l: Ledger, offender: string, amount: real)
    requires Accounted(c, l)
    ensures Accounted(c, Penalise(l, offender, amount))
  {
    hide Books, Linked, NonceHistory, WellFormedChain;
    PenaltyKeepsShape(c, l, offender, amount);
    if WellFormedChain(l.chain) { PenaltyKeepsSound(c, l, offender, amount); }
  }

  lemma ConcludeKeepsAccounted(c: Crypto, l: Ledger, b: Block, accepted: nat, total: nat)
    requires Accounted(c, l)
    ensures Accounted(c, Conclude(c, l, b, accepted, total).0)
  {
    hide Accounted;
    CommitKeepsAccounted(c, l, b);
    PenaltyKeepsAccounted(c, l, b.miner, b.reward);
  }

  // ---- Genesis ----

  function FoundingMoney(founder: string): Money {
    Money(map[founder := Account(founder, FOUNDER_ALLOCATION, 0)], FOUNDER_ALLOCATION)
  }

  /** The block a first run builds and mines: no reward, one coinbase to the founder. */
  ghost predicate IsGenesis(c: Crypto, b: Block, founder: string) {
    && b.index == 0 && b.prevHash == ZEROS64 && b.difficulty == INITIAL_DIFFICULTY && b.reward == 0.0
    && b.miner == "genesis" && !b.finalized && b.verifications == []
    && |b.transactions| == 1 && b.transactions[0].isCoinbase && b.transactions[0].to == founder
    && b.transactions[0].sequenceNumber == 0
    && b.hash == BlockHash(c, b) && HashMeets(b.hash, b.difficulty)
  }

  function GenesisLedger(b: Block, founder: string): Ledger {
    Ledger([b], FoundingMoney(founder).accounts, FOUNDER_ALLOCATION, [])
  }

  /** A first run leaves one block, and 3,300,000 coins with the founder. */
  lemma GenesisExactly(b: Block, founder: string)
    ensures var l := GenesisLedger(b, founder);
            && l.chain == [b] && l.mempool == [] && l.minted == 3300000.0
            && l.accounts == map[founder := Account(founder, 3300000.0, 0)]
  {}

  lemma FoundingBooks(founder: string)
    ensures Books([], FoundingMoney(founder))
  {
    var m := FoundingMoney(founder);
    TotalUpdate(map[], founder, m.accounts[founder]);
    assert map[][founder := m.accounts[founder]] == m.accounts;
  }

  lemma GenesisSound(c: Crypto, b: Block, founder: string)
    requires IsGenesis(c, b, founder)
    ensures Sound(c, GenesisLedger(b, founder))
  {
    var m := FoundingMoney(founder);
    FoundingBooks(founder);
    var chain := [b];
    assert chain[..0] == [];
    assert TxFees(b.transactions) == 0.0 by { assert b.transactions[1..] == []; }
    forall a ensures TxNonces(b.transactions, a) == [] { assert b.transactions[1..] == []; }
    assert Books(chain, m) by {
      assert ChainFees(chain) == 0.0 && ChainRewards(chain) == 0.0;
      forall a ensures ChainNonces(chain, a) == ChainNonces([], a) {}
    }
    assert Sealed(c, b);
  }
}
