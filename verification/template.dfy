/** Block templates, the proof-of-work search and mining: a ready pool yields a minable block, and
    on schedule no block reaches the supply cap. */
module Template {
  import opened Models
  import opened Difficulty
  import opened Emission
  import opened AccountMath
  import opened Votes
  import opened Consensus
  import opened Mempool

  // ---- Proof of work ----

  const MIN_ATTEMPTS: nat := 100000
  const MAX_ATTEMPTS: nat := 500000000

  function Shift4(d: nat): (r: nat)
    ensures r >= 1
  {
    if d == 0 then 1 else 16 * Shift4(d - 1)
  }

  function MaxAttempts(difficulty: nat): (r: nat)
    ensures MIN_ATTEMPTS <= r <= MAX_ATTEMPTS
  {
    if difficulty == 0 then MIN_ATTEMPTS
    else if difficulty >= 16 then MAX_ATTEMPTS
    else
      var expected := Shift4(difficulty);
      if expected > MAX_ATTEMPTS / 4 then MAX_ATTEMPTS
      else if expected * 4 < MIN_ATTEMPTS then MIN_ATTEMPTS
      else expected * 4
  }

  lemma {:induction false} Shift4Grows(d: nat)
    requires d >= 8
    ensures Shift4(d) >= 0x1_0000_0000
  {
    if d > 8 {
      Shift4Grows(d - 1);
    } else {
      assert Shift4(4) == 16 * (16 * (16 * (16 * Shift4(0))));
      assert Shift4(8) == 16 * (16 * (16 * (16 * Shift4(4))));
    }
  }

  /** At every difficulty the search is given four times the expected number of hashes, within its bounds. */
  lemma AttemptsAreFourExpected(d: nat)
    ensures var wanted := 4 * Shift4(d);
            MaxAttempts(d) == if wanted < MIN_ATTEMPTS then MIN_ATTEMPTS
                              else if wanted > MAX_ATTEMPTS then MAX_ATTEMPTS
                              else wanted
  {
    if d >= 16 { Shift4Grows(d); }
  }

  /** The attempts at each difficulty. */
  lemma AttemptsTable(d: nat)
    ensures MaxAttempts(d) == if d <= 3 then 100000
                              else if d == 4 then 262144
                              else if d == 5 then 4194304
                              else if d == 6 then 67108864
                              else 500000000
  {
    assert Shift4(3) == 16 * (16 * (16 * Shift4(0)));
    assert Shift4(6) == 16 * (16 * (16 * Shift4(3)));
    AttemptsAreFourExpected(d);
    if d >= 8 {
      Shift4Grows(d);
    } else if d == 7 {
      assert Shift4(7) == 16 * Shift4(6);
    }
  }

  /** The block with a given nonce and the hash that goes with it. */
  function Attempt(c: Crypto, b: Block, nonce: nat): Block {
    var n := b.(nonce := nonce);
    n.(hash := BlockHash(c, n))
  }

  predicate Wins(c: Crypto, b: Block, nonce: nat) {
    HashMeets(Attempt(c, b, nonce).hash, b.difficulty)
  }

  /** The first winning nonce among the next `attempts`. */
  function FirstWin(c: Crypto, b: Block, nonce: nat, attempts: nat): Option<nat>
    decreases attempts
  {
    if attempts == 0 then None
    else if Wins(c, b, nonce) then Some(nonce)
    else FirstWin(c, b, nonce + 1, attempts - 1)
  }

  lemma {:induction false} FirstWinIsFirst(c: Crypto, b: Block, nonce: nat, attempts: nat)
    ensures match FirstWin(c, b, nonce, attempts)
            case Some(n) =>
              nonce <= n < nonce + attempts && Wins(c, b, n) && forall k :: nonce <= k < n ==> !Wins(c, b, k)
            case None => forall k :: nonce <= k < nonce + attempts ==> !Wins(c, b, k)
    decreases attempts
  {
    if attempts > 0 { FirstWinIsFirst(c, b, nonce + 1, attempts - 1); }
  }

  function Mine(c: Crypto, b: Block): Option<Block> {
    var clamped := b.(difficulty := Clamp(b.difficulty));
    match FirstWin(c, clamped, b.nonce, MaxAttempts(clamped.difficulty))
    case None => None
    case Some(n) => Some(Attempt(c, clamped, n))
  }

  lemma MinedBlockIsSealed(c: Crypto, b: Block)
    requires Mine(c, b).Some?
    ensures var m := Mine(c, b).value;
            && m == b.(difficulty := Clamp(b.difficulty), nonce := m.nonce, hash := m.hash)
            && m.hash == BlockHash(c, m) && HashMeets(m.hash, Clamp(m.difficulty))
  {
    var m := Mine(c, b).value;
    var clamped := b.(difficulty := Clamp(b.difficulty));
    FirstWinIsFirst(c, clamped, b.nonce, MaxAttempts(clamped.difficulty));
    assert HeaderOf(c, m) == HeaderOf(c, m.(hash := b.hash));
  }

  /** Mining finds the first nonce from the block's own on whose hash begins with enough zeros, within four
      times the expected number of attempts, 100,000 to 500,000,000; and fails only if there is none. */
  lemma MinesExactly(c: Crypto, b: Block)
    ensures var d := Clamp(b.difficulty);
            var wanted := 4 * Shift4(d);
            var attempts := if wanted < 100000 then 100000 else if wanted > 500000000 then 500000000 else wanted;
            var clamped := b.(difficulty := d);
            match Mine(c, b)
            case None => forall n :: b.nonce <= n < b.nonce + attempts ==> LeadingZeros(Attempt(c, clamped, n).hash) < d
            case Some(m) =>
              && b.nonce <= m.nonce < b.nonce + attempts && m == Attempt(c, clamped, m.nonce)
              && LeadingZeros(m.hash) >= d
              && forall n :: b.nonce <= n < m.nonce ==> LeadingZeros(Attempt(c, clamped, n).hash) < d
  {
    var d := Clamp(b.difficulty);
    var clamped := b.(difficulty := d);
    AttemptsAreFourExpected(d);
    FirstWinIsFirst(c, clamped, b.nonce, MaxAttempts(d));
    forall n: nat ensures Wins(c, clamped, n) <==> LeadingZeros(Attempt(c, clamped, n).hash) >= d {
      HashMeetsExactly(Attempt(c, clamped, n).hash, d);
    }
  }

  // ---- Templates ----

  function Renumbered(pool: seq<Transaction>): seq<Transaction> {
    seq(|pool|, i requires 0 <= i < |pool| => pool[i].(sequenceNumber := i + 1))
  }

  function CoinbaseTx(index: nat, miner: string, reward: real, now: int): Transaction {
    Transaction("coinbase-" + Decimal(index), "coinbase", miner, reward, 0.0, 0, now, "", "", "", "", true, "", 0)
  }

  function CappedReward(minted: real, scheduled: real): real {
    if minted + scheduled > TOTAL_SUPPLY_CAP then
      var left := TOTAL_SUPPLY_CAP - minted;
      if left < 0.0 then 0.0 else left
    else scheduled
  }

  /** The candidate block before the proof-of-work search. */
  function Candidate(l: Ledger, miner: string, now: int): Block
    requires l.chain != []
  {
    var prev := l.chain[|l.chain| - 1];
    var reward := CappedReward(l.minted, RewardAt(prev.index + 1));
    Block(prev.index + 1, prev.hash, "", now, ExpectedDifficulty(l.chain), 0,
          [CoinbaseTx(prev.index + 1, miner, reward, now)] + Renumbered(l.mempool),
          reward, miner, "", [], false, map[])
  }

  datatype MineError = NoGenesis | NoWinningNonce | Rejected(error: AddError)

  function CreateBlockTemplate(c: Crypto, l: Ledger, miner: string, now: int): Result<Block, MineError> {
    if l.chain == [] then Err(NoGenesis)
    else
      match Mine(c, Candidate(l, miner, now))
      case None => Err(NoWinningNonce)
      case Some(b) => Ok(b)
  }

  function MineBlock(c: Crypto, vals: ValidatorMap, l: Ledger, miner: string, now: int)
    : (Ledger, Result<Block, MineError>)
  {
    match CreateBlockTemplate(c, l, miner, now)
    case Err(e) => (l, Err(e))
    case Ok(b) =>
      var (after, voted, error) := AddBlock(c, vals, l, b, []);
      (after, match error case None => Ok(voted) case Some(e) => Err(Rejected(e)))
  }

  // ---- A pool that can be mined ----

  ghost predicate Admissible(c: Crypto, accounts: Accounts, tx: Transaction) {
    && !tx.isCoinbase && FloatEqual(tx.fee, FIXED_FEE) && VerifyTransaction(c, tx)
    && tx.nonce == Get(accounts, tx.from).nonce + 1
    && Get(accounts, tx.from).balance >= tx.amount + tx.fee
  }

  /** Every pending transaction is admissible on its own, and no sender has two. */
  ghost predicate Ready(c: Crypto, accounts: Accounts, txs: seq<Transaction>) {
    && (forall i :: 0 <= i < |txs| ==> Admissible(c, accounts, txs[i]))
    && (forall i, j :: 0 <= i < j < |txs| ==> txs[i].from != txs[j].from)
  }

  ghost predicate PoolReady(c: Crypto, l: Ledger) {
    Ready(c, l.accounts, l.mempool)
  }

  lemma InsertKeepsReady(c: Crypto, accounts: Accounts, pool: seq<Transaction>, tx: Transaction, at: nat)
    requires Ready(c, accounts, pool) && at <= |pool|
    requires Admissible(c, accounts, tx)
    requires forall i :: 0 <= i < |pool| ==> pool[i].from != tx.from
    ensures Ready(c, accounts, pool[..at] + [tx] + pool[at..])
  {
    var longer := pool[..at] + [tx] + pool[at..];
    forall i | 0 <= i < |longer|
      ensures Admissible(c, accounts, longer[i])
      ensures longer[i] == if i < at then pool[i] else if i == at then tx else pool[i - 1]
    {
      if i != at { assert Admissible(c, accounts, pool[if i < at then i else i - 1]); }
    }
  }

  /** A submission keeps the pool ready, whatever the sign of its amount. */
  lemma SubmissionKeepsReady(c: Crypto, l: Ledger, tx: Transaction, limit: nat)
    requires PoolReady(c, l)
    ensures PoolReady(c, l.(mempool := AddTx(c, l.accounts, l.mempool, tx, limit).0))
  {
    if Refusal(c, l.accounts, l.mempool, tx).None? {
      var stored := Identified(c, tx);
      assert Admissible(c, l.accounts, stored);
      forall i | 0 <= i < |l.mempool| ensures l.mempool[i].from != tx.from {
        assert Admissible(c, l.accounts, l.mempool[i]);
        assert !Pending(l.mempool, tx);
      }
      InsertKeepsReady(c, l.accounts, l.mempool, stored, Search(l.mempool, stored, 0, |l.mempool|));
    }
  }

  lemma SimulationKeepsReady(c: Crypto, accounts: Accounts, txs: seq<Transaction>)
    requires Ready(c, accounts, txs) && txs != [] && txs[0].amount >= 0.0
    ensures Ready(c, SimulateTx(accounts, txs[0]), txs[1..])
  {
    forall i | 0 <= i < |txs[1..]| ensures Admissible(c, SimulateTx(accounts, txs[0]), txs[1..][i]) {
      assert Admissible(c, accounts, txs[i + 1]) && Admissible(c, accounts, txs[0]);
    }
  }

  /** Independent transactions of distinct senders verify one after another in any order. */
  lemma {:induction false} ReadySimulates(c: Crypto, accounts: Accounts, txs: seq<Transaction>, expectedSeq: nat)
    requires Ready(c, accounts, txs) && WellFormedTxs(txs)
    requires forall i :: 0 <= i < |txs| ==> txs[i].sequenceNumber == expectedSeq + i
    ensures Simulate(c, accounts, txs, expectedSeq).Ok?
    decreases |txs|
  {
    if txs != [] {
      assert Admissible(c, accounts, txs[0]) && WellFormedTx(txs[0]);
      SimulationKeepsReady(c, accounts, txs);
      assert forall i :: 0 <= i < |txs[1..]| ==> txs[1..][i] == txs[i + 1];
      ReadySimulates(c, SimulateTx(accounts, txs[0]), txs[1..], expectedSeq + 1);
    }
  }

  lemma CandidateTransactionsVerify(c: Crypto, l: Ledger, coinbase: Transaction)
    requires PoolReady(c, l) && WellFormedTxs(l.mempool) && coinbase.isCoinbase && coinbase.sequenceNumber == 0
    ensures var txs := [coinbase] + Renumbered(l.mempool);
            Simulate(c, l.accounts, txs, 0).Ok? && SendersExist(l.accounts, txs) && WellFormedTxs(txs)
  {
    var rest := Renumbered(l.mempool);
    forall i | 0 <= i < |rest|
      ensures Admissible(c, l.accounts, rest[i]) && WellFormedTx(rest[i]) && rest[i].from in l.accounts
    {
      assert Admissible(c, l.accounts, l.mempool[i]) && WellFormedTx(l.mempool[i]);
    }
    ReadySimulates(c, l.accounts, rest, 1);
    assert ([coinbase] + rest)[1..] == rest;
  }

  lemma SealedBlockVerifies(c: Crypto, l: Ledger, b: Block)
    requires l.chain != [] && b.index == l.chain[|l.chain| - 1].index + 1 && b.prevHash == l.chain[|l.chain| - 1].hash
    requires Clamp(b.difficulty) == ExpectedDifficulty(l.chain) && l.minted + b.reward <= TOTAL_SUPPLY_CAP
    requires b.hash == BlockHash(c, b) && HashMeets(b.hash, Clamp(b.difficulty))
    requires Simulate(c, l.accounts, b.transactions, 0).Ok?
    ensures VerifyBlock(c, SnapshotOf(l), b).Ok?
  {}

  lemma ExpectedIsClamped(chain: seq<Block>)
    ensures Clamp(Clamp(ExpectedDifficulty(chain))) == Clamp(ExpectedDifficulty(chain)) == ExpectedDifficulty(chain)
  {}

  lemma RewardFitsCap(minted: real, scheduled: real)
    requires minted <= TOTAL_SUPPLY_CAP
    ensures minted + CappedReward(minted, scheduled) <= TOTAL_SUPPLY_CAP
  {}

  /** The block mined from a ready pool verifies against the ledger it was made from. */
  lemma TemplateVerifies(c: Crypto, l: Ledger, miner: string, now: int)
    requires l.minted <= TOTAL_SUPPLY_CAP && PoolReady(c, l) && WellFormedTxs(l.mempool)
    requires CreateBlockTemplate(c, l, miner, now).Ok?
    ensures var b := CreateBlockTemplate(c, l, miner, now).value;
            VerifyBlock(c, SnapshotOf(l), b).Ok? && SendersExist(l.accounts, b.transactions)
                && WellFormedTxs(b.transactions)
  {
    hide Mine, Simulate, SendersExist, WellFormedTxs, PoolReady, HashMeets, BlockHash, Clamp, ExpectedDifficulty;
    var candidate := Candidate(l, miner, now);
    ExpectedIsClamped(l.chain);
    MinedBlockIsSealed(c, candidate);
    CandidateTransactionsVerify(c, l, candidate.transactions[0]);
    RewardFitsCap(l.minted, RewardAt(candidate.index));
    SealedBlockVerifies(c, l, CreateBlockTemplate(c, l, miner, now).value);
  }

  /** Mining from a ready pool commits a block with the whole pool whenever the nonce search succeeds. */
  lemma MiningSucceeds(c: Crypto, vals: ValidatorMap, l: Ledger, miner: string, now: int)
    requires l.chain != [] && l.minted <= TOTAL_SUPPLY_CAP && PoolReady(c, l) && WellFormedTxs(l.mempool)
    ensures var (after, r) := MineBlock(c, vals, l, miner, now);
            && (r.Ok? <==> Mine(c, Candidate(l, miner, now)).Some?)
            && (Sound(c, l) ==> Sound(c, after)) && PoolReady(c, after)
            && (r.Ok? ==> after.chain == l.chain + [r.value] && after.mempool == []
                          && r.value.transactions[1..] == Renumbered(l.mempool))
            && (r.Err? ==> after == l)
  {
    if Mine(c, Candidate(l, miner, now)).Some? {
      var b := CreateBlockTemplate(c, l, miner, now).value;
      TemplateVerifies(c, l, miner, now);
      MinedBlockIsSealed(c, Candidate(l, miner, now));
      AddBlockAlone(c, vals, l, b);
      var voted := AddBlock(c, vals, l, b, []).1;
      BodyFields(voted, b);
      if Sound(c, l) { CommitKeepsSound(c, l, voted); }
    }
  }

  /** The mined block claims the scheduled reward, capped, records it for the miner in its coinbase,
      and pays it out; the pool's fees leave circulation. */
  lemma MinedBlockPays(c: Crypto, vals: ValidatorMap, l: Ledger, miner: string, now: int)
    requires Sound(c, l) && PoolReady(c, l) && WellFormedTxs(l.mempool) && MineBlock(c, vals, l, miner, now).1.Ok?
    ensures var (after, r) := MineBlock(c, vals, l, miner, now);
            var b := r.value;
            && b.miner == miner && b.reward == CappedReward(l.minted, RewardAt(|l.chain|))
            && b.transactions == [CoinbaseTx(|l.chain|, miner, b.reward, now)] + Renumbered(l.mempool)
            && after.minted == l.minted + Paid(b)
            && Total(after.accounts) == Total(l.accounts) + Paid(b) - TxFees(b.transactions)
  {
    var b := CreateBlockTemplate(c, l, miner, now).value;
    TemplateVerifies(c, l, miner, now);
    MinedBlockIsSealed(c, Candidate(l, miner, now));
    AddBlockAlone(c, vals, l, b);
    var voted := AddBlock(c, vals, l, b, []).1;
    BodyFields(voted, b);
    hide AddBlock, Commit, VerifyBlock, Simulate, SendersExist, Mine, Total, TxFees;
    CommitMoves(c, l, voted);
  }

  /** A template, field by field: it follows the last block, is stamped with the time, pays the miner, in
      its coinbase and as its reward, the scheduled amount or what is left under 33,000,000, and carries
      the pool in its order, numbered from 1. */
  lemma TemplateExactly(c: Crypto, l: Ledger, miner: string, now: int)
    requires CreateBlockTemplate(c, l, miner, now).Ok?
    ensures l.chain != []
    ensures var prev, b := l.chain[|l.chain| - 1], CreateBlockTemplate(c, l, miner, now).value;
            var left := 33000000.0 - l.minted;
            var scheduled := RewardAt(prev.index + 1);
            var reward := if scheduled <= left then scheduled else if left < 0.0 then 0.0 else left;
            && b.index == prev.index + 1 && b.prevHash == prev.hash && b.timestamp == now
            && b.difficulty == ExpectedDifficulty(l.chain) && b.reward == reward && b.miner == miner
            && b.memo == "" && b.verifications == [] && b.blockVerifications == map[] && !b.finalized
            && |b.transactions| == |l.mempool| + 1
            && var coinbase := b.transactions[0];
            && coinbase.isCoinbase && coinbase.id == "coinbase-" + Decimal(b.index) && coinbase.from == "coinbase"
            && coinbase.to == miner && coinbase.amount == reward && coinbase.fee == 0.0
            && coinbase.nonce == 0 && coinbase.timestamp == now && coinbase.sequenceNumber == 0
            && forall i :: 0 <= i < |l.mempool| ==> b.transactions[i + 1] == l.mempool[i].(sequenceNumber := i + 1)
  {
    hide Mine, RewardAt, ExpectedDifficulty, HashMeets, BlockHash;
    MinedBlockIsSealed(c, Candidate(l, miner, now));
    ExpectedIsClamped(l.chain);
  }

  /** A template's nonce is the first from 0 whose hash begins with enough zeros. */
  lemma TemplateNonceIsFirst(c: Crypto, l: Ledger, miner: string, now: int)
    requires CreateBlockTemplate(c, l, miner, now).Ok?
    ensures var b := CreateBlockTemplate(c, l, miner, now).value;
            && b == Attempt(c, b, b.nonce) && LeadingZeros(b.hash) >= b.difficulty
            && forall n :: 0 <= n < b.nonce ==> LeadingZeros(Attempt(c, b, n).hash) < b.difficulty
  {
    hide Mine, HashMeets, ExpectedDifficulty, RewardAt, LeadingZeros;
    var candidate := Candidate(l, miner, now);
    MinesExactly(c, candidate);
    MinedBlockIsSealed(c, candidate);
    ExpectedIsClamped(l.chain);
    var b := CreateBlockTemplate(c, l, miner, now).value;
    forall n: nat ensures Attempt(c, b, n) == Attempt(c, candidate, n) {
      assert HeaderOf(c, b.(nonce := n)) == HeaderOf(c, candidate.(nonce := n));
    }
  }

  /** Mining fails without a first block, when no nonce within the attempts wins, or when the block is
      refused, and says which. */
  lemma MiningFailsExactly(c: Crypto, vals: ValidatorMap, l: Ledger, miner: string, now: int)
    ensures var template, mined := CreateBlockTemplate(c, l, miner, now), MineBlock(c, vals, l, miner, now).1;
            && (mined == Err(NoGenesis) <==> l.chain == [])
            && (mined == Err(NoWinningNonce) <==> l.chain != [] && Mine(c, Candidate(l, miner, now)).None?)
            && (mined.Ok? <==> template.Ok? && VerifyBlock(c, SnapshotOf(l), template.value).Ok?
                               && SendersExist(l.accounts, template.value.transactions))
            && (mined.Ok? ==> Body(mined.value) == Body(template.value))
            && (l.chain == [] <==> template == Err(NoGenesis)) && (template.Err? ==> mined == template)
  {
    hide Mine, AddBlock, VerifyBlock, SendersExist, Commit;
    if l.chain != [] && Mine(c, Candidate(l, miner, now)).Some? {
      AddBlockAlone(c, vals, l, CreateBlockTemplate(c, l, miner, now).value);
    }
  }

  // ---- The schedule and the cap ----

  /** The block claims no more than its height is worth; block 0 is worth nothing. */
  predicate ClaimsSchedule(b: Block) {
    b.reward <= if b.index == 0 then 0.0 else RewardAt(b.index)
  }

  ghost predicate Scheduled(chain: seq<Block>) {
    forall i :: 0 <= i < |chain| ==> ClaimsSchedule(chain[i])
  }

  lemma {:induction false} ScheduledSupply(chain: seq<Block>)
    requires chain != [] && Scheduled(chain) && Positioned(chain)
    ensures ChainRewards(chain) <= Emitted(|chain| - 1)
  {
    var n := |chain| - 1;
    assert ClaimsSchedule(chain[n]);
    if n > 0 {
      ScheduledSupply(chain[..n]);
      RewardPositive(n);
    } else {
      assert chain[..0] == [];
    }
  }

  /** Whatever ledger a template is made from, stale or not, it claims no more than its height is
      worth, and carries a negative amount or fee only if the pool does. */
  lemma TemplateClaimsSchedule(c: Crypto, l: Ledger, miner: string, now: int)
    requires CreateBlockTemplate(c, l, miner, now).Ok?
    ensures var b := CreateBlockTemplate(c, l, miner, now).value;
            ClaimsSchedule(b) && (WellFormedTxs(l.mempool) ==> WellFormedTxs(b.transactions))
  {
    hide Mine, RewardAt, ExpectedDifficulty, HashMeets;
    var candidate := Candidate(l, miner, now);
    MinedBlockIsSealed(c, candidate);
    RewardPositive(candidate.index);
    var txs := candidate.transactions;
    if WellFormedTxs(l.mempool) {
      forall i | 0 <= i < |txs| && !txs[i].isCoinbase ensures WellFormedTx(txs[i]) {
        assert txs[i] == l.mempool[i - 1].(sequenceNumber := i);
      }
    }
  }

  /** On a ledger whose blocks claim at most the schedule, less than 9,900,000 coins exist, so no
      scheduled reward is ever capped, in a template or when it is paid. */
  lemma ScheduleStaysUnderCap(c: Crypto, l: Ledger, miner: string, now: int)
    requires Sound(c, l) && Scheduled(l.chain)
    ensures l.minted < 9900000.0
    ensures Candidate(l, miner, now).reward == RewardAt(|l.chain|)
    ensures RewardAt(|l.chain|) <= TOTAL_SUPPLY_CAP - l.minted
  {
    ScheduledSupply(l.chain);
    EmissionBound(|l.chain| - 1);
    RewardPositive(|l.chain|);
  }
}
