/** The node's state in memory: accounts held by pointer and updated in place, the chain, the
    supply and the mempool, with the operations that change them. `View` is the state as a value. */
module StateHeap {
  import opened Models
  import opened Sorting
  import opened Difficulty
  import opened AccountMath
  import opened Votes
  import opened Consensus
  import opened Replay
  import opened ForkChoice
  import opened Sync
  import opened BlockHeap
  import Emission
  import Mempool

  class AccountCell {
    var address: string
    var balance: real
    var nonce: nat

    constructor (address: string)
      ensures Value() == Account(address, 0.0, 0)
    {
      this.address := address;
      balance := 0.0;
      nonce := 0;
    }

    function Value(): Account
      reads this
    {
      Account(address, balance, nonce)
    }
  }

  /** The check of a block against a snapshot, on a private copy of the account values. */
  method VerifyBlockAgainstSnapshot(c: Crypto, snap: Snapshot, b: Block) returns (error: Option<VerifyError>)
    ensures match VerifyBlock(c, snap, b) case Ok(_) => error.None? case Err(e) => error == Some(e)
  {
    var want := ExpectedDifficulty(snap.chain);
    var got := Clamp(b.difficulty);
    if got != want { return Some(DifficultyMismatch(got, want)); }
    if b.hash != BlockHash(c, b) { return Some(HashMismatch); }
    if !HashMeets(b.hash, got) { return Some(HashTooEasy); }
    if HasParent(snap) {
      var next := snap.lastBlock.value.index + 1;
      if b.index != next { return Some(IndexMismatch(b.index, next)); }
      if b.prevHash != snap.lastBlock.value.hash { return Some(PrevHashMismatch); }
    }
    if snap.minted + b.reward > TOTAL_SUPPLY_CAP { return Some(CapExceeded); }
    error := VerifyTransactions(c, snap.accounts, b.transactions);
  }

  lemma Simulated(before: Accounts, tx: Transaction, after: Accounts)
    requires var s := Get(before, tx.from);
             var debited := before[tx.from := s.(balance := s.balance - (tx.amount + tx.fee), nonce := tx.nonce)];
             var r := Get(debited, tx.to);
             after == debited[tx.to := r.(address := tx.to, balance := r.balance + tx.amount)]
    ensures after == SimulateTx(before, tx)
  {}

  method VerifyTransactions(c: Crypto, start: Accounts, txs: seq<Transaction>) returns (error: Option<VerifyError>)
    ensures match Simulate(c, start, txs, 0) case Ok(_) => error.None? case Err(e) => error == Some(e)
  {
    hide VerifyTransaction, SimulateTx;
    var accounts := start;
    var expectedSeq := 0;
    var i := 0;
    while i < |txs|
      invariant 0 <= i <= |txs|
      invariant Simulate(c, start, txs, 0) == Simulate(c, accounts, txs[i..], expectedSeq)
    {
      var tx := txs[i];
      assert txs[i..][0] == tx && txs[i..][1..] == txs[i + 1..];
      i := i + 1;
      if tx.isCoinbase {
        if expectedSeq != 0 { return Some(CoinbaseNotFirst); }
        if tx.sequenceNumber != 0 { return Some(CoinbaseSequence); }
        expectedSeq := 1;
        continue;
      }
      if tx.sequenceNumber != expectedSeq { return Some(SequenceMismatch(tx.sequenceNumber, expectedSeq)); }
      expectedSeq := expectedSeq + 1;
      if !VerifyTransaction(c, tx) { return Some(BadSignature(tx.id)); }
      var sender := Get(accounts, tx.from);
      if tx.nonce != sender.nonce + 1 { return Some(NonceMismatch(tx.from, tx.nonce, sender.nonce + 1)); }
      if sender.balance < tx.amount + tx.fee { return Some(InsufficientBalance(tx.from)); }
      ghost var before := accounts;
      sender := sender.(balance := sender.balance - (tx.amount + tx.fee), nonce := tx.nonce);
      accounts := accounts[tx.from := sender];
      var receiver := Get(accounts, tx.to);
      receiver := receiver.(address := tx.to, balance := receiver.balance + tx.amount);
      accounts := accounts[tx.to := receiver];
      Simulated(before, tx, accounts);
    }
    error := None;
  }

  /** The verifiers finish in some order; each result is collected, and counted, as it comes. */
  method CollectVotes(c: Crypto, snap: Snapshot, b: Block, peers: seq<bool>)
    returns (results: seq<BlockVerification>, accepted: nat)
    ensures multiset(results) == multiset(VoteResults(VerifyBlock(c, snap, b).Ok?, peers))
    ensures accepted == CountAccepted(results)
  {
    var error := VerifyBlockAgainstSnapshot(c, snap, b);
    var running := VoteResults(error.None?, peers);
    ghost var all := running;
    results, accepted := [], 0;
    while running != []
      invariant multiset(results) + multiset(running) == multiset(all)
      invariant accepted == CountAccepted(results)
      decreases |running|
    {
      var i :| 0 <= i < |running|;
      var r := running[i];
      assert running == running[..i] + [r] + running[i + 1..];
      MultisetOne(running[..i], r, running[i + 1..]);
      running := running[..i] + running[i + 1..];
      assert (results + [r])[..|results|] == results;
      results := results + [r];
      if r.accepted { accepted := accepted + 1; }
    }
  }

  /** The unlocked half of AddBlock, on the caller's block. */
  method Poll(c: Crypto, vals: ValidatorMap, snap: Snapshot, cell: BlockCell, peers: seq<bool>) returns (accepted: nat)
    modifies cell
    ensures (cell.block, accepted) == CastVotes(c, vals, snap, old(cell.block), peers)
  {
    var results;
    results, accepted := CollectVotes(c, snap, cell.block, peers);
    ghost var listed := VoteResults(VerifyBlock(c, snap, cell.block).Ok?, peers);
    VoteResultsDistinct(VerifyBlock(c, snap, cell.block).Ok?, peers);
    ByPeerIsOrder();
    SortCorrect(results, ByPeer());
    MergeIsScheduleIndependent(cell.block, listed, results, Sort(results, ByPeer()));
    cell.MergeVerifications(results);
    cell.MarkFinalizedIfThresholdReached(vals);
  }

  class ChainState {
    var chain: seq<Block>
    var accounts: map<string, AccountCell>
    var minted: real
    var mempool: seq<Transaction>

    constructor ()
      ensures Valid() && View() == Ledger([], map[], 0.0, [])
    {
      chain, accounts, minted, mempool := [], map[], 0.0, [];
    }

    /** The founder's allocation and nothing else. */
    constructor Founding(founder: string)
      ensures Valid() && fresh(accounts.Values) && chain == [] && mempool == []
      ensures MoneyOf(View()) == FoundingMoney(founder)
    {
      chain, minted, mempool := [], FOUNDER_ALLOCATION, [];
      var account := new AccountCell(founder);
      account.balance := FOUNDER_ALLOCATION;
      accounts := map[founder := account];
    }

    /** No two addresses share an account object. */
    ghost predicate Valid()
      reads this`accounts
    {
      forall a, b :: a in accounts && b in accounts && a != b ==> accounts[a] != accounts[b]
    }

    ghost function AccountValues(): (values: Accounts)
      reads this`accounts, accounts.Values
      ensures values.Keys == accounts.Keys
    {
      map a | a in accounts :: accounts[a].Value()
    }

    ghost function View(): Ledger
      reads this, accounts.Values
    {
      Ledger(chain, AccountValues(), minted, mempool)
    }

    /** A value copy of every account, safe to simulate on. */
    method CloneAccountValues() returns (copy: Accounts)
      ensures copy == AccountValues()
    {
      copy := map[];
      var left := accounts.Keys;
      while left != {}
        invariant left <= accounts.Keys
        invariant copy.Keys == accounts.Keys - left
        invariant forall a :: a in copy ==> copy[a] == accounts[a].Value()
        decreases |left|
      {
        var a :| a in left;
        copy := copy[a := accounts[a].Value()];
        left := left - {a};
      }
    }

    method SnapshotState() returns (snap: Snapshot)
      ensures snap == SnapshotOf(View())
    {
      var values := CloneAccountValues();
      snap := Snapshot(LastOf(chain), chain, minted, values);
    }

    method VerifyBlock(c: Crypto, b: Block) returns (error: Option<VerifyError>)
      ensures match VerifyOnLedger(c, View(), b) case Ok(_) => error.None? case Err(e) => error == Some(e)
    {
      var snap := SnapshotState();
      if (snap.lastBlock.None? || snap.lastBlock.value.hash == "") && b.index != 0 { return Some(NoGenesisBlock); }
      error := VerifyBlockAgainstSnapshot(c, snap, b);
    }

    /** Adds to a balance, opening an empty account first if there is none. */
    method Deposit(a: string, amount: real)
      requires Valid()
      modifies this`accounts, accounts.Values
      ensures Valid() && fresh(accounts.Values - old(accounts.Values))
      ensures AccountValues() == Deposited(old(AccountValues()), a, amount)
    {
      var cell: AccountCell;
      if a in accounts {
        cell := accounts[a];
      } else {
        cell := new AccountCell(a);
      }
      cell.balance := cell.balance + amount;
      accounts := accounts[a := cell];
    }

    method DistributeRewards(miner: string, reward: real)
      requires Valid()
      modifies this`accounts, this`minted, accounts.Values
      ensures Valid() && fresh(accounts.Values - old(accounts.Values))
      ensures MoneyOf(View()) == Consensus.DistributeRewards(old(MoneyOf(View())), miner, reward)
    {
      hide ChainState.AccountValues, ChainState.Valid, Deposited;
      if reward <= 0.0 || miner == "" { return; }
      var paid := reward;
      var available := TOTAL_SUPPLY_CAP - minted;
      if paid > available { paid := available; }
      Deposit(miner, paid);
      minted := minted + paid;
    }

    method ApplyPenalty(offender: string, amount: real)
      requires Valid()
      modifies this`minted, accounts.Values
      ensures Valid() && View() == Penalise(old(View()), offender, amount)
    {
      if offender !in accounts || amount <= 0.0 { return; }
      var acc := accounts[offender];
      var applied := amount;
      if applied > acc.balance { applied := acc.balance; }
      acc.balance := acc.balance - applied;
      if minted >= applied { minted := minted - applied; }
      assert AccountValues() == Penalise(old(View()), offender, amount).accounts;
    }

    method DebitSender(tx: Transaction)
      requires Valid() && tx.from in accounts
      modifies this`accounts, accounts.Values
      ensures Valid() && accounts == old(accounts)
      ensures AccountValues() == Debited(old(AccountValues()), tx)
    {
      var from := accounts[tx.from];
      from.balance := from.balance - (tx.amount + tx.fee);
      from.nonce := tx.nonce;
      accounts := accounts[tx.from := from];
    }

    /** Moves one transaction's money on the shared account objects, sender and receiver possibly the same. */
    method ApplyTransaction(tx: Transaction)
      requires Valid() && tx.from in accounts
      modifies this`accounts, accounts.Values
      ensures Valid() && fresh(accounts.Values - old(accounts.Values))
      ensures AccountValues() == ApplyTx(old(AccountValues()), tx)
    {
      hide ChainState.AccountValues, ChainState.Valid, Deposited, Debited;
      DebitSender(tx);
      Deposit(tx.to, tx.amount);
    }

    /** The apply loop; false as soon as a sender has no account. */
    method ApplyTransactions(txs: seq<Transaction>) returns (ok: bool)
      requires Valid()
      modifies this`accounts, accounts.Values
      ensures Valid() && fresh(accounts.Values - old(accounts.Values))
      ensures ok <==> ApplyTxs(old(AccountValues()), txs).Some?
      ensures ok ==> AccountValues() == ApplyTxs(old(AccountValues()), txs).value
    {
      var i := 0;
      while i < |txs|
        invariant 0 <= i <= |txs|
        invariant Valid() && fresh(accounts.Values - old(accounts.Values))
        invariant ApplyTxs(old(AccountValues()), txs) == ApplyTxs(AccountValues(), txs[i..])
      {
        assert txs[i..][0] == txs[i] && txs[i..][1..] == txs[i + 1..];
        if !txs[i].isCoinbase {
          if txs[i].from !in accounts { return false; }
          ApplyTransaction(txs[i]);
        }
        i := i + 1;
      }
      return true;
    }

    /** The locked half of AddBlock for a block that won its vote. */
    method CommitBlock(c: Crypto, b: Block) returns (error: Option<CommitError>)
      requires Valid()
      modifies this, accounts.Values
      ensures Valid() && fresh(accounts.Values - old(accounts.Values))
      ensures (View(), error) == Commit(c, old(View()), b)
    {
      hide Consensus.VerifyBlock, ApplyBlock, SendersExist, ChainState.AccountValues, ChainState.Valid;
      var snap := SnapshotState();
      var invalid := VerifyBlockAgainstSnapshot(c, snap, b);
      if invalid.Some? { return Some(Invalid(invalid.value)); }
      var present := SendersPresent(b.transactions);
      if !present { return Some(SenderMissing); }
      ghost var after := Commit(c, View(), b).0;
      CommitIsAllOrNothing(c, View(), b);
      var ok := ApplyBlockInPlace(b);
      assert MoneyOf(View()) == MoneyOf(after);
      mempool := [];
      chain := chain + [b];
      assert View() == after;
      return None;
    }

    method SendersPresent(txs: seq<Transaction>) returns (present: bool)
      ensures present <==> SendersExist(AccountValues(), txs)
    {
      var i := 0;
      while i < |txs|
        invariant 0 <= i <= |txs|
        invariant forall j :: 0 <= j < i && !txs[j].isCoinbase ==> txs[j].from in accounts
      {
        if !txs[i].isCoinbase && txs[i].from !in accounts { return false; }
        i := i + 1;
      }
      return true;
    }

    /** Pays the reward and applies the transactions; false when a sender is missing at its turn. */
    method ApplyBlockInPlace(b: Block) returns (ok: bool)
      requires Valid()
      modifies this`accounts, this`minted, accounts.Values
      ensures Valid() && fresh(accounts.Values - old(accounts.Values))
      ensures match ApplyBlock(old(MoneyOf(View())), b) case None => !ok case Some(m) => ok && MoneyOf(View()) == m
    {
      DistributeRewards(b.miner, b.reward);
      ok := ApplyTransactions(b.transactions);
    }

    /** Counts the votes against the majority, then penalises or commits. */
    method ConcludeVote(c: Crypto, cell: BlockCell, accepted: nat, total: nat) returns (error: Option<AddError>)
      requires Valid()
      modifies this, accounts.Values
      ensures Valid() && fresh(accounts.Values - old(accounts.Values))
      ensures (View(), error) == Consensus.Conclude(c, old(View()), cell.block, accepted, total)
    {
      var majority := total / 2 + 1;
      if accepted < majority {
        ApplyPenalty(cell.block.miner, cell.block.reward);
        return Some(Outvoted);
      }
      var failed := CommitBlock(c, cell.block);
      error := match failed case None => None case Some(e) => Some(NotCommitted(e));
    }

    method AddBlock(c: Crypto, vals: ValidatorMap, cell: BlockCell, peers: seq<bool>) returns (error: Option<AddError>)
      requires Valid()
      modifies this, accounts.Values, cell
      ensures Valid() && fresh(accounts.Values - old(accounts.Values))
      ensures (View(), cell.block, error) == Consensus.AddBlock(c, vals, old(View()), old(cell.block), peers)
    {
      var snap := SnapshotState();
      ghost var l := View();
      var accepted := Poll(c, vals, snap, cell, peers);
      assert View() == l;
      error := ConcludeVote(c, cell, accepted, |peers| + 1);
    }

    // ---- Mempool ----

    /** sort.Search over the pool. */
    method FindPosition(tx: Transaction) returns (at: nat)
      ensures at == Mempool.Search(mempool, tx, 0, |mempool|)
    {
      var i, j := 0, |mempool|;
      while i < j
        invariant 0 <= i <= j <= |mempool|
        invariant Mempool.Search(mempool, tx, 0, |mempool|) == Mempool.Search(mempool, tx, i, j)
        decreases j - i
      {
        var h := (i + j) / 2;
        if !Mempool.Before(tx, mempool[h]) { i := h + 1; } else { j := h; }
      }
      return i;
    }

    method IsPending(tx: Transaction) returns (found: bool)
      ensures found <==> Mempool.Pending(mempool, tx)
    {
      var i := 0;
      while i < |mempool|
        invariant 0 <= i <= |mempool|
        invariant forall j :: 0 <= j < i ==> !(mempool[j].from == tx.from && mempool[j].nonce == tx.nonce)
      {
        if mempool[i].from == tx.from && mempool[i].nonce == tx.nonce { return true; }
        i := i + 1;
      }
      return false;
    }

    /** Admits a transaction, giving it its ID, and inserts it by priority; a full pool drops its last. */
    method AddTxToMempool(c: Crypto, tx: Transaction, limit: nat)
      returns (stored: Transaction, error: Option<Mempool.PoolError>)
      modifies this`mempool
      ensures (mempool, error) == Mempool.AddTx(c, AccountValues(), old(mempool), tx, limit)
      ensures stored == if Mempool.Refusal(c, AccountValues(), old(mempool), tx).None? then Mempool.Identified(c, tx)
                        else tx
    {
      hide Mempool.FloatEqual, VerifyTransaction, Mempool.Search, Mempool.Pending, TxID;
      stored := tx;
      if tx.isCoinbase { return stored, Some(Mempool.IsCoinbase); }
      if !Mempool.FloatEqual(tx.fee, FIXED_FEE) { return stored, Some(Mempool.WrongFee); }
      if !VerifyTransaction(c, tx) { return stored, Some(Mempool.PoolError.BadSignature); }
      var sender := if tx.from in accounts then accounts[tx.from].Value() else Account(tx.from, 0.0, 0);
      var pending := IsPending(tx);
      if pending { return stored, Some(Mempool.DuplicateNonce); }
      if tx.nonce != sender.nonce + 1 { return stored, Some(Mempool.WrongNonce); }
      if sender.balance < tx.amount + tx.fee { return stored, Some(Mempool.Insufficient); }
      stored := tx.(id := TxID(c, tx));
      var insertAt := FindPosition(stored);
      mempool := mempool[..insertAt] + [stored] + mempool[insertAt..];
      if |mempool| > limit {
        var dropped := mempool[|mempool| - 1];
        mempool := mempool[..|mempool| - 1];
        if dropped.id == stored.id { return stored, Some(Mempool.LowPriority); }
      }
      return stored, None;
    }

    // ---- Mining ----

    method NumberPool() returns (txs: seq<Transaction>)
      ensures txs == Template.Renumbered(mempool)
    {
      txs := [];
      var i := 0;
      while i < |mempool|
        invariant 0 <= i <= |mempool| && |txs| == i
        invariant forall j :: 0 <= j < i ==> txs[j] == mempool[j].(sequenceNumber := j + 1)
      {
        txs := txs + [mempool[i].(sequenceNumber := i + 1)];
        i := i + 1;
      }
    }

    /** A block candidate from the current pool, with its nonce found. */
    method CreateBlockTemplate(c: Crypto, miner: string, now: int) returns (r: Result<BlockCell, Template.MineError>)
      ensures match Template.CreateBlockTemplate(c, View(), miner, now)
              case Ok(b) => r.Ok? && fresh(r.value) && r.value.block == b
              case Err(e) => r == Err(e)
    {
      hide Template.Mine, ExpectedDifficulty, Template.Renumbered, Template.CoinbaseTx, Emission.RewardAt;
      if chain == [] { return Err(Template.NoGenesis); }
      var prev := chain[|chain| - 1];
      var blockIndex := prev.index + 1;
      var reward := Emission.BlockReward(blockIndex);
      if minted + reward > TOTAL_SUPPLY_CAP {
        reward := TOTAL_SUPPLY_CAP - minted;
        if reward < 0.0 { reward := 0.0; }
      }
      var numbered := NumberPool();
      var txs := [Template.CoinbaseTx(blockIndex, miner, reward, now)] + numbered;
      var cell := new BlockCell(Block(blockIndex, prev.hash, "", now, ExpectedDifficulty(chain), 0, txs, reward, miner,
                                      "", [], false, map[]));
      assert cell.block == Template.Candidate(View(), miner, now);
      var mined := cell.MineBlockPoW(c);
      if !mined { return Err(Template.NoWinningNonce); }
      return Ok(cell);
    }

    method MineBlock(c: Crypto, vals: ValidatorMap, miner: string, now: int)
      returns (r: Result<BlockCell, Template.MineError>)
      requires Valid()
      modifies this, accounts.Values
      ensures Valid() && fresh(accounts.Values - old(accounts.Values))
      ensures var (after, expected) := Template.MineBlock(c, vals, old(View()), miner, now);
              && View() == after
              && match expected
                 case Ok(b) => r.Ok? && r.value.block == b
                 case Err(e) => r == Err(e)
    {
      var template := CreateBlockTemplate(c, miner, now);
      if template.Err? { return Err(template.error); }
      var failed := AddBlock(c, vals, template.value, []);
      if failed.Some? { return Err(Template.Rejected(failed.value)); }
      return template;
    }

    // ---- Forks and synchronisation ----

    /** Takes over a rebuilt state, account objects and all; the mempool stays. */
    method Adopt(rebuilt: ChainState)
      requires Valid() && rebuilt.Valid()
      modifies this
      ensures Valid() && View() == old(rebuilt.View()).(mempool := old(mempool))
      ensures accounts == old(rebuilt.accounts)
    {
      chain, accounts, minted := rebuilt.chain, rebuilt.accounts, rebuilt.minted;
    }

    /** Replaces the tip by a better-confirmed sibling; the candidate carries the merged votes if adopted. */
    method ResolveFork(c: Crypto, vals: ValidatorMap, candidate: BlockCell) returns (outcome: ForkOutcome)
      requires Valid()
      modifies this, candidate
      ensures Valid() && fresh(accounts.Values - old(accounts.Values))
      ensures (View(), outcome) == ForkChoice.ResolveFork(c, vals, old(View()), old(candidate.block))
      ensures outcome.Adopted? ==> candidate.block == outcome.block
    {
      hide Preferred, CheckPeers, Rebuild, JoinRebuilt;
      var contends := Challenges(candidate.block);
      if !contends { return Kept; }
      var peerError := CheckCandidatePeers(candidate.block.verifications);
      if peerError.Some? { return ForkFailed(peerError.value); }
      var rebuilt;
      rebuilt, outcome := JoinBase(c, vals, chain[..|chain| - 1], candidate);
      if outcome.Adopted? { Adopt(rebuilt); }
    }

    method Challenges(candidate: Block) returns (r: bool)
      ensures r <==> Contends(chain, candidate)
    {
      if |chain| < 2 { return false; }
      var tip, parent := chain[|chain| - 1], chain[|chain| - 2];
      if candidate.index != tip.index { return false; }
      if candidate.hash == tip.hash { return false; }
      if candidate.prevHash != parent.hash { return false; }
      var tipAccepted := CountAcceptedVotes(tip.verifications);
      var candidateAccepted := CountAcceptedVotes(candidate.verifications);
      if tip.finalized && !candidate.finalized { return false; }
      if candidate.finalized {
        if tip.finalized && candidateAccepted < tipAccepted { return false; }
      } else if candidateAccepted <= tipAccepted {
        return false;
      }
      return true;
    }

    /** Marks the first block with this hash final; true when that was news. */
    method TryFinalizeExisting(b: Block) returns (updated: bool)
      modifies this`chain
      ensures (View(), updated) == FinalizeExisting(old(View()), b)
    {
      if !b.finalized || b.hash == "" { return false; }
      updated := false;
      ghost var found := IndexOfHash(chain, b.hash);
      var i := 0;
      while i < |chain|
        invariant 0 <= i <= |chain|
        invariant chain == old(chain) && !updated
        invariant found.Some? ==> i <= found.value
      {
        if chain[i].hash == b.hash {
          if !chain[i].finalized {
            chain := chain[i := chain[i].(finalized := true)];
            updated := true;
          }
          return;
        }
        i := i + 1;
      }
    }

    method ReplaceChain(c: Crypto, newChain: seq<Block>) returns (error: Option<SyncError>)
      requires Valid()
      modifies this
      ensures Valid() && fresh(accounts.Values - old(accounts.Values))
      ensures (View(), error) == Sync.ReplaceChain(c, old(View()), newChain)
    {
      var lastFinalized := FindLastFinalized();
      if lastFinalized >= 0 {
        if |newChain| <= lastFinalized || newChain[lastFinalized].hash != chain[lastFinalized].hash {
          return Some(DivergesBefore(lastFinalized));
        }
      }
      var rebuilt, replayError := RebuildStateFromChain(c, newChain);
      if rebuilt == null { return Some(RebuildFailed(replayError)); }
      Adopt(rebuilt);
      return None;
    }

    method FindLastFinalized() returns (last: int)
      ensures last == LastFinalized(chain)
    {
      last := -1;
      var i := 0;
      while i < |chain|
        invariant 0 <= i <= |chain|
        invariant last == LastFinalized(chain[..i])
      {
        assert chain[..i + 1][..i] == chain[..i];
        if chain[i].finalized { last := i; }
        i := i + 1;
      }
      assert chain[..i] == chain;
    }

    /** Adds a peer's blocks one by one, or considers its whole chain. */
    method ApplySyncedBlocks(c: Crypto, vals: ValidatorMap, blocks: seq<Block>) returns (error: Option<SyncError>)
      requires Valid()
      modifies this, accounts.Values
      ensures Valid() && (View(), error) == ApplySynced(c, vals, old(View()), blocks)
    {
      if blocks == [] { return None; }
      if blocks[0].index == 0 {
        error := ReplaceChain(c, blocks);
        return;
      }
      if blocks[0].index != |chain| || blocks[0].prevHash != TipHash(chain) { return Some(FullSyncRequired); }
      var k, failed := AppendEach(c, vals, blocks);
      error := if failed.None? then None else Some(AppendFailed(blocks[k].index, failed.value));
    }

    method AppendEach(c: Crypto, vals: ValidatorMap, blocks: seq<Block>) returns (k: nat, error: Option<AddError>)
      requires Valid()
      modifies this, accounts.Values
      ensures Valid() && fresh(accounts.Values - old(accounts.Values))
      ensures (View(), k, error) == AppendBlocks(c, vals, old(View()), blocks)
      ensures error.Some? ==> k < |blocks|
    {
      hide Adder, UntilError, Shifted, ChainState.Valid, ChainState.AccountValues;
      k := 0;
      ghost var start, now := View(), View();
      NothingAppended(c, vals, start, blocks);
      while k < |blocks|
        invariant 0 <= k <= |blocks|
        invariant Valid() && fresh(accounts.Values - old(accounts.Values))
        invariant now == View()
        invariant Shifted(AppendBlocks(c, vals, now, blocks[k..]), k) == AppendBlocks(c, vals, start, blocks)
      {
        error := AddNext(c, vals, blocks[k]);
        AppendTurn(c, vals, start, blocks, k, now, View(), error);
        now := View();
        if error.Some? { return; }
        k := k + 1;
      }
      AllAppended(c, vals, start, blocks, now);
      error := None;
    }

    method AddNext(c: Crypto, vals: ValidatorMap, b: Block) returns (error: Option<AddError>)
      requires Valid()
      modifies this, accounts.Values
      ensures Valid() && fresh(accounts.Values - old(accounts.Values))
      ensures (View(), error) == Adder(c, vals)(old(View()), b)
    {
      var cell := new BlockCell(b);
      error := AddBlock(c, vals, cell, []);
    }

    /** One round of replay: verify against the replayed state alone, then pay and apply. */
    method ReplayNext(c: Crypto, b: Block) returns (error: Option<ReplayError>)
      requires Valid()
      modifies this, accounts.Values
      ensures Valid() && fresh(accounts.Values - old(accounts.Values))
      ensures ReplayBlock(c, old(chain), old(MoneyOf(View())), b)
              == if error.None? then Ok(MoneyOf(View())) else Err(error.value)
      ensures error.None? ==> chain == old(chain) + [b] && mempool == old(mempool)
    {
      hide Consensus.VerifyBlock, ApplyBlock, ChainState.AccountValues, ChainState.Valid;
      var values := CloneAccountValues();
      var invalid := VerifyBlockAgainstSnapshot(c, Snapshot(LastOf(chain), [], minted, values), b);
      if invalid.Some? { return Some(BlockInvalid(invalid.value)); }
      var ok := ApplyBlockInPlace(b);
      if !ok { return Some(ReplaySenderMissing); }
      chain := chain + [b];
      return None;
    }

    /** This state is what replaying the first `n` blocks gives. */
    ghost predicate Replayed(c: Crypto, founder: string, blocks: seq<Block>, n: nat)
      requires n <= |blocks|
      reads this, accounts.Values
    {
      Valid() && chain == blocks[..n] && mempool == [] && ReplayFrom(c, founder, blocks[..n]) == Ok(MoneyOf(View()))
    }

    /** One turn of the replay loop. */
    method ReplayAt(c: Crypto, founder: string, blocks: seq<Block>, i: nat) returns (error: Option<ReplayError>)
      requires i < |blocks| && Replayed(c, founder, blocks, i)
      modifies this, accounts.Values
      ensures Valid() && fresh(accounts.Values - old(accounts.Values))
      ensures match error
              case None => Replayed(c, founder, blocks, i + 1)
              case Some(e) => ReplayFrom(c, founder, blocks) == Err(e)
    {
      hide ReplayBlock, ReplayFrom;
      ghost var m := MoneyOf(View());
      error := ReplayNext(c, blocks[i]);
      ReplayTurn(c, founder, blocks, i, m, if error.None? then Ok(MoneyOf(View())) else Err(error.value));
      assert blocks[..i + 1] == blocks[..i] + [blocks[i]];
    }

    /** Replays a chain onto the founding state. */
    method ReplayAll(c: Crypto, founder: string, blocks: seq<Block>) returns (error: Option<ReplayError>)
      requires Valid() && chain == [] && mempool == [] && MoneyOf(View()) == FoundingMoney(founder)
      modifies this, accounts.Values
      ensures Valid() && fresh(accounts.Values - old(accounts.Values))
      ensures match error
              case None => Replayed(c, founder, blocks, |blocks|)
              case Some(e) => ReplayFrom(c, founder, blocks) == Err(e)
    {
      var i := 0;
      while i < |blocks|
        invariant 0 <= i <= |blocks|
        invariant fresh(accounts.Values - old(accounts.Values))
        invariant Replayed(c, founder, blocks, i)
      {
        error := ReplayAt(c, founder, blocks, i);
        if error.Some? { return; }
        i := i + 1;
      }
      error := None;
    }

    /** On a rebuilt base: verifies the candidate and adds it. */
    method Join(c: Crypto, vals: ValidatorMap, candidate: BlockCell) returns (outcome: ForkOutcome)
      requires Valid()
      modifies this, accounts.Values, candidate
      ensures Valid() && fresh(accounts.Values - old(accounts.Values))
      ensures (View(), outcome) == JoinRebuilt(c, vals, old(View()), old(candidate.block))
      ensures outcome.Adopted? ==> candidate.block == outcome.block
    {
      var invalid := VerifyBlock(c, candidate.block);
      if invalid.Some? { return ForkFailed(CandidateInvalid(invalid.value)); }
      var failed := AddBlock(c, vals, candidate, []);
      if failed.Some? { return ForkFailed(CandidateNotAdded(failed.value)); }
      return Adopted(candidate.block);
    }
  }

  method CheckCandidatePeers(votes: seq<BlockVerification>) returns (error: Option<ForkError>)
    ensures error == CheckPeers(votes, {})
  {
    var seen: set<string> := {};
    var i := 0;
    while i < |votes|
      invariant 0 <= i <= |votes|
      invariant CheckPeers(votes, {}) == CheckPeers(votes[i..], seen)
    {
      assert votes[i..][0] == votes[i] && votes[i..][1..] == votes[i + 1..];
      if votes[i].peer == "" { return Some(MissingPeerId); }
      if votes[i].peer in seen { return Some(DuplicatePeerVote(votes[i].peer)); }
      seen := seen + {votes[i].peer};
      i := i + 1;
    }
    return None;
  }

  /** Rebuilds the base in a state of its own and adds the candidate to it. */
  method JoinBase(c: Crypto, vals: ValidatorMap, base: seq<Block>, candidate: BlockCell)
    returns (rebuilt: ChainState?, outcome: ForkOutcome)
    modifies candidate
    ensures outcome.Adopted? ==> rebuilt != null && fresh(rebuilt) && rebuilt.Valid() && fresh(rebuilt.accounts.Values)
                                 && candidate.block == outcome.block
    ensures match Rebuild(c, base)
            case Err(e) => outcome == ForkFailed(BaseReplayFailed(e))
            case Ok(l) => var (after, expected) := JoinRebuilt(c, vals, l, old(candidate.block));
                          outcome == expected && (outcome.Adopted? ==> rebuilt.View() == after)
  {
    var replayError;
    rebuilt, replayError := RebuildStateFromChain(c, base);
    if rebuilt == null { return rebuilt, ForkFailed(BaseReplayFailed(replayError)); }
    outcome := rebuilt.Join(c, vals, candidate);
  }

  /** Recomputes the state from the chain alone, in a state of its own. */
  method RebuildStateFromChain(c: Crypto, chain: seq<Block>) returns (cs: ChainState?, error: ReplayError)
    ensures match Rebuild(c, chain)
            case Ok(l) => cs != null && fresh(cs) && cs.Valid() && fresh(cs.accounts.Values) && cs.View() == l
            case Err(e) => cs == null && error == e
  {
    error := ReplaySenderMissing;
    var founder := FounderOf(chain);
    var state := new ChainState.Founding(founder);
    var failed := state.ReplayAll(c, founder, chain);
    if failed.Some? { return null, failed.value; }
    assert chain[..|chain|] == chain;
    return state, error;
  }
}
