/** Rebuilding the state from the chain alone, and when it agrees with the state built block by block. */
module Replay {
  import opened Models
  import opened Difficulty
  import opened AccountMath
  import opened Consensus

  datatype ReplayError = BlockInvalid(error: VerifyError) | ReplaySenderMissing

  /** The founder named by the first transaction of the first block, or the configured one. */
  function FounderOf(chain: seq<Block>): string {
    if chain != [] && chain[0].transactions != [] && chain[0].transactions[0].to != "" then chain[0].transactions[0].to
    else FOUNDER_ADDRESS
  }

  lemma FounderExactly(chain: seq<Block>)
    ensures chain != [] && chain[0].transactions != [] && chain[0].transactions[0].to != "" ==>
              FounderOf(chain) == chain[0].transactions[0].to
    ensures chain == [] || chain[0].transactions == [] || chain[0].transactions[0].to == "" ==>
              FounderOf(chain) == "0x1111111111111111111111111111111111111111"
  {}

  /** Replay verifies without the chain behind it, so it always expects the initial difficulty. */
  function ReplaySnapshot(chain: seq<Block>, m: Money): Snapshot {
    Snapshot(LastOf(chain), [], m.minted, m.accounts)
  }

  function ReplayFrom(c: Crypto, founder: string, chain: seq<Block>): Result<Money, ReplayError> {
    if chain == [] then Ok(FoundingMoney(founder))
    else
      match ReplayFrom(c, founder, chain[..|chain| - 1])
      case Err(e) => Err(e)
      case Ok(m) => ReplayBlock(c, chain[..|chain| - 1], m, chain[|chain| - 1])
  }

  function ReplayBlock(c: Crypto, behind: seq<Block>, m: Money, b: Block): Result<Money, ReplayError> {
    match VerifyBlock(c, ReplaySnapshot(behind, m), b)
    case Err(e) => Err(BlockInvalid(e))
    case Ok(_) =>
      match ApplyBlock(m, b)
      case None => Err(ReplaySenderMissing)
      case Some(after) => Ok(after)
  }

  function Rebuild(c: Crypto, chain: seq<Block>): Result<Ledger, ReplayError> {
    match ReplayFrom(c, FounderOf(chain), chain)
    case Err(e) => Err(e)
    case Ok(m) => Ok(Ledger(chain, m.accounts, m.minted, []))
  }

  /** A block replays if and only if it is at difficulty 1, sealed, follows the block before it, fits the
      cap, its transactions are acceptable, and each sender has an account at its turn: from before, as
      the rewarded miner, or from an earlier payment of the block. */
  lemma BlockReplaysExactly(c: Crypto, behind: seq<Block>, m: Money, b: Block)
    ensures var rewarded := if b.reward > 0.0 && b.miner != "" then {b.miner} else {};
            ReplayBlock(c, behind, m, b).Ok? <==>
              && Clamp(b.difficulty) == 1 && b.hash == c.hash(HeaderOf(c, b)) && LeadingZeros(b.hash) >= 1
              && (behind != [] && behind[|behind| - 1].hash != "" ==>
                    b.index == behind[|behind| - 1].index + 1 && b.prevHash == behind[|behind| - 1].hash)
              && m.minted + b.reward <= 33000000.0
              && (forall p :: 0 <= p < |b.transactions| ==> AcceptedAt(c, m.accounts, b.transactions, 0, p))
              && forall p :: 0 <= p < |b.transactions| && !b.transactions[p].isCoinbase ==>
                   var a := b.transactions[p].from;
                   a in m.accounts || a in rewarded || PaidBefore(b.transactions, p, a)
  {
    hide Simulate, AcceptedAt, HeaderOf, HashMeets, ApplyTxs, PaidBefore, Get;
    SimulatesExactly(c, m.accounts, b.transactions, 0);
    HashMeetsExactly(b.hash, Clamp(b.difficulty));
    AppliesExactly(DistributeRewards(m, b.miner, b.reward).accounts, b.transactions);
  }

  /** A replayed block pays its miner, moves every payment and counts every nonce, account by account. */
  lemma ReplayMovesExactly(c: Crypto, behind: seq<Block>, m: Money, b: Block, a: string)
    requires ReplayBlock(c, behind, m, b).Ok?
    ensures var before, after := Get(m.accounts, a), Get(ReplayBlock(c, behind, m, b).value.accounts, a);
            var reward := if a == b.miner && b.miner != "" && b.reward > 0.0 then b.reward else 0.0;
            && after.balance == before.balance + reward + Received(b.transactions, a) - Spent(b.transactions, a)
            && after.nonce == before.nonce + |TxNonces(b.transactions, a)|
  {
    hide DistributeRewards, Simulate;
    var paid := DistributeRewards(m, b.miner, b.reward);
    RewardExactly(m, b.miner, b.reward);
    RewardAhead(m, b);
    AppliedBalance(paid.accounts, b.transactions, a);
    NoncesCountUp(c, m.accounts, paid.accounts, RewardShare(b), b.transactions, 0, a);
  }

  /** Block n replays on what the blocks before it come to. */
  predicate ReplaysAt(c: Crypto, founder: string, chain: seq<Block>, n: nat)
    requires n < |chain|
  {
    var before := ReplayFrom(c, founder, chain[..n]);
    before.Ok? && ReplayBlock(c, chain[..n], before.value, chain[n]).Ok?
  }

  /** A chain replays if and only if each of its blocks replays on what the blocks before it come to. */
  lemma {:induction false} ReplaysBlockByBlock(c: Crypto, founder: string, chain: seq<Block>)
    ensures ReplayFrom(c, founder, chain).Ok? <==> forall n :: 0 <= n < |chain| ==> ReplaysAt(c, founder, chain, n)
  {
    if chain != [] {
      hide ReplayBlock, ReplaysAt;
      var n := |chain| - 1;
      var behind := chain[..n];
      ReplaysBlockByBlock(c, founder, behind);
      LastReplaysAt(c, founder, chain);
      forall k | 0 <= k < n ensures ReplaysAt(c, founder, chain, k) <==> ReplaysAt(c, founder, behind, k) {
        PrefixReplaysAt(c, founder, chain, n, k);
      }
    }
  }

  lemma LastReplaysAt(c: Crypto, founder: string, chain: seq<Block>)
    requires chain != []
    ensures ReplayFrom(c, founder, chain).Ok? <==> ReplaysAt(c, founder, chain, |chain| - 1)
    ensures ReplayFrom(c, founder, chain).Ok? ==> ReplayFrom(c, founder, chain[..|chain| - 1]).Ok?
  {
    hide ReplayBlock;
  }

  lemma PrefixReplaysAt(c: Crypto, founder: string, chain: seq<Block>, n: nat, k: nat)
    requires k < n <= |chain|
    ensures ReplaysAt(c, founder, chain, k) <==> ReplaysAt(c, founder, chain[..n], k)
  {
    hide ReplayBlock, ReplayFrom;
    assert chain[..n][..k] == chain[..k] && chain[..n][k] == chain[k];
  }

  /** What the blocks of a chain come to for one address: rewards and receipts less payments and fees. */
  function NetOn(chain: seq<Block>, a: string): real {
    if chain == [] then 0.0
    else
      var b := chain[|chain| - 1];
      NetOn(chain[..|chain| - 1], a) + (if a == b.miner && b.miner != "" && b.reward > 0.0 then b.reward else 0.0)
      + Received(b.transactions, a) - Spent(b.transactions, a)
  }

  /** The founder's coins, for the founder a chain names. */
  function Founding(chain: seq<Block>, a: string): real {
    if a == FounderOf(chain) then FOUNDER_ALLOCATION else 0.0
  }

  /** A chain rebuilds if and only if each of its blocks replays on what the blocks before it come to; the
      rebuilt state has that chain, and for every address the founder's coins, if it is the founder, and
      what the chain's rewards and payments come to for it. */
  lemma RebuildsExactly(c: Crypto, chain: seq<Block>, a: string)
    ensures Rebuild(c, chain).Ok? <==> forall n :: 0 <= n < |chain| ==> ReplaysAt(c, FounderOf(chain), chain, n)
    ensures Rebuild(c, chain).Ok? ==>
              var l := Rebuild(c, chain).value;
              && l.chain == chain && l.mempool == []
              && Get(l.accounts, a).balance == Founding(chain, a) + NetOn(chain, a)
  {
    hide ReplayFrom, ReplaysAt, FounderOf, NetOn;
    ReplaysBlockByBlock(c, FounderOf(chain), chain);
    if Rebuild(c, chain).Ok? { ReplayedBalance(c, FounderOf(chain), chain, a); }
  }

  lemma {:induction false} ReplayedBalance(c: Crypto, founder: string, chain: seq<Block>, a: string)
    requires ReplayFrom(c, founder, chain).Ok?
    ensures Get(ReplayFrom(c, founder, chain).value.accounts, a).balance
            == (if a == founder then FOUNDER_ALLOCATION else 0.0) + NetOn(chain, a)
  {
    if chain != [] {
      hide ReplayBlock, Get, Received, Spent;
      var behind := chain[..|chain| - 1];
      ReplayedBalance(c, founder, behind, a);
      ReplayMovesExactly(c, behind, ReplayFrom(c, founder, behind).value, chain[|chain| - 1], a);
    }
  }

  /** One turn of the replay loop: it goes on with the block's outcome, or stops with its error. */
  lemma ReplayTurn(c: Crypto, founder: string, chain: seq<Block>, i: nat, m: Money, r: Result<Money, ReplayError>)
    requires i < |chain| && ReplayFrom(c, founder, chain[..i]) == Ok(m)
    requires r == ReplayBlock(c, chain[..i], m, chain[i])
    ensures ReplayFrom(c, founder, chain[..i + 1]) == r
    ensures r.Err? ==> ReplayFrom(c, founder, chain) == r
  {
    assert chain[..i + 1][..i] == chain[..i];
    if r.Err? { ReplayErrorSticks(c, founder, chain, i + 1); }
  }

  /** The first block that fails to replay decides the outcome. */
  lemma {:induction false} ReplayErrorSticks(c: Crypto, founder: string, chain: seq<Block>, n: nat)
    requires n <= |chain| && ReplayFrom(c, founder, chain[..n]).Err?
    ensures ReplayFrom(c, founder, chain) == ReplayFrom(c, founder, chain[..n])
  {
    if n == |chain| {
      assert chain[..n] == chain;
    } else {
      assert chain[..|chain| - 1][..n] == chain[..n];
      ReplayErrorSticks(c, founder, chain[..|chain| - 1], n);
    }
  }

  /** What replay keeps whatever the signs of amounts: a linked chain, nonces that count, and every
      coin the chain has paid out, since nothing is ever slashed in replay. */
  ghost predicate ReplayShape(c: Crypto, chain: seq<Block>, m: Money) {
    Linked(c, chain) && NonceHistory(chain, m) && m.minted == FOUNDER_ALLOCATION + ChainRewards(chain)
  }

  lemma ReplayBlockKeepsShape(c: Crypto, behind: seq<Block>, m: Money, b: Block)
    requires ReplayShape(c, behind, m) && ReplayBlock(c, behind, m, b).Ok?
    ensures ReplayShape(c, behind + [b], ReplayBlock(c, behind, m, b).value)
    ensures Clamp(b.difficulty) == INITIAL_DIFFICULTY && m.minted + b.reward <= TOTAL_SUPPLY_CAP
  {
    hide Linked, NonceHistory;
    VerifiedBlockLinks(c, ReplaySnapshot(behind, m), behind, b);
    NonceHistoryExtends(c, behind, m, b);
    RecordsExtend(behind, b);
    RewardAhead(m, b);
  }

  lemma FoundingShape(c: Crypto, founder: string)
    ensures ReplayShape(c, [], FoundingMoney(founder))
  {}

  lemma LastReplayed(c: Crypto, founder: string, chain: seq<Block>)
    requires chain != [] && ReplayFrom(c, founder, chain).Ok?
    ensures var behind := chain[..|chain| - 1];
            ReplayFrom(c, founder, behind).Ok? &&
            ReplayFrom(c, founder, chain)
                == ReplayBlock(c, behind, ReplayFrom(c, founder, behind).value, chain[|chain| - 1])
  {
    hide ReplayBlock;
  }

  /** Any chain that replays is linked, its nonces count, and it has minted exactly its rewards. */
  lemma {:induction false} ReplayLinks(c: Crypto, founder: string, chain: seq<Block>)
    requires ReplayFrom(c, founder, chain).Ok?
    ensures ReplayShape(c, chain, ReplayFrom(c, founder, chain).value)
  {
    hide ReplayShape, ReplayBlock, ReplayFrom;
    if chain == [] {
      FoundingReplays(c, founder);
      FoundingShape(c, founder);
    } else {
      var behind, b := chain[..|chain| - 1], chain[|chain| - 1];
      LastReplayed(c, founder, chain);
      ReplayLinks(c, founder, behind);
      ReplayBlockKeepsShape(c, behind, ReplayFrom(c, founder, behind).value, b);
      assert chain == behind + [b];
    }
  }

  lemma FoundingReplays(c: Crypto, founder: string)
    ensures ReplayFrom(c, founder, []) == Ok(FoundingMoney(founder))
  {}

  lemma ReplayBlockKeepsBooks(c: Crypto, behind: seq<Block>, m: Money, b: Block)
    requires Books(behind, m) && WellFormedTxs(b.transactions) && ReplayBlock(c, behind, m, b).Ok?
    ensures Books(behind + [b], ReplayBlock(c, behind, m, b).value)
  {
    ApplyBlockKeepsBooks(c, behind, m, b);
  }

  /** A chain without negative amounts that replays keeps sound books too. */
  lemma {:induction false} ReplayKeepsBooks(c: Crypto, founder: string, chain: seq<Block>)
    requires ReplayFrom(c, founder, chain).Ok? && WellFormedChain(chain)
    ensures Books(chain, ReplayFrom(c, founder, chain).value)
  {
    hide Books, ReplayBlock, ReplayFrom;
    if chain == [] {
      FoundingReplays(c, founder);
      FoundingBooks(founder);
    } else {
      var behind, b := chain[..|chain| - 1], chain[|chain| - 1];
      LastReplayed(c, founder, chain);
      ReplayKeepsBooks(c, founder, behind);
      ReplayBlockKeepsBooks(c, behind, ReplayFrom(c, founder, behind).value, b);
      assert chain == behind + [b];
    }
  }

  lemma {:induction false} LinkedFromZeroIsPositioned(c: Crypto, chain: seq<Block>)
    requires Linked(c, chain) && (chain != [] ==> chain[0].index == 0)
    ensures Positioned(chain)
  {
    if chain != [] {
      var behind := chain[..|chain| - 1];
      LinkedFromZeroIsPositioned(c, behind);
      if behind != [] { assert behind[|behind| - 1].index == |behind| - 1; }
    }
  }

  /** Whatever chain from height 0 replays, the rebuilt ledger has its shape. */
  lemma RebuiltIsShaped(c: Crypto, chain: seq<Block>)
    requires chain != [] && chain[0].index == 0
    requires Rebuild(c, chain).Ok?
    ensures Shaped(c, Rebuild(c, chain).value) && Rebuild(c, chain).value.chain == chain
  {
    ReplayLinks(c, FounderOf(chain), chain);
    LinkedFromZeroIsPositioned(c, chain);
  }

  /** Its books balance unless it carries negative amounts. */
  lemma RebuiltIsAccounted(c: Crypto, chain: seq<Block>)
    requires chain != [] && chain[0].index == 0
    requires Rebuild(c, chain).Ok?
    ensures Accounted(c, Rebuild(c, chain).value) && Rebuild(c, chain).value.chain == chain
  {
    hide Books, Shaped;
    RebuiltIsShaped(c, chain);
    if WellFormedChain(chain) { ReplayKeepsBooks(c, FounderOf(chain), chain); }
  }

  // ---- When replay succeeds ----

  /** What replay can take: every block at the initial difficulty, and no block's reward over the
      cap when nothing slashed is ever taken off. */
  predicate Replayable(chain: seq<Block>) {
    forall i :: 0 <= i < |chain| ==> Clamp(chain[i].difficulty) == INITIAL_DIFFICULTY && FitsCap(chain, i)
  }

  predicate FitsCap(chain: seq<Block>, i: nat)
    requires i < |chain|
  {
    FOUNDER_ALLOCATION + ChainRewards(chain[..i]) + chain[i].reward <= TOTAL_SUPPLY_CAP
  }

  lemma ReplayablePrefix(chain: seq<Block>, n: nat)
    requires Replayable(chain) && n <= |chain|
    ensures Replayable(chain[..n])
  {
    forall i | 0 <= i < n
      ensures Clamp(chain[..n][i].difficulty) == INITIAL_DIFFICULTY && FitsCap(chain[..n], i)
    {
      assert chain[..n][..i] == chain[..i];
      assert FitsCap(chain, i);
    }
  }

  lemma ReplayableStep(chain: seq<Block>)
    requires chain != []
    ensures var n := |chain| - 1;
            Replayable(chain)
            <==> Replayable(chain[..n]) && Clamp(chain[n].difficulty) == INITIAL_DIFFICULTY && FitsCap(chain, n)
  {
    var n := |chain| - 1;
    if Replayable(chain) { ReplayablePrefix(chain, n); }
    if Replayable(chain[..n]) && Clamp(chain[n].difficulty) == INITIAL_DIFFICULTY && FitsCap(chain, n) {
      forall i | 0 <= i < |chain|
        ensures Clamp(chain[i].difficulty) == INITIAL_DIFFICULTY && FitsCap(chain, i)
      {
        if i < n {
          assert chain[..n][..i] == chain[..i] && FitsCap(chain[..n], i) && chain[..n][i] == chain[i];
        }
      }
    }
  }

  /** Only replayable chains replay. */
  lemma {:induction false} ReplayNeedsReplayable(c: Crypto, founder: string, chain: seq<Block>)
    requires ReplayFrom(c, founder, chain).Ok?
    ensures Replayable(chain)
  {
    if chain != [] {
      hide ReplayBlock, ReplayFrom, Replayable, Linked, NonceHistory;
      var behind, b := chain[..|chain| - 1], chain[|chain| - 1];
      LastReplayed(c, founder, chain);
      ReplayNeedsReplayable(c, founder, behind);
      ReplayLinks(c, founder, behind);
      ReplayBlockKeepsShape(c, behind, ReplayFrom(c, founder, behind).value, b);
      ReplayableStep(chain);
    }
  }

  // ---- The live state beside the replayed one ----

  /** What each account has lost to penalties, and the sum. */
  datatype Slashed = Slashed(from: map<string, real>, total: real)

  const NOTHING_SLASHED: Slashed := Slashed(map[], 0.0)

  function SlashedFrom(s: Slashed, a: string): real {
    if a in s.from then s.from[a] else 0.0
  }

  function AddSlash(s: Slashed, a: string, amount: real): Slashed {
    Slashed(s.from[a := SlashedFrom(s, a) + amount], s.total + amount)
  }

  function Extra(s: Slashed): string -> real {
    (a: string) => SlashedFrom(s, a)
  }

  function Richer(acc: Account, more: real): Account {
    acc.(balance := acc.balance + more)
  }

  /** The same accounts, nonces and addresses, each balance richer by what was slashed from it. */
  ghost predicate MirrorsAccounts(live: Accounts, replayed: Accounts, s: Slashed) {
    live.Keys == replayed.Keys && forall a :: a in live ==> replayed[a] == Richer(live[a], SlashedFrom(s, a))
  }

  ghost predicate Mirrors(live: Money, replayed: Money, s: Slashed) {
    && MirrorsAccounts(live.accounts, replayed.accounts, s)
    && replayed.minted == live.minted + s.total
    && (forall a :: SlashedFrom(s, a) >= 0.0)
    && (forall a :: a !in live.accounts ==> SlashedFrom(s, a) == 0.0)
  }

  /** Without penalties the mirror is exact. */
  lemma UnslashedMirrorIsEqual(live: Money, replayed: Money)
    requires Mirrors(live, replayed, NOTHING_SLASHED)
    ensures replayed == live
  {
    assert live.accounts == replayed.accounts;
  }

  lemma MirrorTx(live: Accounts, replayed: Accounts, s: Slashed, tx: Transaction)
    requires MirrorsAccounts(live, replayed, s) && tx.from in live
    requires forall a :: a !in live ==> SlashedFrom(s, a) == 0.0
    ensures MirrorsAccounts(ApplyTx(live, tx), ApplyTx(replayed, tx), s)
  {}

  lemma {:induction false} MirrorTxs(live: Accounts, replayed: Accounts, s: Slashed, txs: seq<Transaction>)
    requires MirrorsAccounts(live, replayed, s) && ApplyTxs(live, txs).Some?
    requires forall a :: a !in live ==> SlashedFrom(s, a) == 0.0
    ensures ApplyTxs(replayed, txs).Some?
    ensures MirrorsAccounts(ApplyTxs(live, txs).value, ApplyTxs(replayed, txs).value, s)
    ensures live.Keys <= ApplyTxs(live, txs).value.Keys
    decreases |txs|
  {
    if txs != [] {
      if txs[0].isCoinbase {
        MirrorTxs(live, replayed, s, txs[1..]);
      } else {
        MirrorTx(live, replayed, s, txs[0]);
        MirrorTxs(ApplyTx(live, txs[0]), ApplyTx(replayed, txs[0]), s, txs[1..]);
      }
    }
  }

  lemma MirrorReward(live: Money, replayed: Money, s: Slashed, b: Block)
    requires Mirrors(live, replayed, s)
    requires live.minted + b.reward <= TOTAL_SUPPLY_CAP && replayed.minted + b.reward <= TOTAL_SUPPLY_CAP
    ensures Mirrors(DistributeRewards(live, b.miner, b.reward), DistributeRewards(replayed, b.miner, b.reward), s)
  {}

  /** Replaying one more block that the live state accepted keeps the mirror. */
  lemma MirrorCommit(c: Crypto, l: Ledger, replayed: Money, s: Slashed, b: Block)
    requires Mirrors(MoneyOf(l), replayed, s)
    requires Commit(c, l, b).1.None?
    requires Clamp(b.difficulty) == INITIAL_DIFFICULTY && replayed.minted + b.reward <= TOTAL_SUPPLY_CAP
    ensures var r := ReplayBlock(c, l.chain, replayed, b);
            r.Ok? && Mirrors(MoneyOf(Commit(c, l, b).0), r.value, s)
  {
    CommitIsAllOrNothing(c, l, b);
    assert Ahead(l.accounts, replayed.accounts, Extra(s));
    SimulationMonotone(c, l.accounts, replayed.accounts, Extra(s), b.transactions, 0);
    MirrorReward(MoneyOf(l), replayed, s, b);
    var paid := DistributeRewards(MoneyOf(l), b.miner, b.reward);
    MirrorTxs(paid.accounts, DistributeRewards(replayed, b.miner, b.reward).accounts, s, b.transactions);
  }

  lemma MirrorPenalty(l: Ledger, replayed: Money, s: Slashed, offender: string, amount: real)
    requires Mirrors(MoneyOf(l), replayed, s) && Books(l.chain, MoneyOf(l))
    ensures Mirrors(MoneyOf(Penalise(l, offender, amount)), replayed, AddSlash(s, offender, Slash(l, offender, amount)))
  {
    PenaltyKeepsBooks(l, offender, amount);
  }

  // ---- Replay does not see vote metadata ----

  lemma {:induction false} ReplayIgnoresVotes(c: Crypto, founder: string, a: seq<Block>, b: seq<Block>)
    requires SameBodies(a, b)
    ensures ReplayFrom(c, founder, a) == ReplayFrom(c, founder, b)
    ensures Replayable(a) <==> Replayable(b)
    ensures ChainRewards(a) == ChainRewards(b)
    decreases |a|
  {
    if a != [] {
      var n := |a| - 1;
      var x, y := a[n], b[n];
      ReplayIgnoresVotes(c, founder, a[..n], b[..n]);
      BodyFields(x, y);
      if n > 0 { BodyFields(a[n - 1], b[n - 1]); }
      if ReplayFrom(c, founder, a[..n]).Ok? {
        var m := ReplayFrom(c, founder, a[..n]).value;
        VerifyIgnoresVotes(c, ReplaySnapshot(a[..n], m), x, y);
        SameLastBlock(c, a[..n], b[..n], m, y);
      }
      ReplayableStep(a);
      ReplayableStep(b);
    }
  }

  lemma SameLastBlock(c: Crypto, a: seq<Block>, b: seq<Block>, m: Money, x: Block)
    requires SameBodies(a, b)
    ensures VerifyBlock(c, ReplaySnapshot(a, m), x) == VerifyBlock(c, ReplaySnapshot(b, m), x)
  {
    if a != [] { BodyFields(a[|a| - 1], b[|b| - 1]); }
  }
}
