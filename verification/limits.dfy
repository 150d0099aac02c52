/** Concrete runs from genesis on which a wished-for property of the node fails, beside the theorems
    that say exactly when it holds. */
module Limits {
  import opened Models
  import opened Difficulty
  import opened AccountMath
  import opened Sorting
  import opened Votes
  import opened Consensus
  import opened Replay
  import opened ForkChoice
  import opened Sync
  import opened Protocol
  import opened Runs
  import opened Finality

  // ---- A small world ----

  function Digit(n: nat): char {
    if n == 0 then '0' else if n == 1 then '1' else '2'
  }

  /** 64 characters: a '0', a digit for the height, a digit for the nonce, and zeros. */
  function ToyHash(index: nat, nonce: nat): string {
    seq(64, i => if i == 1 then Digit(index) else if i == 2 then Digit(nonce) else '0')
  }

  function ToyCrypto(): Crypto {
    var p := Primitives((h: Header) => ToyHash(h.index, h.nonce), (s: Signed) => true, (p: Payload) => "",
        (r: real) => "");
    assert forall h: Header :: |p.hash(h)| == 64;
    p
  }

  lemma ToyHashesDiffer(i: nat, m: nat, j: nat, n: nat)
    ensures ToyHash(i, m) == ToyHash(j, n) ==> Digit(i) == Digit(j) && Digit(m) == Digit(n)
  {
    assert ToyHash(i, m)[1] == Digit(i) && ToyHash(j, n)[1] == Digit(j);
    assert ToyHash(i, m)[2] == Digit(m) && ToyHash(j, n)[2] == Digit(n);
  }

  const FOUNDER: string := "founder"

  function ToyTx(from: string, isCoinbase: bool, fee: real, nonce: nat): Transaction {
    Transaction("", from, FOUNDER, 0.0, fee, nonce, 0, "", "", "", "", isCoinbase, "", 0)
  }

  function ToyGenesis(): Block {
    Block(0, ZEROS64, ToyHash(0, 0), 0, 1, 0, [ToyTx("coinbase", true, 0.0, 0)], 0.0, "genesis", "", [], false, map[])
  }

  /** A block of height 1 or 2, on the block of nonce 0 below it, without votes. */
  function ToyBlock(index: nat, nonce: nat, txs: seq<Transaction>, reward: real): Block
    requires index > 0
  {
    Block(index, ToyHash(index - 1, 0), ToyHash(index, nonce), 0, 1, nonce, txs, reward, "miner", "", [], false, map[])
  }

  function ToySystem(): System {
    GenesisSystem(ToyGenesis(), FOUNDER, map[], 16)
  }

  lemma ToyGenesisIsGenesis()
    ensures IsGenesis(ToyCrypto(), ToyGenesis(), FOUNDER)
  {
    assert ToyHash(0, 0)[0] == '0';
  }

  lemma ToySeal(b: Block)
    requires b.hash == ToyHash(b.index, b.nonce) && b.difficulty == 1
    ensures b.hash == BlockHash(ToyCrypto(), b) && HashMeets(b.hash, 1)
  {
    assert ToyHash(b.index, b.nonce)[0] == '0';
  }

  /** A block that follows the last, claims no more than fits, and whose transactions simulate, verifies. */
  lemma ToyVerifies(snap: Snapshot, b: Block)
    requires b.hash == ToyHash(b.index, b.nonce) && b.difficulty == 1 && ExpectedDifficulty(snap.chain) == 1
    requires snap.lastBlock.Some? ==>
               b.index == snap.lastBlock.value.index + 1 && b.prevHash == snap.lastBlock.value.hash
    requires snap.minted + b.reward <= TOTAL_SUPPLY_CAP
    requires Simulate(ToyCrypto(), snap.accounts, b.transactions, 0).Ok?
    ensures VerifyBlock(ToyCrypto(), snap, b).Ok?
  {
    hide BlockHash, HashMeets, ExpectedDifficulty, Simulate;
    ToySeal(b);
  }

  /** The block as it stands on the chain, with the node's own vote. */
  function Voted(b: Block): Block {
    b.(verifications := [BlockVerification(LOCAL, true)], blockVerifications := map[LOCAL := true])
  }

  lemma LoneVote(c: Crypto, snap: Snapshot, b: Block)
    requires VerifyBlock(c, snap, b).Ok? && b.verifications == [] && b.blockVerifications == map[] && !b.finalized
    ensures CastVotes(c, map[], snap, b, []).0 == Voted(b)
  {
    hide VerifyBlock;
    var results := VoteResults(true, []);
    assert results == [BlockVerification(LOCAL, true)];
    assert results[..0] == [];
    assert Sort(results, ByPeer()) == results;
    assert Unseen(results, []) == results;
    assert MergedVotes([], results) == results;
    assert Record(map[], results) == map[LOCAL := true];
    assert ActiveValidators(map[]) == {};
  }

  /** An undisturbed call commits a valid block without votes. */
  lemma ToyAdd(s: System, id: nat, b: Block)
    requires id !in s.calls && s.validators == map[]
    requires VerifyBlock(ToyCrypto(), SnapshotOf(s.ledger), b).Ok? && SendersExist(s.ledger.accounts, b.transactions)
    requires b.verifications == [] && b.blockVerifications == map[] && !b.finalized
    ensures var after := Run(ToyCrypto(), s, AddEvents(id, b, []));
            && after.validators == map[] && after.calls == s.calls[id := Returned]
            && after.ledger.chain == s.ledger.chain + [Voted(b)]
            && ApplyBlock(MoneyOf(s.ledger), b) == Some(MoneyOf(after.ledger))
  {
    hide VerifyBlock, SendersExist, ApplyBlock, CastVotes, Commit;
    var c := ToyCrypto();
    UndisturbedCall(c, s, id, b, []);
    AddBlockAlone(c, map[], s.ledger, b);
    LoneVote(c, SnapshotOf(s.ledger), b);
    CommitIsAllOrNothing(c, s.ledger, Voted(b));
    BodyFields(Voted(b), b);
    VerifyIgnoresVotes(c, SnapshotOf(s.ledger), Voted(b), b);
    assert CastVotes(c, map[], SnapshotOf(s.ledger), b, []).0 == Voted(b);
  }

  // ---- A final block at height 1 ----

  function Final(b: Block): Block {
    b.(finalized := true)
  }

  const FIRST: Block := ToyBlock(1, 0, [], 0.0)
  const OTHER: Block := ToyBlock(1, 1, [], 0.0)
  const SETUP: seq<Event> := AddEvents(0, FIRST, []) + [Confirm(Final(FIRST))]

  function SettledSystem(): System {
    Run(ToyCrypto(), ToySystem(), SETUP)
  }

  lemma ToyGenesisExtends(b: Block)
    requires b == ToyBlock(1, b.nonce, [], b.reward) && FOUNDER_ALLOCATION + b.reward <= TOTAL_SUPPLY_CAP
    ensures VerifyBlock(ToyCrypto(), SnapshotOf(ToySystem().ledger), b).Ok?
  {
    ToyVerifies(SnapshotOf(ToySystem().ledger), b);
  }

  /** A run from genesis commits the first block and confirms it final. */
  lemma SettledState()
    ensures var s := SettledSystem();
            && s.ledger.chain == [ToyGenesis(), Final(Voted(FIRST))] && MoneyOf(s.ledger) == FoundingMoney(FOUNDER)
            && s.validators == map[] && s.calls == map[0 := Returned]
  {
    hide ToyHash, ToyCrypto;
    var c, l := ToyCrypto(), ToySystem().ledger;
    ToyGenesisExtends(FIRST);
    ToyAdd(ToySystem(), 0, FIRST);
    var s := Run(c, ToySystem(), AddEvents(0, FIRST, []));
    RunConcat(c, ToySystem(), AddEvents(0, FIRST, []), [Confirm(Final(FIRST))]);
    RunOne(c, s, Confirm(Final(FIRST)));
    assert ToyGenesis().hash != FIRST.hash by { ToyHashesDiffer(0, 0, 1, 0); }
    assert IndexOfHash(s.ledger.chain, FIRST.hash) == Some(1);
    assert s.ledger.chain == [ToyGenesis(), Voted(FIRST)];
    assert ApplyBlock(FoundingMoney(FOUNDER), FIRST) == Some(FoundingMoney(FOUNDER));
    ToySealNotEmpty();
  }

  lemma ToySealNotEmpty()
    ensures FIRST.hash != ""
  {
    assert |FIRST.hash| == 64;
  }

  /** Among the headers of all blocks that play a part here no two share a hash. */
  function ToyHeaders(): set<Header> {
    {HeaderOf(ToyCrypto(), ToyGenesis()), HeaderOf(ToyCrypto(), FIRST), HeaderOf(ToyCrypto(), OTHER)}
  }

  lemma ToyCollisionFree()
    ensures CollisionFree(ToyCrypto(), ToyHeaders())
  {
    hide ToyHash;
    ToyHashesDiffer(0, 0, 1, 0);
    ToyHashesDiffer(0, 0, 1, 1);
    ToyHashesDiffer(1, 0, 1, 1);
  }

  lemma SettledHeaders()
    ensures HeadersIn(ToyCrypto(), SettledSystem().ledger.chain, ToyHeaders())
  {
    hide ToyCrypto, ToyHash, SettledSystem;
    var c := ToyCrypto();
    SettledState();
    assert HeaderOf(c, Final(Voted(FIRST))) == HeaderOf(c, FIRST);
  }

  /** The hash tells the blocks of this world apart, and the settled state is one a node can reach. */
  lemma SettledIsReal()
    ensures var s := SettledSystem();
            && IsGenesis(ToyCrypto(), ToyGenesis(), FOUNDER) && CollisionFree(ToyCrypto(), ToyHeaders())
            && Shaped(ToyCrypto(), s.ledger) && HeadersIn(ToyCrypto(), s.ledger.chain, ToyHeaders())
            && LastFinalized(s.ledger.chain) == 1
  {
    hide ToyCrypto, ToyHash, ToyHeaders, HeadersIn, CollisionFree, Shaped, Sealed, Books;
    var c := ToyCrypto();
    SettledState();
    SettledHeaders();
    ToyCollisionFree();
    ToyGenesisIsGenesis();
    GenesisSound(c, ToyGenesis(), FOUNDER);
    RunKeepsShape(c, ToySystem(), SETUP);
  }

  /** A chain of genesis and one toy block replays to the founding money. */
  lemma ToyPairRebuilds(b: Block)
    requires Body(b) == ToyBlock(1, b.nonce, [], 0.0)
    ensures Rebuild(ToyCrypto(), [ToyGenesis()]) == Ok(GenesisLedger(ToyGenesis(), FOUNDER))
    ensures Rebuild(ToyCrypto(), [ToyGenesis(), b]).Ok?
  {
    var c, m, g := ToyCrypto(), FoundingMoney(FOUNDER), ToyGenesis();
    assert [g][..0] == [] && [g, b][..1] == [g];
    BodyFields(b, ToyBlock(1, b.nonce, [], 0.0));
    ToyGenesisReplays();
    ToyVerifies(ReplaySnapshot([g], m), b);
    assert ReplayBlock(c, [g], m, b) == Ok(m);
    assert ReplayFrom(c, FOUNDER, [g, b]) == Ok(m);
  }

  lemma ToyGenesisReplays()
    ensures ReplayFrom(ToyCrypto(), FOUNDER, [ToyGenesis()]) == Ok(FoundingMoney(FOUNDER))
  {
    var c, m, g := ToyCrypto(), FoundingMoney(FOUNDER), ToyGenesis();
    assert [g][..0] == [] && g.transactions[1..] == [];
    assert Simulate(c, m.accounts, g.transactions, 0) == Ok(m.accounts);
    assert ApplyTxs(m.accounts, g.transactions) == Some(m.accounts);
    ToyVerifies(ReplaySnapshot([], m), g);
    assert ReplayBlock(c, [], m, g) == Ok(m);
  }

  /** Finality does not survive a peer that drops the mark. From a reachable state with a final block
      at height 1, and with no hash collision, a peer's copy of the same chain without the mark is
      adopted; it is the one event that is not guarded, and then another block takes the place. */
  lemma DroppedMarkLosesFinality() returns (same: seq<Block>, other: seq<Block>)
    ensures var c, s := ToyCrypto(), SettledSystem();
            && LastFinalized(s.ledger.chain) == 1 && SameBodies(s.ledger.chain, same)
            && CollisionFree(c, ToyHeaders()) && HeadersIn(c, s.ledger.chain, ToyHeaders())
            && HeadersIn(c, same, ToyHeaders()) && HeadersIn(c, other, ToyHeaders())
            && Replaces(c, s, SyncWith(same)) && !Guarded(c, s, SyncWith(same), 1)
            && var after := Run(c, s, [SyncWith(same), SyncWith(other)]).ledger.chain;
               after == other && |other| == 2 && other[1].hash != s.ledger.chain[1].hash
  {
    hide ToyCrypto, ToyHash, Shaped, CollisionFree, Rebuild, SettledSystem, Next;
    var c, s := ToyCrypto(), SettledSystem();
    same, other := [ToyGenesis(), FIRST], [ToyGenesis(), OTHER];
    SettledIsReal();
    SettledState();
    ToyHashesDiffer(1, 0, 1, 1);
    ToyReplaced(s, FIRST);
    var between := Next(c, s, SyncWith(same));
    ToyReplaced(between, OTHER);
    TwoEvents(c, s, SyncWith(same), SyncWith(other));
    assert LastFinalized(same) == -1;
  }

  lemma TwoEvents(c: Crypto, s: System, d: Event, e: Event)
    ensures Run(c, s, [d, e]) == Next(c, Next(c, s, d), e)
  {
    hide Next;
    assert [d, e] == [d] + [e];
    RunConcat(c, s, [d], [e]);
    RunOne(c, s, d);
    RunOne(c, Run(c, s, [d]), e);
  }

  /** A chain of genesis and a block of height 1 that passes the guard replaces the node's. */
  lemma ToyReplaced(s: System, b: Block)
    requires Body(b) == ToyBlock(1, b.nonce, [], 0.0)
    requires GuardHolds([ToyGenesis(), b], s.ledger.chain)
    ensures Replaces(ToyCrypto(), s, SyncWith([ToyGenesis(), b]))
    ensures Next(ToyCrypto(), s, SyncWith([ToyGenesis(), b])).ledger.chain == [ToyGenesis(), b]
  {
    hide ToyCrypto, ToyHash, ReplayFrom;
    ToyPairRebuilds(b);
  }

  /** Nor does a final tip survive a sibling that calls itself final. From a reachable state with a
      final tip, and with no hash collision, fork choice adopts another final block in its place. */
  lemma FinalTipLostToSibling() returns (candidate: Block)
    ensures var c, s := ToyCrypto(), SettledSystem();
            && LastFinalized(s.ledger.chain) == 1 && |s.ledger.chain| == 2
            && CollisionFree(c, ToyHeaders()) && HeadersIn(c, s.ledger.chain, ToyHeaders())
               && HeaderOf(c, candidate) in ToyHeaders()
            && Displaces(c, s.ledger.chain, candidate) && !Guarded(c, s, Fork(candidate), 1)
            && ResolveFork(c, s.validators, s.ledger, candidate).1.Adopted?
            && var after := Run(c, s, [Fork(candidate)]).ledger.chain;
               |after| == 2 && after[1].finalized && after[1].hash != s.ledger.chain[1].hash
  {
    hide ToyCrypto, ToyHash, Shaped, CollisionFree, FitsBase, ResolveFork, SettledSystem;
    var c, s, g := ToyCrypto(), SettledSystem(), ToyGenesis();
    candidate := Final(OTHER).(verifications := [BlockVerification("peer", true)]);
    SettledIsReal();
    SettledState();
    ToyHashesDiffer(1, 0, 1, 1);
    assert HeaderOf(c, candidate) == HeaderOf(c, OTHER);
    OneAcceptedVote(Voted(FIRST).verifications);
    OneAcceptedVote(candidate.verifications);
    assert s.ledger.chain[..1] == [g];
    ToyCandidateFits(candidate);
    assert Displaces(c, s.ledger.chain, candidate);
    AdoptedExactly(c, s.validators, s.ledger, candidate);
    ForkImprovesTip(c, s.validators, s.ledger, candidate);
    RunOne(c, s, Fork(candidate));
  }

  lemma OneAcceptedVote(votes: seq<BlockVerification>)
    requires |votes| == 1 && votes[0].accepted
    ensures CountAccepted(votes) == 1
  {
    assert votes[..0] == [];
  }

  lemma ToyCandidateFits(b: Block)
    requires Body(b) == OTHER
    ensures FitsBase(ToyCrypto(), [ToyGenesis()], b)
  {
    hide ReplayFrom;
    ToyPairRebuilds(b);
    BodyFields(b, OTHER);
    ToyVerifies(SnapshotOf(GenesisLedger(ToyGenesis(), FOUNDER)), b);
  }

  // ---- Money ----

  /** A negative fee breaks the books. After a run from genesis that commits one payment of nothing
      to oneself, an account holds more than was ever minted, so the penalty's guard fails: the
      penalty takes the balance and leaves the supply. */
  lemma NegativeFeeBreaksPenalty() returns (events: seq<Event>)
    ensures var l := Run(ToyCrypto(), ToySystem(), events).ledger;
            && l.minted < Slash(l, FOUNDER, 4000000.0)
            && l.minted != Total(l.accounts)
            && Penalise(l, FOUNDER, 4000000.0).minted == l.minted > 0.0
            && Get(Penalise(l, FOUNDER, 4000000.0).accounts, FOUNDER).balance == 0.0
  {
    var c, l, m := ToyCrypto(), ToySystem().ledger, FoundingMoney(FOUNDER);
    var tx := ToyTx(FOUNDER, false, -5.0, 1);
    var b := ToyBlock(1, 0, [tx], 0.0);
    events := AddEvents(0, b, []);
    assert b.transactions[1..] == [];
    assert Simulate(c, m.accounts, b.transactions, 0) == Ok(SimulateTx(m.accounts, tx));
    ToyVerifies(SnapshotOf(l), b);
    ToyAdd(ToySystem(), 0, b);
    var rich := ApplyTx(m.accounts, tx);
    assert ApplyTxs(m.accounts, b.transactions) == Some(rich);
    assert rich == map[FOUNDER := Account(FOUNDER, FOUNDER_ALLOCATION + 5.0, 1)];
    TotalUpdate(map[], FOUNDER, rich[FOUNDER]);
    assert map[][FOUNDER := rich[FOUNDER]] == rich;
  }

  /** A penalty frees supply that replay never sees freed: after a run from genesis the node holds a
      chain it accepted block by block and cannot rebuild. */
  lemma PenalisedChainDoesNotReplay() returns (events: seq<Event>)
    ensures var l := Run(ToyCrypto(), ToySystem(), events).ledger;
            WellFormedChain(l.chain) && |l.chain| == 3 && Rebuild(ToyCrypto(), l.chain).Err?
  {
    var big, last := ToyBlock(1, 0, [], 29700000.0), ToyBlock(2, 0, [], 1.0);
    events := AddEvents(0, big, []) + [Fine("miner", 29700000.0)] + AddEvents(1, last, []);
    PenalisedRun(big, last);
    var l := Run(ToyCrypto(), ToySystem(), events).ledger;
    assert l.chain[..2] == [ToyGenesis(), Voted(big)];
    OverCap(l.chain, big, last);
    if Rebuild(ToyCrypto(), l.chain).Ok? { ReplayNeedsReplayable(ToyCrypto(), FounderOf(l.chain), l.chain); }
  }

  lemma OverCap(chain: seq<Block>, big: Block, last: Block)
    requires chain == [ToyGenesis(), Voted(big), Voted(last)]
    requires big == ToyBlock(1, 0, [], 29700000.0) && last == ToyBlock(2, 0, [], 1.0)
    ensures !Replayable(chain)
  {
    assert chain[..2] == [ToyGenesis(), Voted(big)] && chain[..2][..1] == [ToyGenesis()] && [ToyGenesis()][..0] == [];
    assert ChainRewards([ToyGenesis()]) == 0.0;
    assert ChainRewards(chain[..2]) == 29700000.0;
    assert !FitsCap(chain, 2);
  }

  lemma PenalisedRun(big: Block, last: Block)
    requires big == ToyBlock(1, 0, [], 29700000.0) && last == ToyBlock(2, 0, [], 1.0)
    ensures var events := AddEvents(0, big, []) + [Fine("miner", 29700000.0)] + AddEvents(1, last, []);
            Run(ToyCrypto(), ToySystem(), events).ledger.chain
            == [ToyGenesis(), Voted(big), Voted(last)]
  {
    hide ToyHash, ToyCrypto, VerifyBlock;
    var c, fine := ToyCrypto(), Fine("miner", 29700000.0);
    ToyGenesisExtends(big);
    ToyAdd(ToySystem(), 0, big);
    var rich := Run(c, ToySystem(), AddEvents(0, big, []));
    assert rich.ledger.minted == TOTAL_SUPPLY_CAP && Get(rich.ledger.accounts, "miner").balance == 29700000.0;
    RunConcat(c, ToySystem(), AddEvents(0, big, []), [fine]);
    RunOne(c, rich, fine);
    var fined := Run(c, ToySystem(), AddEvents(0, big, []) + [fine]);
    assert fined.ledger.minted == FOUNDER_ALLOCATION && fined.ledger.chain == [ToyGenesis(), Voted(big)];
    RunConcat(c, ToySystem(), AddEvents(0, big, []) + [fine], AddEvents(1, last, []));
    ToyVerifies(SnapshotOf(fined.ledger), last);
    ToyAdd(fined, 1, last);
  }

  // ---- Off the fee grid ----

  /** A payment of nothing to the founder at a given fee. */
  function Payment(from: string, nonce: nat, fee: real, timestamp: int): Transaction {
    ToyTx(from, false, fee, nonce).(timestamp := timestamp)
  }

  const GIFT: Transaction := ToyTx(FOUNDER, false, FIXED_FEE, 1).(to := "third", amount := 1.0)
  const FUNDING: Block := ToyBlock(1, 0, [GIFT], 1.0)

  function FundedSystem(): System {
    Run(ToyCrypto(), ToySystem(), AddEvents(0, FUNDING, []))
  }

  lemma FundingVerifies()
    ensures VerifyBlock(ToyCrypto(), SnapshotOf(ToySystem().ledger), FUNDING).Ok?
  {
    hide ToyHash;
    assert FUNDING.transactions[1..] == [];
    var m := FoundingMoney(FOUNDER);
    assert Simulate(ToyCrypto(), m.accounts, FUNDING.transactions, 0) == Ok(SimulateTx(m.accounts, GIFT));
    ToyVerifies(SnapshotOf(ToySystem().ledger), FUNDING);
  }

  /** After one block the founder, the miner and a third account can each pay. */
  lemma FundedState()
    ensures var l := FundedSystem().ledger;
            && l.mempool == [] && FundedSystem().limit == 16
            && Get(l.accounts, FOUNDER).nonce == 1 && Get(l.accounts, FOUNDER).balance >= 1.0
            && Get(l.accounts, "miner") == Account("miner", 1.0, 0)
            && Get(l.accounts, "third") == Account("third", 1.0, 0)
  {
    var c, l, m := ToyCrypto(), ToySystem().ledger, FoundingMoney(FOUNDER);
    hide ToyHash, VerifyBlock, ToyCrypto;
    FundingVerifies();
    ToyAdd(ToySystem(), 0, FUNDING);
    var paid := DistributeRewards(m, "miner", 1.0);
    assert FUNDING.transactions[1..] == [];
    assert ApplyTxs(paid.accounts, FUNDING.transactions) == Some(ApplyTx(paid.accounts, GIFT));
    assert FOUNDER != "miner" && FOUNDER != "third" && "miner" != "third";
    hide AddBlock, VerifyBlock, Simulate, SendersExist, CastVotes, Run;
    UndisturbedCall(c, ToySystem(), 0, FUNDING, []);
    AddBlockAlone(c, map[], l, FUNDING);
  }

  const LOW: real := FIXED_FEE - 0.0000000009
  const HIGH: real := FIXED_FEE + 0.0000000009

  lemma OffGridFees(x: Transaction, y: Transaction, z: Transaction)
    requires x.fee == LOW && y.fee == FIXED_FEE && z.fee == HIGH
    requires x.timestamp == 0 && y.timestamp == 1 && z.timestamp == 2
    ensures Mempool.FloatEqual(LOW, FIXED_FEE) && Mempool.FloatEqual(FIXED_FEE, FIXED_FEE)
    ensures Mempool.FloatEqual(HIGH, FIXED_FEE)
    ensures !Mempool.Before(y, x) && !Mempool.Before(z, y) && Mempool.Before(z, x)
  {}

  /** Three payments of different senders, each after those before it, are pending in that order. */
  lemma ThreeAdmitted(s: System, x: Transaction, y: Transaction, z: Transaction)
    requires s.limit == 16 && s.ledger.mempool == [] && x.from != y.from && x.from != z.from && y.from != z.from
    requires Payable(s.ledger.accounts, x) && Payable(s.ledger.accounts, y) && Payable(s.ledger.accounts, z)
    requires !Mempool.Before(y, x) && !Mempool.Before(z, y)
    ensures Run(ToyCrypto(), s, [Submit(x), Submit(y), Submit(z)]).ledger.mempool == [x, y, z]
  {
    hide Mempool.Before, Payable, ToyCrypto;
    var c := ToyCrypto();
    ThreeEvents(c, s, Submit(x), Submit(y), Submit(z));
    hide Next, Run;
    var s1 := s.(ledger := s.ledger.(mempool := [x]));
    var s2 := s.(ledger := s.ledger.(mempool := [x, y]));
    assert [] + [x] == [x] && [x] + [y] == [x, y] && [x, y] + [z] == [x, y, z];
    Appended(s, x);
    Appended(s1, y);
    Appended(s2, z);
  }

  lemma Appended(s: System, tx: Transaction)
    requires s.limit == 16 && |s.ledger.mempool| <= 2 && Payable(s.ledger.accounts, tx)
    requires forall i :: 0 <= i < |s.ledger.mempool| ==> s.ledger.mempool[i].from != tx.from
    requires s.ledger.mempool != [] ==> !Mempool.Before(tx, s.ledger.mempool[|s.ledger.mempool| - 1])
    ensures Next(ToyCrypto(), s, Submit(tx)) == s.(ledger := s.ledger.(mempool := s.ledger.mempool + [tx]))
  {
    hide Mempool.Before, Mempool.AddTx, Payable, Next;
    Submitted(s, tx);
    Admitted(s.ledger.accounts, s.ledger.mempool, tx);
  }

  /** Off the grid the pool need not be in the code's own order. After a run from genesis that admits
      fees 0.01 - 9e-10, 0.01 and 0.01 + 9e-10, the last pending transaction goes before the first. */
  lemma OffGridPoolOutOfOrder() returns (later: seq<Event>)
    ensures var pool := Run(ToyCrypto(), FundedSystem(), later).ledger.mempool;
            && FundedSystem().ledger.mempool == [] && |pool| == 3
            && (forall i :: 0 <= i < 3 ==> Mempool.FloatEqual(pool[i].fee, FIXED_FEE))
            && Mempool.Before(pool[2], pool[0]) && !Sorted(pool, Mempool.NotAfter())
  {
    hide FundedSystem, ToyCrypto, Run, Mempool.Before, Mempool.FloatEqual;
    var s := FundedSystem();
    var x, y, z := Payment(FOUNDER, 2, LOW, 0), Payment("miner", 1, FIXED_FEE, 1), Payment("third", 1, HIGH, 2);
    later := [Submit(x), Submit(y), Submit(z)];
    FundedState();
    OffGridFees(x, y, z);
    assert FOUNDER != "miner" && FOUNDER != "third" && "miner" != "third";
    ThreeAdmitted(s, x, y, z);
    assert !Mempool.NotAfter()(x, z);
  }

  lemma Submitted(s: System, tx: Transaction)
    ensures var l := s.ledger;
            Next(ToyCrypto(), s, Submit(tx))
            == s.(ledger := l.(mempool := Mempool.AddTx(ToyCrypto(), l.accounts, l.mempool, tx, s.limit).0))
  {
    hide Mempool.AddTx;
  }

  lemma ThreeEvents(c: Crypto, s: System, d: Event, e: Event, f: Event)
    ensures Run(c, s, [d, e, f]) == Next(c, Next(c, Next(c, s, d), e), f)
  {
    hide Next;
    assert [d, e, f] == [d, e] + [f];
    RunConcat(c, s, [d, e], [f]);
    TwoEvents(c, s, d, e);
    RunOne(c, Run(c, s, [d, e]), f);
  }

  /** A payment of the fixed fee that its sender can make next, carrying the ID this world computes. */
  predicate Payable(accounts: Accounts, tx: Transaction) {
    && !tx.isCoinbase && tx.id == "" && Mempool.FloatEqual(tx.fee, FIXED_FEE)
    && tx.nonce == Get(accounts, tx.from).nonce + 1 && Get(accounts, tx.from).balance >= tx.amount + tx.fee
  }

  /** A payment its sender can make, that goes after all that are pending, is appended. */
  lemma Admitted(accounts: Accounts, pool: seq<Transaction>, tx: Transaction)
    requires |pool| <= 2 && Payable(accounts, tx)
    requires forall i :: 0 <= i < |pool| ==> pool[i].from != tx.from
    requires pool != [] ==> !Mempool.Before(tx, pool[|pool| - 1])
    ensures Mempool.AddTx(ToyCrypto(), accounts, pool, tx, 16) == (pool + [tx], None)
  {
    hide Mempool.Before, Mempool.FloatEqual;
    var n := |pool|;
    assert Mempool.Refusal(ToyCrypto(), accounts, pool, tx).None?;
    assert Mempool.Identified(ToyCrypto(), tx) == tx;
    if n > 0 {
      assert (0 + n) / 2 == n - 1;
      assert Mempool.Search(pool, tx, n, n) == n;
    }
    assert Mempool.Search(pool, tx, 0, n) == n;
    assert pool[..n] + [tx] + pool[n..] == pool + [tx];
  }
}
