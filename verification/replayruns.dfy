/** Replay over whole runs: in every reachable state, what rebuilding the chain yields and when it
    succeeds. */
module ReplayRuns {
  import opened Models
  import opened Difficulty
  import opened AccountMath
  import opened Votes
  import opened Consensus
  import opened Replay
  import opened ForkChoice
  import opened Sync
  import opened Protocol
  import opened WindowRuns

  // ---- What a run slashes ----

  function Fined(slashed: Slashed, offender: string, amount: real): Slashed {
    if amount == 0.0 then slashed else AddSlash(slashed, offender, amount)
  }

  /** What appending a peer's blocks slashes: the claimed reward of the first block that is invalid. */
  function SlashedAppending(c: Crypto, vals: ValidatorMap, l: Ledger, blocks: seq<Block>, slashed: Slashed): Slashed {
    StopsAt(Adder(c, vals), l, blocks);
    var (_, k, error) := AppendBlocks(c, vals, l, blocks);
    if error == Some(Outvoted) then
      Fined(slashed, blocks[k].miner, Slash(AfterFirst(Adder(c, vals), l, blocks, k), blocks[k].miner,
          blocks[k].reward))
    else slashed
  }

  function SlashedSyncing(c: Crypto, vals: ValidatorMap, l: Ledger, blocks: seq<Block>, slashed: Slashed): Slashed {
    if blocks == [] then slashed
    else if blocks[0].index == 0 then if ReplaceChain(c, l, blocks).1.None? then NOTHING_SLASHED else slashed
    else if blocks[0].index != |l.chain| || blocks[0].prevHash != TipHash(l.chain) then slashed
    else SlashedAppending(c, vals, l, blocks, slashed)
  }

  /** What is slashed after one more event; a state taken over from a rebuild starts afresh. */
  function SlashedNext(c: Crypto, s: System, e: Event, slashed: Slashed): Slashed {
    match e
    case Fine(offender, amount) =>
      if offender == "" then slashed else Fined(slashed, offender, Slash(s.ledger, offender, amount))
    case Conclude(id) =>
      if id in s.calls && s.calls[id].Polled? && s.calls[id].accepted < s.calls[id].total / 2 + 1 then
        var b := s.calls[id].block;
        Fined(slashed, b.miner, Slash(s.ledger, b.miner, b.reward))
      else slashed
    case Fork(candidate) =>
      if ResolveFork(c, s.validators, s.ledger, candidate).1.Adopted? then NOTHING_SLASHED else slashed
    case SyncWith(blocks) => SlashedSyncing(c, s.validators, s.ledger, blocks, slashed)
    case _ => slashed
  }

  /** Everything slashed in a run since the state was last rebuilt. */
  function SlashedIn(c: Crypto, s: System, events: seq<Event>): Slashed {
    if events == [] then NOTHING_SLASHED
    else
      var earlier := events[..|events| - 1];
      SlashedNext(c, Run(c, s, earlier), events[|events| - 1], SlashedIn(c, s, earlier))
  }

  /** If the chain is replayable, it replays to the live money plus what was slashed. */
  ghost predicate ReplaysTo(c: Crypto, l: Ledger, slashed: Slashed) {
    Replayable(l.chain) ==>
      var r := ReplayFrom(c, FounderOf(l.chain), l.chain);
      r.Ok? && Mirrors(MoneyOf(l), r.value, slashed)
  }

  /** If the chain is replayable, it replays to the live money itself. */
  ghost predicate ReplaysExactly(c: Crypto, l: Ledger) {
    Replayable(l.chain) ==> ReplayFrom(c, FounderOf(l.chain), l.chain) == Ok(MoneyOf(l))
  }

  /** What replay has to do with the live state: without negative amounts on the chain, up to what was
      slashed; with nothing slashed, exactly, whatever the amounts. */
  ghost predicate Tracks(c: Crypto, l: Ledger, slashed: Slashed) {
    && (WellFormedChain(l.chain) ==> ReplaysTo(c, l, slashed))
    && (slashed == NOTHING_SLASHED ==> ReplaysExactly(c, l))
  }

  lemma ReplayExtends(c: Crypto, chain: seq<Block>, b: Block)
    requires chain != [] && Replayable(chain + [b]) && ReplayFrom(c, FounderOf(chain), chain).Ok?
    ensures Replayable(chain) && Clamp(b.difficulty) == INITIAL_DIFFICULTY && FitsCap(chain + [b], |chain|)
    ensures ReplayFrom(c, FounderOf(chain + [b]), chain + [b])
            == ReplayBlock(c, chain, ReplayFrom(c, FounderOf(chain), chain).value, b)
  {
    hide ReplayBlock, FitsCap;
    assert (chain + [b])[..|chain|] == chain;
    ReplayableStep(chain + [b]);
  }

  lemma CommitReplays(c: Crypto, l: Ledger, b: Block, slashed: Slashed)
    requires Sound(c, l) && ReplaysTo(c, l, slashed) && WellFormedTxs(b.transactions)
    ensures ReplaysTo(c, Commit(c, l, b).0, slashed)
  {
    var (after, error) := Commit(c, l, b);
    CommitIsAllOrNothing(c, l, b);
    if error.None? && Replayable(after.chain) {
      hide Commit, ReplayBlock, ReplayFrom, Mirrors, Books, Linked, NonceHistory;
      var founder := FounderOf(l.chain);
      assert after.chain[..|l.chain|] == l.chain;
      ReplayableStep(after.chain);
      var m := ReplayFrom(c, founder, l.chain).value;
      ReplayExtends(c, l.chain, b);
      ReplayLinks(c, founder, l.chain);
      MirrorCommit(c, l, m, slashed, b);
    }
  }

  /** A block the live state verified verifies in replay too, but for the difficulty it expects. */
  lemma VerifiesInReplay(c: Crypto, l: Ledger, b: Block)
    requires VerifyBlock(c, SnapshotOf(l), b).Ok? && Clamp(b.difficulty) == INITIAL_DIFFICULTY
    ensures VerifyBlock(c, ReplaySnapshot(l.chain, MoneyOf(l)), b).Ok?
  {
    hide Simulate, BlockHash, HashMeets;
  }

  lemma CommitReplaysExactly(c: Crypto, l: Ledger, b: Block)
    requires l.chain != [] && ReplaysExactly(c, l)
    ensures ReplaysExactly(c, Commit(c, l, b).0)
  {
    var (after, error) := Commit(c, l, b);
    CommitIsAllOrNothing(c, l, b);
    if error.None? && Replayable(after.chain) {
      hide Commit, VerifyBlock, ReplayFrom, ApplyBlock;
      assert after.chain[..|l.chain|] == l.chain;
      ReplayableStep(after.chain);
      ReplayExtends(c, l.chain, b);
      VerifiesInReplay(c, l, b);
    }
  }

  lemma CommitTracks(c: Crypto, l: Ledger, b: Block, slashed: Slashed)
    requires Accounted(c, l) && Tracks(c, l, slashed)
    ensures Tracks(c, Commit(c, l, b).0, slashed)
  {
    hide Commit, ReplaysTo, ReplaysExactly, Books, WellFormedChain, WellFormedTxs;
    CommitIsAllOrNothing(c, l, b);
    WellFormedParts(l.chain, b);
    var (after, error) := Commit(c, l, b);
    if slashed == NOTHING_SLASHED { CommitReplaysExactly(c, l, b); }
    if WellFormedChain(after.chain) && error.None? { CommitReplays(c, l, b, slashed); }
  }

  lemma NoSlashNoChange(l: Ledger, offender: string, amount: real)
    requires Slash(l, offender, amount) == 0.0
    ensures Penalise(l, offender, amount) == l
  {
    assert Penalise(l, offender, amount).accounts == l.accounts;
  }

  lemma PenaltyTracks(c: Crypto, l: Ledger, offender: string, amount: real, slashed: Slashed)
    requires Accounted(c, l) && Tracks(c, l, slashed)
    ensures Tracks(c, Penalise(l, offender, amount), Fined(slashed, offender, Slash(l, offender, amount)))
  {
    hide Books, Linked, NonceHistory, Mirrors;
    var taken := Slash(l, offender, amount);
    if taken == 0.0 {
      NoSlashNoChange(l, offender, amount);
    } else {
      assert offender in AddSlash(slashed, offender, taken).from;
      if WellFormedChain(l.chain) && Replayable(l.chain) {
        MirrorPenalty(l, ReplayFrom(c, FounderOf(l.chain), l.chain).value, slashed, offender, amount);
      }
    }
  }

  lemma FinalizeTracks(c: Crypto, l: Ledger, b: Block, slashed: Slashed)
    requires Tracks(c, l, slashed)
    ensures Tracks(c, FinalizeExisting(l, b).0, slashed)
  {
    hide FinalizeExisting, Mirrors;
    FinalizeExistingTouchesOneFlag(l, b);
    var after := FinalizeExisting(l, b).0;
    forall i | 0 <= i < |l.chain| ensures after.chain[i].transactions == l.chain[i].transactions {}
    if WellFormedChain(after.chain) {
      assert forall i :: 0 <= i < |l.chain| ==> WellFormedTxs(after.chain[i].transactions);
    }
    ReplayIgnoresVotes(c, FounderOf(l.chain), l.chain, after.chain);
  }

  /** A rebuilt ledger replays to itself. */
  lemma RebuiltTracks(c: Crypto, chain: seq<Block>)
    requires Rebuild(c, chain).Ok?
    ensures Tracks(c, Rebuild(c, chain).value, NOTHING_SLASHED)
  {
    hide WellFormedChain, ReplayFrom;
    assert Rebuild(c, chain).value.chain == chain;
  }

  lemma SameMoneyTracks(c: Crypto, a: Ledger, b: Ledger, slashed: Slashed)
    requires Tracks(c, a, slashed) && a.chain == b.chain && MoneyOf(a) == MoneyOf(b)
    ensures Tracks(c, b, slashed)
  {}

  lemma ForkTracks(c: Crypto, vals: ValidatorMap, l: Ledger, candidate: Block)
    requires Shaped(c, l) && ResolveFork(c, vals, l, candidate).1.Adopted?
    ensures Tracks(c, ResolveFork(c, vals, l, candidate).0, NOTHING_SLASHED)
  {
    hide ResolveFork, JoinRebuilt, Tracks, Accounted, Linked, NonceHistory;
    AdoptedFork(c, vals, l, candidate);
    var base := l.chain[..|l.chain| - 1];
    var rebuilt := Rebuild(c, base).value;
    RebuiltIsAccounted(c, base);
    RebuiltTracks(c, base);
    JoinedBlock(c, vals, rebuilt, candidate);
    CommitTracks(c, rebuilt, AddBlock(c, vals, rebuilt, candidate, []).1, NOTHING_SLASHED);
    SameMoneyTracks(c, JoinRebuilt(c, vals, rebuilt, candidate).0, ResolveFork(c, vals, l, candidate).0,
        NOTHING_SLASHED);
  }

  lemma AddTracks(c: Crypto, vals: ValidatorMap, l: Ledger, b: Block, slashed: Slashed)
    requires Accounted(c, l) && Tracks(c, l, slashed)
    ensures var (after, _, error) := AddBlock(c, vals, l, b, []);
            Tracks(c, after,
                   if error == Some(Outvoted) then Fined(slashed, b.miner, Slash(l, b.miner, b.reward)) else slashed)
  {
    hide AddBlock, Commit, Penalise, Slash, Fined, Tracks, Accounted;
    AddBlockAlone(c, vals, l, b);
    CommitTracks(c, l, AddBlock(c, vals, l, b, []).1, slashed);
    PenaltyTracks(c, l, b.miner, b.reward, slashed);
  }

  lemma {:induction false} AppendTracks(c: Crypto, vals: ValidatorMap, l: Ledger, blocks: seq<Block>, slashed: Slashed)
    requires Accounted(c, l) && Tracks(c, l, slashed)
    ensures Tracks(c, AppendBlocks(c, vals, l, blocks).0, SlashedAppending(c, vals, l, blocks, slashed))
    decreases |blocks|
  {
    hide AddBlock, Tracks, Accounted, Slash;
    if blocks != [] {
      AddTracks(c, vals, l, blocks[0], slashed);
      AddingKeepsAccounted(c, vals, l, blocks[0]);
      var (next, _, error) := AddBlock(c, vals, l, blocks[0], []);
      if error.None? {
        AppendTracks(c, vals, next, blocks[1..], slashed);
        StopsAt(Adder(c, vals), next, blocks[1..]);
        assert SlashedAppending(c, vals, l, blocks, slashed) == SlashedAppending(c, vals, next, blocks[1..], slashed);
      }
    }
  }

  lemma SyncTracks(c: Crypto, vals: ValidatorMap, l: Ledger, blocks: seq<Block>, slashed: Slashed)
    requires Accounted(c, l) && Tracks(c, l, slashed)
    ensures Tracks(c, ApplySynced(c, vals, l, blocks).0, SlashedSyncing(c, vals, l, blocks, slashed))
  {
    hide Tracks, Accounted, AppendBlocks, SlashedAppending, ReplayFrom;
    if blocks != [] && blocks[0].index == 0 {
      if ReplaceChain(c, l, blocks).1.None? {
        RebuiltTracks(c, blocks);
        SameMoneyTracks(c, Rebuild(c, blocks).value, ReplaceChain(c, l, blocks).0, NOTHING_SLASHED);
      }
    } else {
      AppendTracks(c, vals, l, blocks, slashed);
    }
  }

  lemma ConcludeTracks(c: Crypto, l: Ledger, b: Block, accepted: nat, total: nat, slashed: Slashed)
    requires Accounted(c, l) && Tracks(c, l, slashed)
    ensures Tracks(c, Consensus.Conclude(c, l, b, accepted, total).0,
                   if accepted < total / 2 + 1 then Fined(slashed, b.miner, Slash(l, b.miner, b.reward)) else slashed)
  {
    hide Tracks, Accounted, Commit, Penalise;
    PenaltyTracks(c, l, b.miner, b.reward, slashed);
    CommitTracks(c, l, b, slashed);
  }

  lemma NextTracks(c: Crypto, s: System, e: Event, slashed: Slashed)
    requires Accounted(c, s.ledger) && Tracks(c, s.ledger, slashed)
    ensures Tracks(c, Next(c, s, e).ledger, SlashedNext(c, s, e, slashed))
  {
    hide Tracks, Linked, NonceHistory, Books, ResolveFork, ApplySynced, SlashedSyncing, FinalizeExisting,
        Consensus.Conclude;
    match e
    case Conclude(id) =>
      if id in s.calls && s.calls[id].Polled? {
        ConcludeTracks(c, s.ledger, s.calls[id].block, s.calls[id].accepted, s.calls[id].total, slashed);
      }
    case Fine(offender, amount) => PenaltyTracks(c, s.ledger, offender, amount, slashed);
    case Submit(_) => SameMoneyTracks(c, s.ledger, Next(c, s, e).ledger, slashed);
    case Fork(candidate) =>
      ForkImprovesTip(c, s.validators, s.ledger, candidate);
      if ResolveFork(c, s.validators, s.ledger, candidate).1.Adopted? {
        ForkTracks(c, s.validators, s.ledger, candidate);
      }
    case SyncWith(blocks) => SyncTracks(c, s.validators, s.ledger, blocks, slashed);
    case Confirm(block) => FinalizeTracks(c, s.ledger, block, slashed);
    case _ =>
  }

  lemma GenesisTracks(c: Crypto, genesis: Block, founder: string)
    requires IsGenesis(c, genesis, founder) && founder != ""
    ensures Tracks(c, GenesisLedger(genesis, founder), NOTHING_SLASHED)
  {
    var chain, m := [genesis], FoundingMoney(founder);
    assert chain[..0] == [] && genesis.transactions[1..] == [];
    assert Simulate(c, m.accounts, genesis.transactions, 0) == Ok(m.accounts);
    assert ApplyTxs(m.accounts, genesis.transactions) == Some(m.accounts);
    assert ReplayFrom(c, founder, chain) == ReplayBlock(c, [], m, genesis) == Ok(m);
  }

  lemma {:induction false} RunTracks(c: Crypto, genesis: Block, founder: string, validators: ValidatorMap, limit: nat,
                                     events: seq<Event>)
    requires IsGenesis(c, genesis, founder) && founder != ""
    ensures var s := GenesisSystem(genesis, founder, validators, limit);
            Accounted(c, Run(c, s, events).ledger) && Tracks(c, Run(c, s, events).ledger, SlashedIn(c, s, events))
  {
    hide Accounted, Tracks, Next, SlashedNext;
    var s := GenesisSystem(genesis, founder, validators, limit);
    if events == [] {
      GenesisAccounted(c, genesis, founder);
      GenesisTracks(c, genesis, founder);
    } else {
      var earlier, e := events[..|events| - 1], events[|events| - 1];
      RunTracks(c, genesis, founder, validators, limit, earlier);
      NextKeepsAccounted(c, Run(c, s, earlier), e);
      NextTracks(c, Run(c, s, earlier), e, SlashedIn(c, s, earlier));
    }
  }

  /** The rebuilt state is the live one, each balance richer by what was slashed from it, and the
      supply by all that was slashed. */
  ghost predicate RicherBySlashed(l: Ledger, r: Ledger, slashed: Slashed) {
    && r.chain == l.chain
    && r.accounts.Keys == l.accounts.Keys
    && (forall a :: a in l.accounts ==> r.accounts[a] == Richer(l.accounts[a], SlashedFrom(slashed, a)))
    && r.minted == l.minted + slashed.total
  }

  /** In every reachable state, whatever was offered, whose chain carries no negative amount or fee,
      rebuilding the chain succeeds exactly when the chain is replayable, and agrees with the live
      state up to what was slashed since the last rebuild. If nothing was slashed it does so
      whatever the amounts, and the rebuilt state is the live one. */
  lemma ReplayAgreesWithRun(c: Crypto, genesis: Block, founder: string, validators: ValidatorMap, limit: nat,
                            events: seq<Event>)
    requires IsGenesis(c, genesis, founder) && founder != ""
    ensures var s := GenesisSystem(genesis, founder, validators, limit);
            var l, slashed := Run(c, s, events).ledger, SlashedIn(c, s, events);
            && (WellFormedChain(l.chain) || slashed == NOTHING_SLASHED ==>
                  (Rebuild(c, l.chain).Ok? <==> Replayable(l.chain)))
            && (WellFormedChain(l.chain) && Rebuild(c, l.chain).Ok? ==>
                  RicherBySlashed(l, Rebuild(c, l.chain).value, slashed))
            && (slashed == NOTHING_SLASHED && Rebuild(c, l.chain).Ok? ==>
                  Rebuild(c, l.chain).value == l.(mempool := []))
  {
    hide Accounted, ReplayFrom, WellFormedChain, Replayable;
    var s := GenesisSystem(genesis, founder, validators, limit);
    RunTracks(c, genesis, founder, validators, limit, events);
    var l := Run(c, s, events).ledger;
    if Rebuild(c, l.chain).Ok? { ReplayNeedsReplayable(c, FounderOf(l.chain), l.chain); }
  }

  // ---- Young chains ----

  /** In every reachable state with at most 2016 blocks, and with nothing slashed or no negative amount
      on the chain, the chain rebuilds unless its rewards, with nothing slashed taken off, break the cap. */
  lemma YoungChainsReplay(c: Crypto, genesis: Block, founder: string, validators: ValidatorMap, limit: nat,
                          events: seq<Event>)
    requires IsGenesis(c, genesis, founder) && founder != ""
    ensures var s := GenesisSystem(genesis, founder, validators, limit);
            var chain := Run(c, s, events).ledger.chain;
            |chain| <= ADJUSTMENT_WINDOW && (WellFormedChain(chain) || SlashedIn(c, s, events) == NOTHING_SLASHED) ==>
              (Rebuild(c, chain).Ok? <==> forall i :: 0 <= i < |chain| ==> FitsCap(chain, i))
  {
    hide Rebuild, SlashedIn, Run, WellFormedChain, FitsCap, RicherBySlashed;
    var s := GenesisSystem(genesis, founder, validators, limit);
    var chain := Run(c, s, events).ledger.chain;
    ReplayAgreesWithRun(c, genesis, founder, validators, limit, events);
    WindowsOverRuns(c, genesis, founder, validators, limit, events);
    FirstWindowIsInitial(chain);
  }
}
