/** Every balance of every reachable state, from the chain alone and what was slashed. */
module Balances {
  import opened Models
  import opened AccountMath
  import opened Votes
  import opened Consensus
  import opened Replay
  import opened ForkChoice
  import opened Sync
  import opened Protocol
  import opened ReplayRuns

  /** `a` has what the chain gives it, the founder's coins included, less what was slashed from it. */
  ghost predicate Tallies(l: Ledger, slashed: Slashed, a: string) {
    l.chain != [] && Get(l.accounts, a).balance == Founding(l.chain, a) + NetOn(l.chain, a) - SlashedFrom(slashed, a)
  }

  lemma CommitTallies(c: Crypto, l: Ledger, b: Block, slashed: Slashed, a: string)
    requires Tallies(l, slashed, a)
    ensures Tallies(Commit(c, l, b).0, slashed, a)
  {
    hide Commit, Get, Received, Spent;
    CommitIsAllOrNothing(c, l, b);
    if Commit(c, l, b).1.None? {
      CommitMovesExactly(c, l, b, a);
      assert Commit(c, l, b).0.chain[..|l.chain|] == l.chain;
    }
  }

  lemma PenaltyTallies(l: Ledger, offender: string, amount: real, slashed: Slashed, a: string)
    requires Tallies(l, slashed, a)
    ensures Tallies(Penalise(l, offender, amount), Fined(slashed, offender, Slash(l, offender, amount)), a)
  {
    hide Founding, NetOn;
  }

  lemma {:induction false} SameBodiesNet(x: seq<Block>, y: seq<Block>, a: string)
    requires SameBodies(x, y)
    ensures Founding(x, a) == Founding(y, a) && NetOn(x, a) == NetOn(y, a)
    decreases |x|
  {
    hide Received, Spent;
    if x != [] {
      BodyFields(x[0], y[0]);
      BodyFields(x[|x| - 1], y[|y| - 1]);
      SameBodiesNet(x[..|x| - 1], y[..|y| - 1], a);
    }
  }

  lemma ConfirmTallies(l: Ledger, b: Block, slashed: Slashed, a: string)
    requires Tallies(l, slashed, a)
    ensures Tallies(FinalizeExisting(l, b).0, slashed, a)
  {
    hide FinalizeExisting, Founding, NetOn, Get;
    FinalizeExistingTouchesOneFlag(l, b);
    SameBodiesNet(l.chain, FinalizeExisting(l, b).0.chain, a);
  }

  lemma RebuiltTallies(c: Crypto, chain: seq<Block>, a: string)
    requires Rebuild(c, chain).Ok? && chain != []
    ensures Tallies(Rebuild(c, chain).value, NOTHING_SLASHED, a)
  {
    hide Rebuild, NetOn, Get;
    RebuildsExactly(c, chain, a);
  }

  lemma AddTallies(c: Crypto, vals: ValidatorMap, l: Ledger, b: Block, slashed: Slashed, a: string)
    requires Tallies(l, slashed, a)
    ensures var (after, _, error) := AddBlock(c, vals, l, b, []);
            Tallies(after, if error == Some(Outvoted) then Fined(slashed, b.miner, Slash(l, b.miner, b.reward))
                           else slashed, a)
  {
    hide AddBlock, Commit, Penalise, Slash, Fined, Tallies;
    AddBlockAlone(c, vals, l, b);
    CommitTallies(c, l, AddBlock(c, vals, l, b, []).1, slashed, a);
    PenaltyTallies(l, b.miner, b.reward, slashed, a);
  }

  lemma {:induction false} AppendTallies(c: Crypto, vals: ValidatorMap, l: Ledger, blocks: seq<Block>, slashed: Slashed,
                                         a: string)
    requires Tallies(l, slashed, a)
    ensures Tallies(AppendBlocks(c, vals, l, blocks).0, SlashedAppending(c, vals, l, blocks, slashed), a)
    decreases |blocks|
  {
    hide AddBlock, Tallies, Slash;
    if blocks != [] {
      AddTallies(c, vals, l, blocks[0], slashed, a);
      var (next, _, error) := AddBlock(c, vals, l, blocks[0], []);
      if error.None? {
        AppendTallies(c, vals, next, blocks[1..], slashed, a);
        StopsAt(Adder(c, vals), next, blocks[1..]);
        assert SlashedAppending(c, vals, l, blocks, slashed) == SlashedAppending(c, vals, next, blocks[1..], slashed);
      }
    }
  }

  lemma SyncTallies(c: Crypto, vals: ValidatorMap, l: Ledger, blocks: seq<Block>, slashed: Slashed, a: string)
    requires Tallies(l, slashed, a)
    ensures Tallies(ApplySynced(c, vals, l, blocks).0, SlashedSyncing(c, vals, l, blocks, slashed), a)
  {
    hide Founding, NetOn, Get, AppendBlocks, SlashedAppending, Rebuild, ReplaceChain;
    if blocks != [] && blocks[0].index == 0 {
      ReplacesExactly(c, l, blocks);
      if ReplaceChain(c, l, blocks).1.None? { RebuiltTallies(c, blocks, a); }
    } else {
      AppendTallies(c, vals, l, blocks, slashed, a);
    }
  }

  lemma ForkTallies(c: Crypto, vals: ValidatorMap, l: Ledger, candidate: Block, a: string)
    requires ResolveFork(c, vals, l, candidate).1.Adopted?
    ensures Tallies(ResolveFork(c, vals, l, candidate).0, NOTHING_SLASHED, a)
  {
    hide ResolveFork, JoinRebuilt, Founding, NetOn, Get, Rebuild;
    AdoptedFork(c, vals, l, candidate);
    var base := l.chain[..|l.chain| - 1];
    var rebuilt := Rebuild(c, base).value;
    RebuiltTallies(c, base, a);
    JoinedBlock(c, vals, rebuilt, candidate);
    CommitTallies(c, rebuilt, AddBlock(c, vals, rebuilt, candidate, []).1, NOTHING_SLASHED, a);
  }

  lemma ConcludeTallies(c: Crypto, l: Ledger, b: Block, accepted: nat, total: nat, slashed: Slashed, a: string)
    requires Tallies(l, slashed, a)
    ensures Tallies(Consensus.Conclude(c, l, b, accepted, total).0,
                    if accepted < total / 2 + 1 then Fined(slashed, b.miner, Slash(l, b.miner, b.reward)) else slashed,
                    a)
  {
    hide Tallies, Commit, Penalise;
    PenaltyTallies(l, b.miner, b.reward, slashed, a);
    CommitTallies(c, l, b, slashed, a);
  }

  lemma NextTallies(c: Crypto, s: System, e: Event, slashed: Slashed, a: string)
    requires Tallies(s.ledger, slashed, a)
    ensures Tallies(Next(c, s, e).ledger, SlashedNext(c, s, e, slashed), a)
  {
    hide Founding, NetOn, Get, ResolveFork, ApplySynced, SlashedSyncing, FinalizeExisting, Consensus.Conclude, Penalise;
    match e
    case Conclude(id) =>
      if id in s.calls && s.calls[id].Polled? {
        ConcludeTallies(c, s.ledger, s.calls[id].block, s.calls[id].accepted, s.calls[id].total, slashed, a);
      }
    case Fine(offender, amount) => PenaltyTallies(s.ledger, offender, amount, slashed, a);
    case Fork(candidate) =>
      ForkImprovesTip(c, s.validators, s.ledger, candidate);
      if ResolveFork(c, s.validators, s.ledger, candidate).1.Adopted? {
        ForkTallies(c, s.validators, s.ledger, candidate, a);
      }
    case SyncWith(blocks) => SyncTallies(c, s.validators, s.ledger, blocks, slashed, a);
    case Confirm(block) => ConfirmTallies(s.ledger, block, slashed, a);
    case _ =>
  }

  lemma GenesisTallies(c: Crypto, genesis: Block, founder: string, a: string)
    requires IsGenesis(c, genesis, founder) && founder != ""
    ensures Tallies(GenesisLedger(genesis, founder), NOTHING_SLASHED, a)
  {
    var chain, txs := [genesis], genesis.transactions;
    assert txs[1..] == [] && Received(txs, a) == 0.0 && Spent(txs, a) == 0.0;
    assert chain[..|chain| - 1] == [] && NetOn(chain, a) == 0.0;
  }

  /** In every state a node can reach from genesis, whatever it was offered, every address's balance is
      the founder's coins, if its chain names it founder, plus the rewards and receipts on the chain less
      the payments and fees on it and what penalties took since the state was last rebuilt. */
  lemma {:induction false} BalancesOverRuns(c: Crypto, genesis: Block, founder: string, validators: ValidatorMap,
                                            limit: nat, events: seq<Event>, a: string)
    requires IsGenesis(c, genesis, founder) && founder != ""
    ensures var s := GenesisSystem(genesis, founder, validators, limit);
            var l, slashed := Run(c, s, events).ledger, SlashedIn(c, s, events);
            && l.chain != []
            && Get(l.accounts, a).balance == Founding(l.chain, a) + NetOn(l.chain, a) - SlashedFrom(slashed, a)
  {
    var s := GenesisSystem(genesis, founder, validators, limit);
    if events == [] {
      GenesisTallies(c, genesis, founder, a);
    } else {
      hide Next, SlashedNext, Founding, NetOn, Get;
      var earlier := events[..|events| - 1];
      BalancesOverRuns(c, genesis, founder, validators, limit, earlier, a);
      NextTallies(c, Run(c, s, earlier), events[|events| - 1], SlashedIn(c, s, earlier), a);
    }
  }
}
