/** The supply over whole runs whose blocks claim no more than the schedule: it never nears the cap. */
module EmissionRuns {
  import opened Models
  import opened Votes
  import opened Consensus
  import opened Emission
  import opened Protocol
  import opened Offers
  import opened Template

  /** In every reachable state, whatever was offered: if the blocks on the chain claim at most the
      reward of their heights and carry no negative amounts, fewer than 9,900,000 coins exist, and
      neither cap branch is taken for the next block: not in a template, and not when it is paid. */
  lemma MinedSupplyStaysUnderCap(c: Crypto, genesis: Block, founder: string, validators: ValidatorMap, limit: nat,
                                 events: seq<Event>)
    requires IsGenesis(c, genesis, founder)
    ensures var l := Run(c, GenesisSystem(genesis, founder, validators, limit), events).ledger;
            l.chain != [] &&
            (WellFormedChain(l.chain) && Scheduled(l.chain) ==>
               && l.minted < 9900000.0
               && (forall miner, now :: Candidate(l, miner, now).reward == RewardAt(|l.chain|))
               && RewardAt(|l.chain|) <= TOTAL_SUPPLY_CAP - l.minted)
  {
    var s := GenesisSystem(genesis, founder, validators, limit);
    var l := Run(c, s, events).ledger;
    GenesisAccounted(c, genesis, founder);
    RunKeepsAccounted(c, s, events);
    hide Run, Candidate, Books, Linked, NonceHistory;
    if WellFormedChain(l.chain) && Scheduled(l.chain) {
      forall miner, now ensures Candidate(l, miner, now).reward == RewardAt(|l.chain|) {
        ScheduleStaysUnderCap(c, l, miner, now);
      }
      ScheduleStaysUnderCap(c, l, "", 0);
    }
  }

  // ---- Where the blocks come from ----

  /** The block claims at most its height's reward and carries no negative amount or fee. */
  predicate Honest(b: Block) {
    ClaimsSchedule(b) && WellFormedTxs(b.transactions)
  }

  lemma HonestyIsOfBody()
    ensures BodyOnly(Honest)
  {
    forall a, b | Body(a) == Body(b) && Honest(a) ensures Honest(b) { BodyFields(a, b); }
  }

  /** If every block offered is honest, by the node's own miner, its peers, fork candidates or
      synchronisation, with any number of calls in flight, the bound holds in every reachable state. */
  lemma HonestOffersStayUnderCap(c: Crypto, genesis: Block, founder: string, validators: ValidatorMap, limit: nat,
                                 events: seq<Event>)
    requires IsGenesis(c, genesis, founder) && RunOffers(events, Honest)
    ensures var l := Run(c, GenesisSystem(genesis, founder, validators, limit), events).ledger;
            && WellFormedChain(l.chain) && Scheduled(l.chain) && l.chain != [] && l.minted < 9900000.0
            && forall miner, now :: Candidate(l, miner, now).reward == RewardAt(|l.chain|)
  {
    hide Run, Candidate;
    var s := GenesisSystem(genesis, founder, validators, limit);
    HonestyIsOfBody();
    RunHolds(c, s, events, Honest);
    var chain := Run(c, s, events).ledger.chain;
    assert forall i :: 0 <= i < |chain| ==> Honest(chain[i]);
    MinedSupplyStaysUnderCap(c, genesis, founder, validators, limit, events);
  }

  /** A template made in any reachable state, stale when it is offered or not, claims at most its
      height's reward, and is honest unless the pool it was made from holds a negative amount. */
  lemma OwnTemplatesAreOnSchedule(c: Crypto, s: System, events: seq<Event>, miner: string, now: int)
    requires CreateBlockTemplate(c, Run(c, s, events).ledger, miner, now).Ok?
    ensures var l := Run(c, s, events).ledger;
            var b := CreateBlockTemplate(c, l, miner, now).value;
            ClaimsSchedule(b) && (WellFormedTxs(l.mempool) ==> Honest(b))
  {
    hide CreateBlockTemplate, Run;
    TemplateClaimsSchedule(c, Run(c, s, events).ledger, miner, now);
  }
}
