/** The node as a state machine: any number of AddBlock calls in flight, split where the lock is
    taken, interleaved with submissions, penalties, fork resolution, synchronisation and
    confirmations. An event carries everything the node does not decide itself. */
module Protocol {
  import opened Models
  import opened Difficulty
  import opened AccountMath
  import opened Votes
  import opened Consensus
  import opened ForkChoice
  import opened Sync
  import Mempool

  /** An AddBlock call: snapshot taken, votes out; or votes counted, waiting for the lock; or done. */
  datatype Call =
    | Polling(block: Block, snap: Snapshot, peers: nat)
    | Polled(block: Block, accepted: nat, total: nat)
    | Returned

  datatype System = System(ledger: Ledger, validators: ValidatorMap, limit: nat, calls: map<nat, Call>)

  datatype Event =
    | Begin(id: nat, block: Block, peers: nat)
    | Count(id: nat, peerVotes: seq<bool>)
    | Conclude(id: nat)
    | Fine(offender: string, amount: real)
    | Submit(tx: Transaction)
    | Fork(candidate: Block)
    | SyncWith(blocks: seq<Block>)
    | Confirm(block: Block)
    | SetValidators(validators: ValidatorMap)

  function Next(c: Crypto, s: System, e: Event): System {
    match e
    case Begin(id, block, peers) =>
      if id in s.calls then s else s.(calls := s.calls[id := Polling(block, SnapshotOf(s.ledger), peers)])
    case Count(id, peerVotes) =>
      if id in s.calls && s.calls[id].Polling? && |peerVotes| == s.calls[id].peers then
        var (voted, accepted) := CastVotes(c, s.validators, s.calls[id].snap, s.calls[id].block, peerVotes);
        s.(calls := s.calls[id := Polled(voted, accepted, |peerVotes| + 1)])
      else s
    case Conclude(id) =>
      if id in s.calls && s.calls[id].Polled? then
        s.(ledger := Consensus.Conclude(c, s.ledger, s.calls[id].block, s.calls[id].accepted, s.calls[id].total).0,
           calls := s.calls[id := Returned])
      else s
    case Fine(offender, amount) =>
      if offender == "" then s else s.(ledger := Penalise(s.ledger, offender, amount))
    case Submit(tx) =>
      s.(ledger := s.ledger.(mempool := Mempool.AddTx(c, s.ledger.accounts, s.ledger.mempool, tx, s.limit).0))
    case Fork(candidate) => s.(ledger := ResolveFork(c, s.validators, s.ledger, candidate).0)
    case SyncWith(blocks) => s.(ledger := ApplySynced(c, s.validators, s.ledger, blocks).0)
    case Confirm(block) => s.(ledger := FinalizeExisting(s.ledger, block).0)
    case SetValidators(validators) => s.(validators := validators)
  }

  function Run(c: Crypto, s: System, events: seq<Event>): System {
    if events == [] then s else Next(c, Run(c, s, events[..|events| - 1]), events[|events| - 1])
  }

  lemma RunStep(c: Crypto, s: System, events: seq<Event>, k: nat)
    requires k < |events|
    ensures Run(c, s, events[..k + 1]) == Next(c, Run(c, s, events[..k]), events[k])
  {
    assert events[..k + 1][..k] == events[..k];
  }

  lemma {:induction false} RunConcat(c: Crypto, s: System, a: seq<Event>, b: seq<Event>)
    ensures Run(c, s, a + b) == Run(c, Run(c, s, a), b)
  {
    hide Next;
    if b == [] {
      assert a + b == a;
    } else {
      RunConcat(c, s, a, b[..|b| - 1]);
      assert (a + b)[..|a + b| - 1] == a + b[..|b| - 1];
    }
  }

  lemma RunOne(c: Crypto, s: System, e: Event)
    ensures Run(c, s, [e]) == Next(c, s, e)
  {
    hide Next;
    assert [e][..0] == [];
  }

  /** AddBlock with nothing in between, as events. */
  function AddEvents(id: nat, b: Block, peers: seq<bool>): seq<Event> {
    [Begin(id, b, |peers|), Count(id, peers), Conclude(id)]
  }

  /** The three events of an undisturbed call do what AddBlock does, whatever the peers answer. */
  lemma UndisturbedCall(c: Crypto, s: System, id: nat, b: Block, peers: seq<bool>)
    requires id !in s.calls
    ensures Run(c, s, AddEvents(id, b, peers))
            == s.(ledger := AddBlock(c, s.validators, s.ledger, b, peers).0, calls := s.calls[id := Returned])
  {
    hide CastVotes, Consensus.Conclude;
    var es := AddEvents(id, b, peers);
    assert es[..1] == [Begin(id, b, |peers|)] && es[..2][..1] == es[..1] && es[..3] == es && es[..0] == [];
    RunStep(c, s, es, 0);
    RunStep(c, s, es, 1);
    RunStep(c, s, es, 2);
  }

  function GenesisSystem(genesis: Block, founder: string, validators: ValidatorMap, limit: nat): System {
    System(GenesisLedger(genesis, founder), validators, limit, map[])
  }

  // ---- What every event keeps ----

  /** Links, numbering and counting nonces survive every event, whatever it offers. */
  lemma NextKeepsShape(c: Crypto, s: System, e: Event)
    requires Shaped(c, s.ledger)
    ensures Shaped(c, Next(c, s, e).ledger)
  {
    hide Linked, NonceHistory, ResolveFork, ApplySynced, FinalizeExisting, Consensus.Conclude;
    match e
    case Conclude(id) =>
      if id in s.calls && s.calls[id].Polled? {
        ConcludeKeepsShape(c, s.ledger, s.calls[id].block, s.calls[id].accepted, s.calls[id].total);
      }
    case Fine(offender, amount) => PenaltyKeepsShape(c, s.ledger, offender, amount);
    case Submit(tx) =>
      assert NonceHistory(s.ledger.chain, MoneyOf(s.ledger));
      assert MoneyOf(Next(c, s, e).ledger) == MoneyOf(s.ledger);
    case Fork(candidate) => ForkKeepsShape(c, s.validators, s.ledger, candidate);
    case SyncWith(blocks) => SyncKeepsShape(c, s.validators, s.ledger, blocks);
    case Confirm(block) => FinalizeKeepsShape(c, s.ledger, block);
    case _ =>
  }

  lemma {:induction false} RunKeepsShape(c: Crypto, s: System, events: seq<Event>)
    requires Shaped(c, s.ledger)
    ensures Shaped(c, Run(c, s, events).ledger)
  {
    if events != [] {
      hide Shaped, Next;
      RunKeepsShape(c, s, events[..|events| - 1]);
      NextKeepsShape(c, Run(c, s, events[..|events| - 1]), events[|events| - 1]);
    }
  }

  lemma NextKeepsAccounted(c: Crypto, s: System, e: Event)
    requires Accounted(c, s.ledger)
    ensures Accounted(c, Next(c, s, e).ledger)
  {
    hide Accounted, ResolveFork, ApplySynced, FinalizeExisting, Consensus.Conclude;
    match e
    case Conclude(id) =>
      if id in s.calls && s.calls[id].Polled? {
        ConcludeKeepsAccounted(c, s.ledger, s.calls[id].block, s.calls[id].accepted, s.calls[id].total);
      }
    case Fine(offender, amount) => PenaltyKeepsAccounted(c, s.ledger, offender, amount);
    case Submit(tx) => SameAccountsAreAccounted(c, s.ledger, Next(c, s, e).ledger);
    case Fork(candidate) => ForkKeepsAccounted(c, s.validators, s.ledger, candidate);
    case SyncWith(blocks) => SyncKeepsAccounted(c, s.validators, s.ledger, blocks);
    case Confirm(block) => FinalizeKeepsAccounted(c, s.ledger, block);
    case _ =>
  }

  /** Whatever a run offers, its chain has its shape, and sound books if it carries no negative
      amount or fee itself. */
  lemma {:induction false} RunKeepsAccounted(c: Crypto, s: System, events: seq<Event>)
    requires Accounted(c, s.ledger)
    ensures Accounted(c, Run(c, s, events).ledger)
  {
    if events != [] {
      hide Accounted, Next;
      RunKeepsAccounted(c, s, events[..|events| - 1]);
      NextKeepsAccounted(c, Run(c, s, events[..|events| - 1]), events[|events| - 1]);
    }
  }

  lemma GenesisAccounted(c: Crypto, genesis: Block, founder: string)
    requires IsGenesis(c, genesis, founder)
    ensures Accounted(c, GenesisLedger(genesis, founder))
  {
    GenesisSound(c, genesis, founder);
  }

  // ---- Conservation ----

  /** In every state a node can reach from genesis, whatever it was offered: the chain is linked and
      numbered from zero; and if no payment on it has a negative amount or fee, the minted supply is
      exactly the balances plus all fees ever burned, no balance is negative, the cap holds, and a
      penalty always finds its amount in the minted supply. */
  lemma ConservationOverRuns(c: Crypto, genesis: Block, founder: string, validators: ValidatorMap, limit: nat,
                             events: seq<Event>)
    requires IsGenesis(c, genesis, founder)
    ensures var l := Run(c, GenesisSystem(genesis, founder, validators, limit), events).ledger;
            && Linked(c, l.chain) && Positioned(l.chain)
            && (WellFormedChain(l.chain) ==>
                  && l.minted == Total(l.accounts) + ChainFees(l.chain)
                  && NonNegative(l.accounts)
                  && l.minted <= TOTAL_SUPPLY_CAP
                  && l.minted <= FOUNDER_ALLOCATION + ChainRewards(l.chain)
                  && forall offender, amount :: l.minted >= Slash(l, offender, amount))
  {
    GenesisAccounted(c, genesis, founder);
    RunKeepsAccounted(c, GenesisSystem(genesis, founder, validators, limit), events);
    var l := Run(c, GenesisSystem(genesis, founder, validators, limit), events).ledger;
    if WellFormedChain(l.chain) {
      forall offender, amount ensures l.minted >= Slash(l, offender, amount) {
        PenaltyKeepsBooks(l, offender, amount);
      }
    }
  }

  // ---- Nonces ----

  lemma {:induction false} TxNonceAt(txs: seq<Transaction>, p: nat)
    requires p < |txs| && !txs[p].isCoinbase
    ensures var a := txs[p].from;
            |TxNonces(txs[..p], a)| < |TxNonces(txs, a)| && TxNonces(txs, a)[|TxNonces(txs[..p], a)|] == txs[p].nonce
  {
    var a := txs[p].from;
    if p > 0 {
      TxNonceAt(txs[1..], p - 1);
      assert txs[..p][1..] == txs[1..][..p - 1];
    }
  }

  lemma {:induction false} TxNoncesMonotone(txs: seq<Transaction>, p: nat, q: nat)
    requires p < q <= |txs| && !txs[p].isCoinbase
    ensures |TxNonces(txs[..p], txs[p].from)| < |TxNonces(txs[..q], txs[p].from)|
  {
    TxNonceAt(txs[..q], p);
    assert txs[..q][..p] == txs[..p];
  }

  /** How many transactions of its sender precede transaction p of block i. */
  function SentBefore(chain: seq<Block>, i: nat, p: nat): nat
    requires i < |chain| && p < |chain[i].transactions|
  {
    var tx := chain[i].transactions[p];
    |ChainNonces(chain[..i], tx.from)| + |TxNonces(chain[i].transactions[..p], tx.from)|
  }

  lemma {:induction false} ChainNoncePrefix(chain: seq<Block>, n: nat, a: string)
    requires n <= |chain|
    ensures ChainNonces(chain[..n], a) <= ChainNonces(chain, a)
  {
    if n < |chain| {
      ChainNoncePrefix(chain[..|chain| - 1], n, a);
      assert chain[..|chain| - 1][..n] == chain[..n];
    } else {
      assert chain[..n] == chain;
    }
  }

  lemma NonceIsPosition(chain: seq<Block>, i: nat, p: nat)
    requires i < |chain| && p < |chain[i].transactions| && !chain[i].transactions[p].isCoinbase
    requires CountsFrom(ChainNonces(chain, chain[i].transactions[p].from), 0)
    ensures chain[i].transactions[p].nonce == SentBefore(chain, i, p) + 1
    ensures SentBefore(chain, i, p) < |ChainNonces(chain[..i + 1], chain[i].transactions[p].from)|
  {
    var txs, a := chain[i].transactions, chain[i].transactions[p].from;
    TxNonceAt(txs, p);
    assert chain[..i + 1][..i] == chain[..i];
    assert ChainNonces(chain[..i + 1], a) == ChainNonces(chain[..i], a) + TxNonces(txs, a);
    ChainNoncePrefix(chain, i + 1, a);
    var at := SentBefore(chain, i, p);
    assert ChainNonces(chain, a)[at] == ChainNonces(chain[..i + 1], a)[at] == txs[p].nonce;
  }

  lemma EarlierSentFewer(chain: seq<Block>, i: nat, p: nat, j: nat, q: nat)
    requires i < |chain| && p < |chain[i].transactions| && !chain[i].transactions[p].isCoinbase
    requires j < |chain| && q < |chain[j].transactions| && !chain[j].transactions[q].isCoinbase
    requires chain[i].transactions[p].from == chain[j].transactions[q].from
    requires i < j || (i == j && p < q)
    requires CountsFrom(ChainNonces(chain, chain[i].transactions[p].from), 0)
    ensures SentBefore(chain, i, p) < SentBefore(chain, j, q)
  {
    var a := chain[i].transactions[p].from;
    if i < j {
      NonceIsPosition(chain, i, p);
      ChainNoncePrefix(chain[..j], i + 1, a);
      assert chain[..j][..i + 1] == chain[..i + 1];
    } else {
      TxNoncesMonotone(chain[i].transactions, p, q);
    }
  }

  /** In every reachable state, whatever the node was offered, each sender's transactions
      carry 1, 2, ..., k in chain order, its account's nonce is that k, and so no sender and nonce
      occur together twice on the chain. */
  lemma NonceHistoryOverRuns(c: Crypto, genesis: Block, founder: string, validators: ValidatorMap, limit: nat,
                             events: seq<Event>)
    requires IsGenesis(c, genesis, founder)
    ensures var l := Run(c, GenesisSystem(genesis, founder, validators, limit), events).ledger;
            && (forall a ::
                  && CountsFrom(ChainNonces(l.chain, a), 0)
                  && Get(l.accounts, a).nonce == |ChainNonces(l.chain, a)|)
            && NoReplay(l.chain)
  {
    GenesisSound(c, genesis, founder);
    RunKeepsShape(c, GenesisSystem(genesis, founder, validators, limit), events);
    var l := Run(c, GenesisSystem(genesis, founder, validators, limit), events).ledger;
    assert NonceHistory(l.chain, MoneyOf(l));
    CountedNoncesNeverRepeat(l.chain);
  }

  /** No two transactions on the chain share sender and nonce. */
  ghost predicate NoReplay(chain: seq<Block>) {
    forall i, p, j, q ::
      && 0 <= i < |chain| && 0 <= p < |chain[i].transactions| && !chain[i].transactions[p].isCoinbase
      && 0 <= j < |chain| && 0 <= q < |chain[j].transactions| && !chain[j].transactions[q].isCoinbase
      && chain[i].transactions[p].from == chain[j].transactions[q].from
      && chain[i].transactions[p].nonce == chain[j].transactions[q].nonce
      ==> i == j && p == q
  }

  lemma CountedNoncesNeverRepeat(chain: seq<Block>)
    requires forall a :: CountsFrom(ChainNonces(chain, a), 0)
    ensures NoReplay(chain)
  {
    forall i, p, j, q |
      && 0 <= i < |chain| && 0 <= p < |chain[i].transactions| && !chain[i].transactions[p].isCoinbase
      && 0 <= j < |chain| && 0 <= q < |chain[j].transactions| && !chain[j].transactions[q].isCoinbase
      && chain[i].transactions[p].from == chain[j].transactions[q].from
      && chain[i].transactions[p].nonce == chain[j].transactions[q].nonce
      ensures i == j && p == q
    {
      NonceIsPosition(chain, i, p);
      NonceIsPosition(chain, j, q);
      if i < j || (i == j && p < q) { EarlierSentFewer(chain, i, p, j, q); }
      if j < i || (i == j && q < p) { EarlierSentFewer(chain, j, q, i, p); }
    }
  }
}
