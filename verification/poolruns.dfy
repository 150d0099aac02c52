/** The mempool over whole runs of a node: always the best of what was admitted since a block last
    cleared it. */
module PoolRuns {
  import opened Models
  import opened Sorting
  import opened AccountMath
  import opened Votes
  import opened Consensus
  import opened ForkChoice
  import opened Sync
  import opened Protocol
  import opened Mempool
  import opened Template

  /** The event appends a block, which empties the mempool. */
  predicate Clears(c: Crypto, s: System, e: Event) {
    match e
    case Conclude(_) => |Next(c, s, e).ledger.chain| > |s.ledger.chain|
    case SyncWith(blocks) => blocks != [] && blocks[0].index != 0 && |Next(c, s, e).ledger.chain| > |s.ledger.chain|
    case _ => false
  }

  /** The submissions since the mempool was last cleared, each with the accounts of its moment. */
  function SubmissionsSince(c: Crypto, s: System, events: seq<Event>): seq<Submission> {
    if events == [] then []
    else
      var earlier, e := events[..|events| - 1], events[|events| - 1];
      var before := Run(c, s, earlier);
      if e.Submit? then SubmissionsSince(c, s, earlier) + [Submission(before.ledger.accounts, e.tx)]
      else if Clears(c, before, e) then []
      else SubmissionsSince(c, s, earlier)
  }

  lemma {:induction false} AppendClears(c: Crypto, vals: ValidatorMap, l: Ledger, blocks: seq<Block>)
    ensures var after := AppendBlocks(c, vals, l, blocks).0;
            |after.chain| >= |l.chain| && after.mempool == if |after.chain| > |l.chain| then [] else l.mempool
    decreases |blocks|
  {
    if blocks != [] {
      AddBlockAlone(c, vals, l, blocks[0]);
      AppendClears(c, vals, AddBlock(c, vals, l, blocks[0], []).0, blocks[1..]);
    }
  }

  lemma OthersKeepOrClear(c: Crypto, s: System, e: Event)
    requires !e.Submit?
    ensures Next(c, s, e).ledger.mempool == if Clears(c, s, e) then [] else s.ledger.mempool
  {
    match e
    case Conclude(id) =>
      if id in s.calls && s.calls[id].Polled? { CommitIsAllOrNothing(c, s.ledger, s.calls[id].block); }
    case Fork(candidate) => ForkImprovesTip(c, s.validators, s.ledger, candidate);
    case SyncWith(blocks) => AppendClears(c, s.validators, s.ledger, blocks);
    case _ =>
  }

  lemma {:induction false} PoolIsItsSubmissions(c: Crypto, s: System, events: seq<Event>)
    requires s.ledger.mempool == []
    ensures Run(c, s, events).ledger.mempool == PoolAfter(c, SubmissionsSince(c, s, events), s.limit)
    ensures Run(c, s, events).limit == s.limit
  {
    hide AddTx, ResolveFork, ApplySynced, FinalizeExisting, Consensus.Conclude, CastVotes, Penalise;
    if events != [] {
      var earlier, e := events[..|events| - 1], events[|events| - 1];
      var subs := SubmissionsSince(c, s, earlier);
      PoolIsItsSubmissions(c, s, earlier);
      if e.Submit? {
        var sub := Submission(Run(c, s, earlier).ledger.accounts, e.tx);
        assert (subs + [sub])[..|subs|] == subs;
      } else {
        OthersKeepOrClear(c, Run(c, s, earlier), e);
      }
    }
  }

  /** Everything admitted since the mempool was last cleared. */
  function AdmittedSince(c: Crypto, s: System, events: seq<Event>): seq<Transaction> {
    AdmittedIn(c, SubmissionsSince(c, s, events), s.limit)
  }

  /** In every reachable state, through commits, penalties, forks and synchronisation: as long as the
      tolerant comparison is transitive on the fees admitted, the mempool is within its limit, in the
      code's own order, and exactly the best of the transactions admitted since a block last cleared it. */
  lemma PoolIsTopNOverRuns(c: Crypto, s: System, events: seq<Event>, fees: iset<real>)
    requires s.ledger.mempool == []
    requires FeesAgree(fees) && FeesIn(AdmittedSince(c, s, events), fees)
    ensures var pool, admitted := Run(c, s, events).ledger.mempool, AdmittedSince(c, s, events);
            var ranked := Sort(admitted, PriorityOn(fees));
            && |pool| <= s.limit && Sorted(pool, NotAfter())
            && Sorted(ranked, NotAfter()) && multiset(ranked) == multiset(admitted)
            && pool == Take(s.limit, ranked)
  {
    hide Run, SubmissionsSince, AdmittedIn, PoolAfter, PriorityOn, NotAfter, FeesAgree, FeesIn;
    PoolIsItsSubmissions(c, s, events);
    PoolIsTopN(c, SubmissionsSince(c, s, events), s.limit, fees);
  }

  // ---- What is pending ----

  /** A pending transaction is a signed payment at the fixed fee, under its computed ID. */
  predicate GenuineTx(c: Crypto, tx: Transaction) {
    !tx.isCoinbase && FloatEqual(tx.fee, FIXED_FEE) && VerifyTransaction(c, tx) && tx.id == TxID(c, tx)
  }

  ghost predicate Genuine(c: Crypto, pool: seq<Transaction>) {
    && (forall i :: 0 <= i < |pool| ==> GenuineTx(c, pool[i]))
    && (forall i, j :: 0 <= i < j < |pool| ==> pool[i].from != pool[j].from || pool[i].nonce != pool[j].nonce)
  }

  lemma InsertKeepsGenuine(c: Crypto, pool: seq<Transaction>, tx: Transaction, at: nat)
    requires Genuine(c, pool) && GenuineTx(c, tx) && !Pending(pool, tx) && at <= |pool|
    ensures Genuine(c, pool[..at] + [tx] + pool[at..])
  {
    hide GenuineTx;
    var longer := pool[..at] + [tx] + pool[at..];
    assert forall i :: 0 <= i < |longer| ==>
          longer[i] == if i < at then pool[i] else if i == at then tx else pool[i - 1];
  }

  lemma SubmissionKeepsGenuine(c: Crypto, accounts: Accounts, pool: seq<Transaction>, tx: Transaction, limit: nat)
    requires Genuine(c, pool)
    ensures Genuine(c, AddTx(c, accounts, pool, tx, limit).0)
  {
    if Refusal(c, accounts, pool, tx).None? {
      var stored := Identified(c, tx);
      assert PayloadOf(c, stored) == PayloadOf(c, tx);
      InsertKeepsGenuine(c, pool, stored, Search(pool, stored, 0, |pool|));
    }
  }

  /** In every reachable state every pending transaction is a signed payment, identified by its
      computed ID, at a fee that on the eight-decimal grid is exactly 0.01, and no two share sender
      and nonce. */
  lemma {:induction false} PendingStaysGenuine(c: Crypto, s: System, events: seq<Event>)
    requires Genuine(c, s.ledger.mempool)
    ensures var pool := Run(c, s, events).ledger.mempool;
            && Genuine(c, pool)
            && forall i :: 0 <= i < |pool| && OnGrid(pool[i].fee) ==> pool[i].fee == FIXED_FEE
  {
    hide Genuine, AddTx, OnGrid;
    if events != [] {
      var earlier, e := events[..|events| - 1], events[|events| - 1];
      var before := Run(c, s, earlier);
      PendingStaysGenuine(c, s, earlier);
      if e.Submit? {
        SubmissionKeepsGenuine(c, before.ledger.accounts, before.ledger.mempool, e.tx, before.limit);
      } else {
        NothingPending(c);
        OthersKeepOrClear(c, before, e);
      }
    }
    var pool := Run(c, s, events).ledger.mempool;
    forall i | 0 <= i < |pool| && OnGrid(pool[i].fee) ensures pool[i].fee == FIXED_FEE {
      GenuineFee(c, pool, i);
    }
  }

  lemma NothingPending(c: Crypto)
    ensures Genuine(c, [])
  {}

  lemma GenuineFee(c: Crypto, pool: seq<Transaction>, i: nat)
    requires Genuine(c, pool) && i < |pool| && OnGrid(pool[i].fee)
    ensures pool[i].fee == FIXED_FEE
  {
    assert FIXED_FEE * 100000000.0 == 1000000.0;
    assert OnGrid(FIXED_FEE);
    GridEquality(pool[i].fee, FIXED_FEE);
  }

  /** In every reachable state a submission errs exactly when it leaves the pool as it was, if the IDs
      of what is pending and of the newcomer do not collide. */
  lemma SubmissionErrsExactlyWhenUnchanged(c: Crypto, s: System, events: seq<Event>, tx: Transaction, ps: set<Payload>)
    requires Genuine(c, s.ledger.mempool) && IdsCollisionFree(c, ps) && PayloadOf(c, tx) in ps
    requires forall i :: 0 <= i < |Run(c, s, events).ledger.mempool| ==>
               PayloadOf(c, Run(c, s, events).ledger.mempool[i]) in ps
    ensures var now := Run(c, s, events);
            var (after, error) := AddTx(c, now.ledger.accounts, now.ledger.mempool, tx, now.limit);
            && (error.Some? <==> after == now.ledger.mempool)
            && (Refusal(c, now.ledger.accounts, now.ledger.mempool, tx).None? ==>
                  (error == Some(LowPriority) <==> after == now.ledger.mempool))
  {
    hide Run, AddTx, Refusal, OnGrid;
    PendingStaysGenuine(c, s, events);
    var now := Run(c, s, events);
    assert PayloadOf(c, Identified(c, tx)) == PayloadOf(c, tx);
    ErrorExactlyWhenUnchanged(c, now.ledger.accounts, now.ledger.mempool, tx, now.limit);
  }

  // ---- What can be mined ----

  /** The event does not change an account under a pending transaction. Blocks that are added empty
      the mempool, and submissions change no account; penalties on pending senders, fork swaps and
      chain replacements are what may not be so. */
  predicate SparesPool(c: Crypto, s: System, e: Event) {
    var before, after := s.ledger, Next(c, s, e).ledger;
    forall i :: 0 <= i < |after.mempool| ==>
          Get(after.accounts, after.mempool[i].from) == Get(before.accounts, after.mempool[i].from)
  }

  ghost predicate AllSparePool(c: Crypto, s: System, events: seq<Event>) {
    forall i :: 0 <= i < |events| ==> SparesPool(c, Run(c, s, events[..i]), events[i])
  }

  lemma SameSendersStayReady(c: Crypto, before: Accounts, after: Accounts, pool: seq<Transaction>)
    requires Ready(c, before, pool)
    requires forall i :: 0 <= i < |pool| ==> Get(after, pool[i].from) == Get(before, pool[i].from)
    ensures Ready(c, after, pool)
  {
    forall i | 0 <= i < |pool| ensures Admissible(c, after, pool[i]) { assert Admissible(c, before, pool[i]); }
  }

  lemma NextKeepsReady(c: Crypto, s: System, e: Event)
    requires PoolReady(c, s.ledger) && SparesPool(c, s, e)
    ensures PoolReady(c, Next(c, s, e).ledger)
  {
    hide Ready, AddTx, ResolveFork, ApplySynced, FinalizeExisting, Consensus.Conclude;
    if e.Submit? {
      SubmissionKeepsReady(c, s.ledger, e.tx, s.limit);
    } else {
      OthersKeepOrClear(c, s, e);
      NothingIsReady(c, s.ledger.accounts);
      SameSendersStayReady(c, s.ledger.accounts, Next(c, s, e).ledger.accounts, Next(c, s, e).ledger.mempool);
    }
  }

  lemma NothingIsReady(c: Crypto, accounts: Accounts)
    ensures Ready(c, accounts, [])
  {}

  lemma AllSparePoolStep(c: Crypto, s: System, events: seq<Event>)
    requires AllSparePool(c, s, events) && events != []
    ensures var earlier := events[..|events| - 1];
            AllSparePool(c, s, earlier) && SparesPool(c, Run(c, s, earlier), events[|events| - 1])
  {
    hide SparesPool;
    var earlier := events[..|events| - 1];
    forall i | 0 <= i < |earlier| ensures SparesPool(c, Run(c, s, earlier[..i]), earlier[i]) {
      assert earlier[..i] == events[..i];
    }
  }

  lemma {:induction false} RunKeepsReady(c: Crypto, s: System, events: seq<Event>)
    requires PoolReady(c, s.ledger) && AllSparePool(c, s, events)
    ensures PoolReady(c, Run(c, s, events).ledger)
  {
    if events != [] {
      hide PoolReady, SparesPool, AllSparePool, Next;
      AllSparePoolStep(c, s, events);
      RunKeepsReady(c, s, events[..|events| - 1]);
      NextKeepsReady(c, Run(c, s, events[..|events| - 1]), events[|events| - 1]);
    }
  }

  /** In every state of a run that spares the pool, whatever was offered or submitted, with any calls
      in flight and any blocks added: each pending transaction is admissible on its own, no sender has
      two, and if none pending is negative and the supply is within the cap, as it is when none on the
      chain is negative, mining succeeds exactly when the nonce search does. */
  lemma PoolStaysMinable(c: Crypto, s: System, events: seq<Event>)
    requires Accounted(c, s.ledger) && PoolReady(c, s.ledger) && AllSparePool(c, s, events)
    ensures var now := Run(c, s, events);
            && PoolReady(c, now.ledger) && now.ledger.chain != []
            && (WellFormedChain(now.ledger.chain) ==> now.ledger.minted <= TOTAL_SUPPLY_CAP)
            && (now.ledger.minted <= TOTAL_SUPPLY_CAP && WellFormedTxs(now.ledger.mempool) ==>
                  forall miner, time :: MineBlock(c, now.validators, now.ledger, miner, time).1.Ok?
                                        <==> Mine(c, Candidate(now.ledger, miner, time)).Some?)
  {
    RunKeepsReady(c, s, events);
    RunKeepsAccounted(c, s, events);
    hide PoolReady, Linked, NonceHistory, Mine, MineBlock, Next, Run, WellFormedTxs;
    var now := Run(c, s, events);
    if now.ledger.minted <= TOTAL_SUPPLY_CAP && WellFormedTxs(now.ledger.mempool) {
      forall miner, time
        ensures MineBlock(c, now.validators, now.ledger, miner, time).1.Ok?
                <==> Mine(c, Candidate(now.ledger, miner, time)).Some?
      {
        MiningSucceeds(c, now.validators, now.ledger, miner, time);
      }
    }
  }

  /** Mining is a run: the template offered to an undisturbed call ends in the ledger of MineBlock. */
  lemma MiningIsARun(c: Crypto, s: System, id: nat, miner: string, now: int)
    requires id !in s.calls && CreateBlockTemplate(c, s.ledger, miner, now).Ok?
    ensures Run(c, s, AddEvents(id, CreateBlockTemplate(c, s.ledger, miner, now).value, [])).ledger
            == MineBlock(c, s.validators, s.ledger, miner, now).0
  {
    hide AddBlock, CreateBlockTemplate;
    UndisturbedCall(c, s, id, CreateBlockTemplate(c, s.ledger, miner, now).value, []);
  }
}
