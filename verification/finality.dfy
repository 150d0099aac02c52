/** How long the prefix up to a finalized block stays: through every event, exactly as long as each
    adopted chain still marks a block at or above it and no final sibling displaces it. */
module Finality {
  import opened Models
  import opened Difficulty
  import opened Votes
  import opened Consensus
  import opened Replay
  import opened ForkChoice
  import opened Sync
  import opened Protocol
  import opened Runs

  /** The event does not unsettle height f: a whole chain that is adopted still marks a block at or
      above f, and no candidate displaces the block at f. Refused offers do not matter. */
  ghost predicate Guarded(c: Crypto, s: System, e: Event, f: nat) {
    match e
    case SyncWith(blocks) => Replaces(c, s, e) ==> LastFinalized(blocks) >= f
    case Fork(candidate) => candidate.index == f ==> !Displaces(c, s.ledger.chain, candidate)
    case _ => true
  }

  /** A block at or above height f is final, and up to f the hashes are those of `chain`. */
  ghost predicate Settled(chain: seq<Block>, now: seq<Block>, f: nat) {
    f < |chain| && f <= LastFinalized(now) && forall i :: 0 <= i <= f ==> now[i].hash == chain[i].hash
  }

  /** After a successful replacement height f is still settled if and only if the adopted chain
      marks a block at or above f. */
  lemma ReplacementSettlesExactly(c: Crypto, l: Ledger, blocks: seq<Block>, chain: seq<Block>, f: nat, hs: set<Header>)
    requires Linked(c, l.chain) && Settled(chain, l.chain, f)
    requires CollisionFree(c, hs) && HeadersIn(c, l.chain, hs) && HeadersIn(c, blocks, hs)
    requires ReplaceChain(c, l, blocks).1.None?
    ensures ReplaceChain(c, l, blocks).0.chain == blocks
    ensures Settled(chain, blocks, f) <==> LastFinalized(blocks) >= f
  {
    hide Linked, Rebuild, HeadersIn, CollisionFree;
    RebuildKeepsChain(c, blocks);
    FinalizedPrefixSurvives(c, l, blocks, hs);
  }

  lemma RebuildKeepsChain(c: Crypto, chain: seq<Block>)
    ensures Rebuild(c, chain).Ok? ==> Rebuild(c, chain).value.chain == chain
  {}

  /** After fork resolution height f is still settled if and only if the candidate was not one that
      displaces the block at f. */
  lemma ForkSettlesExactly(c: Crypto, vals: ValidatorMap, l: Ledger, candidate: Block, chain: seq<Block>, f: nat)
    requires Settled(chain, l.chain, f) && Positioned(l.chain)
    ensures Settled(chain, ResolveFork(c, vals, l, candidate).0.chain, f)
            <==> (candidate.index == f ==> !Displaces(c, l.chain, candidate))
  {
    hide ResolveFork, FitsBase, DistinctPeers, Named, CountAccepted;
    var (after, outcome) := ResolveFork(c, vals, l, candidate);
    var t := |l.chain| - 1;
    ForkImprovesTip(c, vals, l, candidate);
    AdoptedExactly(c, vals, l, candidate);
    if outcome.Adopted? {
      assert candidate.index == t && after.chain[t].hash != l.chain[t].hash;
      if f < t {
        var g := LastFinalized(l.chain);
        assert after.chain[g].finalized;
      }
    }
  }

  lemma ExtensionKeepsSettled(chain: seq<Block>, before: seq<Block>, after: seq<Block>, f: nat)
    requires Settled(chain, before, f) && before <= after
    ensures Settled(chain, after, f)
  {
    assert after[LastFinalized(before)].finalized;
  }

  lemma ConfirmKeepsSettled(l: Ledger, b: Block, chain: seq<Block>, f: nat)
    requires Settled(chain, l.chain, f)
    ensures Settled(chain, FinalizeExisting(l, b).0.chain, f)
  {
    hide FinalizeExisting;
    FinalizeExistingTouchesOneFlag(l, b);
    var after := FinalizeExisting(l, b).0.chain;
    assert after[LastFinalized(l.chain)].finalized;
    forall i | 0 <= i <= f ensures after[i].hash == chain[i].hash {
      assert after[i] == l.chain[i].(finalized := after[i].finalized);
    }
  }

  lemma SyncSettlesExactly(c: Crypto, s: System, blocks: seq<Block>, chain: seq<Block>, f: nat, hs: set<Header>)
    requires Linked(c, s.ledger.chain) && Settled(chain, s.ledger.chain, f)
    requires CollisionFree(c, hs) && HeadersIn(c, s.ledger.chain, hs)
    requires HeadersIn(c, ApplySynced(c, s.validators, s.ledger, blocks).0.chain, hs)
    ensures Settled(chain, ApplySynced(c, s.validators, s.ledger, blocks).0.chain, f)
            <==> Guarded(c, s, SyncWith(blocks), f)
  {
    hide Linked, AppendBlocks, HeadersIn, CollisionFree, Settled, ReplayFrom;
    if Replaces(c, s, SyncWith(blocks)) {
      RebuildKeepsChain(c, blocks);
      ReplacementSettlesExactly(c, s.ledger, blocks, chain, f, hs);
    } else {
      SyncExtends(c, s, blocks);
      ExtensionKeepsSettled(chain, s.ledger.chain, ApplySynced(c, s.validators, s.ledger, blocks).0.chain, f);
    }
  }

  /** One event keeps height f settled if and only if it is guarded. */
  lemma NextSettlesExactly(c: Crypto, s: System, e: Event, chain: seq<Block>, f: nat, hs: set<Header>)
    requires Shaped(c, s.ledger) && Settled(chain, s.ledger.chain, f)
    requires CollisionFree(c, hs) && HeadersIn(c, s.ledger.chain, hs) && HeadersIn(c, Next(c, s, e).ledger.chain, hs)
    ensures Settled(chain, Next(c, s, e).ledger.chain, f) <==> Guarded(c, s, e, f)
  {
    hide Linked, NonceHistory, Settled, Displaces, ResolveFork, ApplySynced, FinalizeExisting, Consensus.Conclude,
        CollisionFree, HeadersIn;
    match e
    case Conclude(id) =>
      if id in s.calls && s.calls[id].Polled? {
        var call := s.calls[id];
        ConcludeExtends(c, s.ledger, call.block, call.accepted, call.total);
        ExtensionKeepsSettled(chain, s.ledger.chain, Next(c, s, e).ledger.chain, f);
      }
    case Fork(candidate) => ForkSettlesExactly(c, s.validators, s.ledger, candidate, chain, f);
    case SyncWith(blocks) => SyncSettlesExactly(c, s, blocks, chain, f, hs);
    case Confirm(block) => ConfirmKeepsSettled(s.ledger, block, chain, f);
    case _ =>
  }

  /** Every event of the run is guarded in the state it meets. */
  ghost predicate AllGuarded(c: Crypto, s: System, events: seq<Event>, f: nat) {
    forall i :: 0 <= i < |events| ==> Guarded(c, Run(c, s, events[..i]), events[i], f)
  }

  /** Height f is settled, as in the first state, in every state of the run. */
  ghost predicate StaysSettled(c: Crypto, s: System, events: seq<Event>, f: nat) {
    forall k :: 0 <= k <= |events| ==> Settled(s.ledger.chain, ChainAt(c, s, events, k), f)
  }

  /** The headers of every chain the run holds are among `hs`. */
  ghost predicate ChainsIn(c: Crypto, s: System, events: seq<Event>, hs: set<Header>) {
    forall k :: 0 <= k <= |events| ==> HeadersIn(c, ChainAt(c, s, events, k), hs)
  }

  lemma ChainsInStep(c: Crypto, s: System, events: seq<Event>, hs: set<Header>)
    requires ChainsIn(c, s, events, hs) && events != []
    ensures var earlier := events[..|events| - 1];
            ChainsIn(c, s, earlier, hs) && HeadersIn(c, Run(c, s, earlier).ledger.chain, hs)
                && HeadersIn(c, Run(c, s, events).ledger.chain, hs)
  {
    hide HeadersIn, Run;
    var n := |events| - 1;
    forall k | 0 <= k <= n ensures HeadersIn(c, ChainAt(c, s, events[..n], k), hs) {
      assert events[..n][..k] == events[..k] && HeadersIn(c, ChainAt(c, s, events, k), hs);
    }
    assert events[..|events|] == events && HeadersIn(c, ChainAt(c, s, events, |events|), hs);
    assert HeadersIn(c, ChainAt(c, s, events, n), hs);
  }

  lemma AllGuardedStep(c: Crypto, s: System, events: seq<Event>, f: nat)
    requires events != []
    ensures var earlier := events[..|events| - 1];
            AllGuarded(c, s, events, f)
            <==> AllGuarded(c, s, earlier, f) && Guarded(c, Run(c, s, earlier), events[|events| - 1], f)
  {
    hide Guarded, Run;
    var n := |events| - 1;
    var earlier := events[..n];
    if AllGuarded(c, s, events, f) {
      forall i | 0 <= i < n ensures Guarded(c, Run(c, s, earlier[..i]), earlier[i], f) {
        assert earlier[..i] == events[..i];
      }
    }
    if AllGuarded(c, s, earlier, f) && Guarded(c, Run(c, s, earlier), events[n], f) {
      forall i | 0 <= i < |events| ensures Guarded(c, Run(c, s, events[..i]), events[i], f) {
        if i < n { assert earlier[..i] == events[..i] && earlier[i] == events[i]; }
      }
    }
  }

  lemma StaysSettledStep(c: Crypto, s: System, events: seq<Event>, f: nat)
    requires events != []
    ensures StaysSettled(c, s, events, f)
            <==> StaysSettled(c, s, events[..|events| - 1], f)
                 && Settled(s.ledger.chain, Run(c, s, events).ledger.chain, f)
  {
    hide Settled, Run;
    var n, chain := |events| - 1, s.ledger.chain;
    var earlier := events[..n];
    assert events[..|events|] == events;
    if StaysSettled(c, s, events, f) {
      assert Settled(chain, ChainAt(c, s, events, |events|), f);
      forall k | 0 <= k <= n ensures Settled(chain, ChainAt(c, s, earlier, k), f) {
        assert earlier[..k] == events[..k] && Settled(chain, ChainAt(c, s, events, k), f);
      }
    }
    if StaysSettled(c, s, earlier, f) && Settled(chain, Run(c, s, events).ledger.chain, f) {
      forall k | 0 <= k <= |events| ensures Settled(chain, ChainAt(c, s, events, k), f) {
        if k <= n { assert earlier[..k] == events[..k] && Settled(chain, ChainAt(c, s, earlier, k), f); }
      }
    }
  }

  /** Once a block at or above height f is final, no block hash up to f changes and the mark stays,
      in every state of a run, if and only if every adopted chain still marks a block at or above f
      and no fork candidate displaces the block at f itself. */
  lemma {:induction false} FinalityOverRuns(c: Crypto, s: System, events: seq<Event>, f: nat, hs: set<Header>)
    requires Shaped(c, s.ledger) && f <= LastFinalized(s.ledger.chain)
    requires CollisionFree(c, hs) && ChainsIn(c, s, events, hs)
    ensures StaysSettled(c, s, events, f) <==> AllGuarded(c, s, events, f)
  {
    hide Settled, Guarded, Shaped, Next, HeadersIn, CollisionFree;
    if events == [] {
      SettledAtFirst(s.ledger.chain, f);
      assert events[..0] == [];
    } else {
      hide StaysSettled, AllGuarded, ChainsIn;
      var earlier, e := events[..|events| - 1], events[|events| - 1];
      ChainsInStep(c, s, events, hs);
      FinalityOverRuns(c, s, earlier, f, hs);
      AllGuardedStep(c, s, events, f);
      StaysSettledStep(c, s, events, f);
      RunKeepsShape(c, s, earlier);
      if StaysSettled(c, s, earlier, f) {
        SettledAtLast(c, s, earlier, f);
        NextSettlesExactly(c, Run(c, s, earlier), e, s.ledger.chain, f, hs);
      }
    }
  }

  lemma SettledAtFirst(chain: seq<Block>, f: nat)
    requires f <= LastFinalized(chain)
    ensures Settled(chain, chain, f)
  {}

  lemma SettledAtLast(c: Crypto, s: System, events: seq<Event>, f: nat)
    requires StaysSettled(c, s, events, f)
    ensures Settled(s.ledger.chain, Run(c, s, events).ledger.chain, f)
  {
    hide Settled, Run;
    assert Settled(s.ledger.chain, ChainAt(c, s, events, |events|), f);
    assert events[..|events|] == events;
  }

  /** A condition that only looks at the offers: adopted chains keep a mark at or above f, and no
      candidate of height f calls itself final. */
  lemma UnmarkedCandidatesAreGuarded(c: Crypto, s: System, e: Event, chain: seq<Block>, f: nat)
    requires Shaped(c, s.ledger) && Settled(chain, s.ledger.chain, f)
    requires e.SyncWith? ==> Replaces(c, s, e) ==> LastFinalized(e.blocks) >= f
    requires e.Fork? && e.candidate.index == f ==> !e.candidate.finalized
    ensures Guarded(c, s, e, f)
  {
    hide Linked, NonceHistory, FitsBase, DistinctPeers, Named, CountAccepted;
  }

  // ---- What finality means for payments ----

  /** The transaction carries the ID computed from it; verification never checks this. */
  predicate Identified(c: Crypto, tx: Transaction) {
    tx.id == TxID(c, tx)
  }

  /** One header, one list of sequence numbers and IDs; and where the IDs are the computed ones, and do
      not collide, one list of payments. */
  lemma SameHeaderSamePayments(c: Crypto, a: Block, b: Block, ps: set<Payload>)
    requires HeaderOf(c, a) == HeaderOf(c, b) && IdsCollisionFree(c, ps)
    ensures |a.transactions| == |b.transactions|
    ensures forall p :: 0 <= p < |a.transactions| ==>
              var x, y := a.transactions[p], b.transactions[p];
              && x.id == y.id && x.sequenceNumber == y.sequenceNumber
              && (Identified(c, x) && Identified(c, y) && PayloadOf(c, x) in ps && PayloadOf(c, y) in ps ==>
                    PayloadOf(c, x) == PayloadOf(c, y))
  {
    assert |TxHeaders(a.transactions)| == |TxHeaders(b.transactions)|;
    forall p | 0 <= p < |a.transactions|
      ensures a.transactions[p].id == b.transactions[p].id
              && a.transactions[p].sequenceNumber == b.transactions[p].sequenceNumber
    {
      assert TxHeaders(a.transactions)[p] == TxHeaders(b.transactions)[p];
    }
  }

  /** In every state of a guarded run, each block up to the settled height f has the transactions of the
      first state, by ID and position, and the same sender, receiver, amount, fee, nonce and timestamp in
      each that carries its computed ID, if those IDs do not collide. */
  lemma SettledPaymentsStay(c: Crypto, s: System, events: seq<Event>, f: nat, hs: set<Header>, ps: set<Payload>,
                            k: nat, i: nat)
    requires Shaped(c, s.ledger) && f <= LastFinalized(s.ledger.chain) && AllGuarded(c, s, events, f)
    requires CollisionFree(c, hs) && ChainsIn(c, s, events, hs) && IdsCollisionFree(c, ps)
    requires k <= |events| && i <= f
    ensures i < |ChainAt(c, s, events, k)|
    ensures var a, b := s.ledger.chain[i].transactions, ChainAt(c, s, events, k)[i].transactions;
            |a| == |b| &&
            forall p :: 0 <= p < |a| ==>
              && a[p].id == b[p].id && a[p].sequenceNumber == b[p].sequenceNumber
              && (Identified(c, a[p]) && Identified(c, b[p]) && PayloadOf(c, a[p]) in ps && PayloadOf(c, b[p]) in ps ==>
                    PayloadOf(c, a[p]) == PayloadOf(c, b[p]))
  {
    hide Guarded, Next, NonceHistory, IdsCollisionFree, Identified, PayloadOf, HeaderOf, BlockHash, HashMeets;
    var first, now := s.ledger.chain, ChainAt(c, s, events, k);
    FinalityOverRuns(c, s, events, f, hs);
    assert Settled(first, now, f);
    RunKeepsShape(c, s, events[..k]);
    assert events[..0] == [] && HeadersIn(c, ChainAt(c, s, events, 0), hs) && HeadersIn(c, now, hs);
    LinksAgreeDownwards(c, first, now, f, hs);
    SameHeaderSamePayments(c, first[i], now[i], ps);
  }
}
