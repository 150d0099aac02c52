/** What is true of every block offered to a node, votes aside, is true of every block on its chain. */
module Offers {
  import opened Models
  import opened Votes
  import opened Consensus
  import opened Replay
  import opened ForkChoice
  import opened Sync
  import opened Protocol

  /** The property does not look at vote metadata. */
  ghost predicate BodyOnly(p: Block -> bool) {
    forall a, b :: Body(a) == Body(b) && p(a) ==> p(b)
  }

  ghost predicate All(chain: seq<Block>, p: Block -> bool) {
    forall i :: 0 <= i < |chain| ==> p(chain[i])
  }

  ghost predicate EventOffers(e: Event, p: Block -> bool) {
    match e
    case Begin(_, block, _) => p(block)
    case Fork(candidate) => p(candidate)
    case SyncWith(blocks) => All(blocks, p)
    case _ => true
  }

  ghost predicate RunOffers(events: seq<Event>, p: Block -> bool) {
    forall i :: 0 <= i < |events| ==> EventOffers(events[i], p)
  }

  ghost predicate Holds(s: System, p: Block -> bool) {
    All(s.ledger.chain, p) && forall id :: id in s.calls && !s.calls[id].Returned? ==> p(s.calls[id].block)
  }

  lemma SameBodiesHold(a: seq<Block>, b: seq<Block>, p: Block -> bool)
    requires BodyOnly(p) && SameBodies(a, b) && All(a, p)
    ensures All(b, p)
  {
    forall i | 0 <= i < |b| ensures p(b[i]) { assert Body(a[i]) == Body(b[i]) && p(a[i]); }
  }

  lemma ConcludeHolds(c: Crypto, l: Ledger, b: Block, accepted: nat, total: nat, p: Block -> bool)
    requires All(l.chain, p) && p(b)
    ensures All(Consensus.Conclude(c, l, b, accepted, total).0.chain, p)
  {
    CommitIsAllOrNothing(c, l, b);
  }

  lemma ForkHolds(c: Crypto, vals: ValidatorMap, l: Ledger, candidate: Block, p: Block -> bool)
    requires BodyOnly(p) && All(l.chain, p) && p(candidate)
    ensures All(ResolveFork(c, vals, l, candidate).0.chain, p)
  {
    hide ResolveFork;
    ForkImprovesTip(c, vals, l, candidate);
    var (after, outcome) := ResolveFork(c, vals, l, candidate);
    if outcome.Adopted? {
      assert Body(candidate) == Body(outcome.block);
      assert p(outcome.block);
    }
  }

  lemma SyncHolds(c: Crypto, vals: ValidatorMap, l: Ledger, blocks: seq<Block>, p: Block -> bool)
    requires BodyOnly(p) && All(l.chain, p) && All(blocks, p)
    ensures All(ApplySynced(c, vals, l, blocks).0.chain, p)
  {
    hide ReplayFrom, AppendBlocks, AfterFirst, VerifyBlock;
    SyncAppendsLongestValidPrefix(c, vals, l, blocks);
    var (after, k, _) := AppendBlocks(c, vals, l, blocks);
    SameBodiesHold(l.chain + blocks[..k], after.chain, p);
  }

  lemma CountHolds(c: Crypto, vals: ValidatorMap, snap: Snapshot, b: Block, peers: seq<bool>, p: Block -> bool)
    requires BodyOnly(p) && p(b)
    ensures p(CastVotes(c, vals, snap, b, peers).0)
  {
    hide CastVotes;
    CastVotesKeepsBody(c, vals, snap, b, peers);
  }

  lemma NextHolds(c: Crypto, s: System, e: Event, p: Block -> bool)
    requires BodyOnly(p) && Holds(s, p) && EventOffers(e, p)
    ensures Holds(Next(c, s, e), p)
  {
    hide CastVotes, Consensus.Conclude, ResolveFork, ApplySynced, FinalizeExisting;
    match e
    case Count(id, peerVotes) =>
      if id in s.calls && s.calls[id].Polling? {
        CountHolds(c, s.validators, s.calls[id].snap, s.calls[id].block, peerVotes, p);
      }
    case Conclude(id) =>
      if id in s.calls && s.calls[id].Polled? {
        ConcludeHolds(c, s.ledger, s.calls[id].block, s.calls[id].accepted, s.calls[id].total, p);
      }
    case Fork(candidate) => ForkHolds(c, s.validators, s.ledger, candidate, p);
    case SyncWith(blocks) => SyncHolds(c, s.validators, s.ledger, blocks, p);
    case Confirm(block) =>
      FinalizeExistingTouchesOneFlag(s.ledger, block);
      SameBodiesHold(s.ledger.chain, FinalizeExisting(s.ledger, block).0.chain, p);
    case _ =>
  }

  /** Whatever a run does, a property of all blocks it started from and was offered holds of all it has. */
  lemma {:induction false} RunHolds(c: Crypto, s: System, events: seq<Event>, p: Block -> bool)
    requires BodyOnly(p) && Holds(s, p) && RunOffers(events, p)
    ensures Holds(Run(c, s, events), p)
  {
    if events != [] {
      hide Next, BodyOnly, Holds, EventOffers;
      RunHolds(c, s, events[..|events| - 1], p);
      NextHolds(c, Run(c, s, events[..|events| - 1]), events[|events| - 1], p);
    }
  }
}
