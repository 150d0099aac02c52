/** What whole runs of a node guarantee: safe commits under interleaving, the difficulty schedule
    and the order of fork choice. */
module Runs {
  import opened Models
  import opened Difficulty
  import opened AccountMath
  import opened Votes
  import opened Consensus
  import opened Replay
  import opened ForkChoice
  import opened Sync
  import opened Protocol

  function ChainAt(c: Crypto, s: System, events: seq<Event>, k: nat): seq<Block>
    requires k <= |events|
  {
    Run(c, s, events[..k]).ledger.chain
  }

  // ---- Two-phase commit under interleaving ----

  /** `id` was begun at step i with block `b` and `peers` verifiers, against the ledger of that moment. */
  ghost predicate BegunAt(c: Crypto, s: System, events: seq<Event>, i: nat, id: nat, b: Block, snap: Snapshot,
                          peers: nat) {
    i < |events| && events[i] == Begin(id, b, peers) && snap == SnapshotOf(Run(c, s, events[..i]).ledger)
  }

  /** The votes on `id`, begun at i, were counted at step j, on a possibly stale snapshot, making `voted`. */
  ghost predicate CountedAt(c: Crypto, s: System, events: seq<Event>, i: nat, j: nat, id: nat, voted: Block,
                            accepted: nat, total: nat) {
    && i < j < |events| && events[j].Count? && events[j].id == id
    && events[i].Begin? && BegunAt(c, s, events, i, id, events[i].block, SnapshotOf(Run(c, s, events[..i]).ledger),
        events[i].peers)
    && |events[j].peerVotes| == events[i].peers && total == events[i].peers + 1
    && Tallied(c, SnapshotOf(Run(c, s, events[..i]).ledger), events[i].block, events[j].peerVotes, voted, accepted)
  }

  /** `voted` is the block with the votes given merged in, each new verifier's as it gave it, and
      `accepted` their number: this node's, if the block is valid on the snapshot, and the peers' that accept. */
  ghost predicate Tallied(c: Crypto, snap: Snapshot, b: Block, peerVotes: seq<bool>, voted: Block, accepted: nat) {
    var valid := VerifyBlock(c, snap, b).Ok?;
    && Body(voted) == Body(b)
    && accepted == (if valid then 1 else 0) + |set k | 0 <= k < |peerVotes| && peerVotes[k]|
    && (!HasPeer(b.verifications, "local") ==> BlockVerification("local", valid) in voted.verifications)
    && forall k :: 0 <= k < |peerVotes| && !HasPeer(b.verifications, PeerName(k)) ==>
         BlockVerification(PeerName(k), peerVotes[k]) in voted.verifications
         && PeerName(k) in voted.blockVerifications && voted.blockVerifications[PeerName(k)] == peerVotes[k]
  }

  lemma CastVotesTallies(c: Crypto, vals: ValidatorMap, snap: Snapshot, b: Block, peerVotes: seq<bool>)
    ensures var (voted, accepted) := CastVotes(c, vals, snap, b, peerVotes);
            Tallied(c, snap, b, peerVotes, voted, accepted)
  {
    hide CastVotes, VerifyBlock, HasPeer, PeerName;
    VotesCountExactly(c, vals, snap, b, peerVotes);
    CastVotesKeepsBody(c, vals, snap, b, peerVotes);
  }

  /** How one event can change a call. */
  lemma CallStep(c: Crypto, s: System, e: Event, id: nat)
    requires id in Next(c, s, e).calls
    ensures match Next(c, s, e).calls[id]
            case Polling(b, snap, peers) =>
              (id in s.calls && s.calls[id] == Polling(b, snap, peers))
              || (e == Begin(id, b, peers) && snap == SnapshotOf(s.ledger))
            case Polled(b, accepted, total) =>
              (id in s.calls && s.calls[id] == Polled(b, accepted, total))
              || (id in s.calls && s.calls[id].Polling? && e.Count? && e.id == id && |e.peerVotes| == s.calls[id].peers
                  && total == |e.peerVotes| + 1
                  && CastVotes(c, s.validators, s.calls[id].snap, s.calls[id].block, e.peerVotes) == (b, accepted))
            case Returned => true
  {}

  lemma {:induction false} PollingHasHistory(c: Crypto, s: System, events: seq<Event>, k: nat, id: nat) returns (i: nat)
    requires s.calls == map[] && k <= |events|
    requires id in Run(c, s, events[..k]).calls && Run(c, s, events[..k]).calls[id].Polling?
    ensures var call := Run(c, s, events[..k]).calls[id];
            i < k && BegunAt(c, s, events, i, id, call.block, call.snap, call.peers)
    decreases k
  {
    assert events[..0] == [];
    assert k > 0;
    RunStep(c, s, events, k - 1);
    var before, e := Run(c, s, events[..k - 1]), events[k - 1];
    CallStep(c, before, e, id);
    if id in before.calls && before.calls[id] == Run(c, s, events[..k]).calls[id] {
      i := PollingHasHistory(c, s, events, k - 1, id);
    } else {
      i := k - 1;
    }
  }

  lemma {:induction false} PolledHasHistory(c: Crypto, s: System, events: seq<Event>, k: nat, id: nat)
    returns (i: nat, j: nat)
    requires s.calls == map[] && k <= |events|
    requires id in Run(c, s, events[..k]).calls && Run(c, s, events[..k]).calls[id].Polled?
    ensures var call := Run(c, s, events[..k]).calls[id];
            i < j < k && CountedAt(c, s, events, i, j, id, call.block, call.accepted, call.total)
    decreases k
  {
    assert events[..0] == [];
    assert k > 0;
    RunStep(c, s, events, k - 1);
    var before, e := Run(c, s, events[..k - 1]), events[k - 1];
    CallStep(c, before, e, id);
    if before.calls[id].Polled? {
      i, j := PolledHasHistory(c, s, events, k - 1, id);
    } else {
      i := PollingHasHistory(c, s, events, k - 1, id);
      j := k - 1;
      hide CastVotes, Tallied;
      CastVotesTallies(c, before.validators, before.calls[id].snap, before.calls[id].block, e.peerVotes);
    }
  }

  /** Whatever happened between a call's snapshot, its votes and its turn at the lock: if its turn
      appends a block, that block carries the votes given for it, a strict majority of all who voted, this
      node and its peers, accepted it, and it is valid, with all senders present, against the very ledger it joins. */
  lemma AppendedBlocksAreVotedAndValid(c: Crypto, s: System, events: seq<Event>, k: nat)
    requires s.calls == map[] && k < |events| && events[k].Conclude?
    requires |ChainAt(c, s, events, k + 1)| > |ChainAt(c, s, events, k)|
    ensures exists i, j, b, accepted, total ::
      && 0 <= i < j < k
      && CountedAt(c, s, events, i, j, events[k].id, b, accepted, total)
      && 2 * accepted > total
      && VerifyBlock(c, SnapshotOf(Run(c, s, events[..k]).ledger), b).Ok?
      && SendersExist(Run(c, s, events[..k]).ledger.accounts, b.transactions)
      && ChainAt(c, s, events, k + 1) == ChainAt(c, s, events, k) + [b]
  {
    RunStep(c, s, events, k);
    var before, id := Run(c, s, events[..k]), events[k].id;
    var call := before.calls[id];
    var i, j := PolledHasHistory(c, s, events, k, id);
    assert CountedAt(c, s, events, i, j, id, call.block, call.accepted, call.total);
    CommitIsAllOrNothing(c, before.ledger, call.block);
  }

  /** A call with its votes counted appends its block at its turn if and only if a strict majority accepted
      it, it is valid against the ledger of that moment, and its senders have accounts there. */
  lemma TurnAppendsExactly(c: Crypto, s: System, events: seq<Event>, k: nat)
    requires k < |events| && events[k].Conclude?
    requires events[k].id in Run(c, s, events[..k]).calls && Run(c, s, events[..k]).calls[events[k].id].Polled?
    ensures var before, after := Run(c, s, events[..k]), Run(c, s, events[..k + 1]);
            var call := before.calls[events[k].id];
            var joins := VerifyBlock(c, SnapshotOf(before.ledger), call.block).Ok?
                         && SendersExist(before.ledger.accounts, call.block.transactions);
            && (2 * call.accepted > call.total && joins ==> after.ledger.chain == before.ledger.chain + [call.block])
            && (2 * call.accepted > call.total && !joins ==> after.ledger == before.ledger)
            && (2 * call.accepted <= call.total ==>
                  after.ledger == Penalise(before.ledger, call.block.miner, call.block.reward))
  {
    hide Consensus.Conclude, VerifyBlock, SendersExist, Penalise, Commit;
    RunStep(c, s, events, k);
    var before := Run(c, s, events[..k]);
    var call := before.calls[events[k].id];
    ConcludesExactly(c, before.ledger, call.block, call.accepted, call.total);
  }

  /** Nothing in `events` is a step of call `id`. */
  ghost predicate Spares(events: seq<Event>, id: nat) {
    forall i :: 0 <= i < |events| ==> !(events[i].Count? && events[i].id == id)
                                      && !(events[i].Conclude? && events[i].id == id)
  }

  lemma {:induction false} CallWaits(c: Crypto, s: System, events: seq<Event>, id: nat)
    requires id in s.calls && Spares(events, id)
    ensures id in Run(c, s, events).calls && Run(c, s, events).calls[id] == s.calls[id]
  {
    hide CastVotes, Consensus.Conclude;
    if events != [] { CallWaits(c, s, events[..|events| - 1], id); }
  }

  lemma CallWaitsAfter(c: Crypto, s: System, e: Event, events: seq<Event>, id: nat)
    requires id in Next(c, s, e).calls && Spares(events, id)
    ensures var call := Next(c, s, e).calls[id];
            id in Run(c, s, [e] + events).calls && Run(c, s, [e] + events).calls[id] == call
  {
    hide Next;
    RunConcat(c, s, [e], events);
    RunOne(c, s, e);
    CallWaits(c, Next(c, s, e), events, id);
  }

  /** Whatever goes on between the steps of a call, its turn comes to this: more than half of this node, on
      the snapshot it took, and of its peers accepted, and then the block, with their votes, is appended
      if it is valid on the ledger of that moment with its senders present, and otherwise nothing happens;
      or not, and then the miner pays the penalty. */
  lemma InterleavedCall(c: Crypto, s: System, id: nat, b: Block, peers: seq<bool>, x: seq<Event>, y: seq<Event>)
    requires id !in s.calls && Spares(x, id) && Spares(y, id)
    ensures var before := Run(c, Run(c, s, [Begin(id, b, |peers|)] + x), [Count(id, peers)] + y);
            var l, after := before.ledger, Run(c, before, [Conclude(id)]).ledger;
            var valid := VerifyBlock(c, SnapshotOf(s.ledger), b).Ok?;
            var votes := (if valid then 1 else 0) + |set k | 0 <= k < |peers| && peers[k]|;
            var joins := VerifyBlock(c, SnapshotOf(l), b).Ok? && SendersExist(l.accounts, b.transactions);
            && (2 * votes <= |peers| + 1 ==> after == Penalise(l, b.miner, b.reward))
            && (2 * votes > |peers| + 1 && !joins ==> after == l)
            && (2 * votes > |peers| + 1 && joins ==>
                  |after.chain| == |l.chain| + 1 && after.chain[..|l.chain|] == l.chain
                  && Tallied(c, SnapshotOf(s.ledger), b, peers, after.chain[|l.chain|], votes))
  {
    hide CastVotes, Consensus.Conclude, VerifyBlock, SendersExist, Penalise, Commit, Tallied, Body, Spares;
    var polled := Run(c, s, [Begin(id, b, |peers|)] + x);
    CallWaitsAfter(c, s, Begin(id, b, |peers|), x, id);
    var before := Run(c, polled, [Count(id, peers)] + y);
    CallWaitsAfter(c, polled, Count(id, peers), y, id);
    var snap := SnapshotOf(s.ledger);
    var (voted, accepted) := CastVotes(c, polled.validators, snap, b, peers);
    assert before.calls[id] == Polled(voted, accepted, |peers| + 1);
    CastVotesTallies(c, polled.validators, snap, b, peers);
    VotesCountExactly(c, polled.validators, snap, b, peers);
    CastVotesKeepsBody(c, polled.validators, snap, b, peers);
    VerifyIgnoresVotes(c, SnapshotOf(before.ledger), voted, b);
    BodyFields(voted, b);
    RunOne(c, before, Conclude(id));
    ConcludesExactly(c, before.ledger, voted, accepted, |peers| + 1);
  }

  /** The registry is the last one set. */
  lemma {:induction false} LastRegistryHolds(c: Crypto, s: System, validators: ValidatorMap, events: seq<Event>)
    requires forall i :: 0 <= i < |events| ==> !events[i].SetValidators?
    ensures Run(c, s, [SetValidators(validators)] + events).validators == validators
  {
    if events == [] {
      assert [SetValidators(validators)] + events == [SetValidators(validators)];
      RunOne(c, s, SetValidators(validators));
    } else {
      hide CastVotes, Consensus.Conclude;
      var es := [SetValidators(validators)] + events;
      assert es[..|es| - 1] == [SetValidators(validators)] + events[..|events| - 1];
      LastRegistryHolds(c, s, validators, events[..|events| - 1]);
    }
  }

  /** A call whose turn appends nothing leaves the ledger as it was, unless it lost its vote, when
      its miner pays the penalty and nothing else changes. */
  lemma FailedTurnsChangeNothing(c: Crypto, s: System, events: seq<Event>, k: nat)
    requires k < |events| && events[k].Conclude?
    requires |ChainAt(c, s, events, k + 1)| <= |ChainAt(c, s, events, k)|
    ensures var before, after := Run(c, s, events[..k]), Run(c, s, events[..k + 1]);
            || after.ledger == before.ledger
            || (events[k].id in before.calls && before.calls[events[k].id].Polled? &&
                var call := before.calls[events[k].id];
                2 * call.accepted <= call.total
                    && after.ledger == Penalise(before.ledger, call.block.miner, call.block.reward))
  {
    RunStep(c, s, events, k);
    var before, id := Run(c, s, events[..k]), events[k].id;
    if id in before.calls && before.calls[id].Polled? {
      CommitIsAllOrNothing(c, before.ledger, before.calls[id].block);
    }
  }

  // ---- How a chain evolves without replacement ----

  /** The event replaces the whole chain: a full chain is offered, passes the guard and rebuilds. */
  predicate Replaces(c: Crypto, s: System, e: Event) {
    e.SyncWith? && e.blocks != [] && e.blocks[0].index == 0 && ReplaceChain(c, s.ledger, e.blocks).1.None?
  }

  /** No event of the run replaces the chain; refused offers are allowed. */
  ghost predicate NeverReplaced(c: Crypto, s: System, events: seq<Event>) {
    forall i :: 0 <= i < |events| ==> !Replaces(c, Run(c, s, events[..i]), events[i])
  }

  lemma NeverReplacedStep(c: Crypto, s: System, events: seq<Event>)
    requires NeverReplaced(c, s, events) && events != []
    ensures var earlier := events[..|events| - 1];
            NeverReplaced(c, s, earlier) && !Replaces(c, Run(c, s, earlier), events[|events| - 1])
  {
    hide Replaces;
    var earlier := events[..|events| - 1];
    forall i | 0 <= i < |earlier| ensures !Replaces(c, Run(c, s, earlier[..i]), earlier[i]) {
      assert earlier[..i] == events[..i];
    }
  }

  /** The same block, or the same block newly final. */
  predicate Hardened(a: Block, b: Block) {
    b == a.(finalized := b.finalized) && (a.finalized ==> b.finalized)
  }

  /** At one height: confirmations no weaker, and stronger for another block, unless both are final. */
  predicate Improves(a: Block, b: Block) {
    KeyAtMost(a, b) && (a.hash != b.hash ==> KeyLess(a, b) || (a.finalized && b.finalized))
  }

  /** No shorter; buried blocks the same but for becoming final; and at the height of the old tip,
      buried by now or not, a block that improves on it. */
  ghost predicate Evolves(a: seq<Block>, b: seq<Block>) {
    && |a| <= |b|
    && (forall k :: 0 <= k < |a| - 1 ==> Hardened(a[k], b[k]))
    && (a != [] ==> Improves(a[|a| - 1], b[|a| - 1]))
  }

  lemma ImprovesTransitive(a: Block, b: Block, d: Block)
    requires Improves(a, b) && Improves(b, d)
    ensures Improves(a, d)
  {}

  lemma HardenedImproves(a: Block, b: Block)
    requires Hardened(a, b)
    ensures Improves(a, b)
  {}

  lemma EvolvesTransitive(a: seq<Block>, b: seq<Block>, d: seq<Block>)
    requires Evolves(a, b) && Evolves(b, d)
    ensures Evolves(a, d)
  {
    forall k | 0 <= k < |a| - 1 ensures Hardened(a[k], d[k]) {
      assert Hardened(a[k], b[k]) && Hardened(b[k], d[k]);
    }
    if a != [] {
      var t := |a| - 1;
      if t < |b| - 1 { HardenedImproves(b[t], d[t]); }
      ImprovesTransitive(a[t], b[t], d[t]);
    }
  }

  lemma {:induction false} AppendExtends(c: Crypto, vals: ValidatorMap, l: Ledger, blocks: seq<Block>)
    ensures l.chain <= AppendBlocks(c, vals, l, blocks).0.chain
    decreases |blocks|
  {
    if blocks != [] {
      AddBlockAlone(c, vals, l, blocks[0]);
      AppendExtends(c, vals, AddBlock(c, vals, l, blocks[0], []).0, blocks[1..]);
    }
  }

  lemma ExtensionEvolves(a: seq<Block>, b: seq<Block>)
    requires a <= b
    ensures Evolves(a, b)
  {}

  lemma ConcludeExtends(c: Crypto, l: Ledger, b: Block, accepted: nat, total: nat)
    ensures l.chain <= Consensus.Conclude(c, l, b, accepted, total).0.chain
  {
    CommitIsAllOrNothing(c, l, b);
  }

  lemma ForkEvolves(c: Crypto, vals: ValidatorMap, l: Ledger, candidate: Block)
    requires l.chain != []
    ensures Evolves(l.chain, ResolveFork(c, vals, l, candidate).0.chain)
  {
    hide ResolveFork;
    ForkImprovesTip(c, vals, l, candidate);
    var (after, outcome) := ResolveFork(c, vals, l, candidate);
    if outcome.Adopted? {
      assert after.chain == l.chain[..|l.chain| - 1] + [outcome.block];
    } else {
      ExtensionEvolves(l.chain, after.chain);
    }
  }

  lemma ConfirmEvolves(l: Ledger, b: Block)
    requires l.chain != []
    ensures Evolves(l.chain, FinalizeExisting(l, b).0.chain)
  {
    hide FinalizeExisting;
    FinalizeExistingTouchesOneFlag(l, b);
    var after := FinalizeExisting(l, b).0.chain;
    forall k | 0 <= k < |after| ensures Hardened(l.chain[k], after[k]) {}
    HardenedImproves(l.chain[|l.chain| - 1], after[|after| - 1]);
  }

  lemma SyncExtends(c: Crypto, s: System, blocks: seq<Block>)
    requires !Replaces(c, s, SyncWith(blocks))
    ensures s.ledger.chain <= ApplySynced(c, s.validators, s.ledger, blocks).0.chain
  {
    hide AppendBlocks, Rebuild;
    AppendExtends(c, s.validators, s.ledger, blocks);
  }

  lemma NextEvolves(c: Crypto, s: System, e: Event)
    requires s.ledger.chain != [] && !Replaces(c, s, e)
    ensures Evolves(s.ledger.chain, Next(c, s, e).ledger.chain)
  {
    hide ResolveFork, ApplySynced, FinalizeExisting, Evolves, Consensus.Conclude;
    var before, after := s.ledger.chain, Next(c, s, e).ledger.chain;
    match e
    case Conclude(id) =>
      if id in s.calls && s.calls[id].Polled? {
        ConcludeExtends(c, s.ledger, s.calls[id].block, s.calls[id].accepted, s.calls[id].total);
      }
      ExtensionEvolves(before, after);
    case Fork(candidate) => ForkEvolves(c, s.validators, s.ledger, candidate);
    case SyncWith(blocks) =>
      SyncExtends(c, s, blocks);
      ExtensionEvolves(before, after);
    case Confirm(block) => ConfirmEvolves(s.ledger, block);
    case _ => ExtensionEvolves(before, after);
  }

  /** In any run without chain replacement the chain never gets shorter, buried blocks never change
      but for becoming final, and at every height the confirmations never get weaker, and get
      stronger when another block takes the place, unless both are final. */
  lemma {:induction false} ForkChoiceOnlyImproves(c: Crypto, s: System, events: seq<Event>, i: nat, j: nat)
    requires s.ledger.chain != [] && NeverReplaced(c, s, events) && i <= j <= |events|
    ensures ChainAt(c, s, events, i) != []
    ensures Evolves(ChainAt(c, s, events, i), ChainAt(c, s, events, j))
    decreases j
  {
    if j == 0 {
      StaysTheSame(s.ledger.chain);
      assert events[..0] == [];
    } else {
      hide Next, Replaces, Improves, Hardened;
      RunStep(c, s, events, j - 1);
      ForkChoiceOnlyImproves(c, s, events, if i < j then i else i - 1, j - 1);
      NextEvolves(c, Run(c, s, events[..j - 1]), events[j - 1]);
      if i < j {
        EvolvesTransitive(ChainAt(c, s, events, i), ChainAt(c, s, events, j - 1), ChainAt(c, s, events, j));
      } else {
        StaysTheSame(ChainAt(c, s, events, j));
      }
    }
  }

  lemma StaysTheSame(chain: seq<Block>)
    ensures Evolves(chain, chain)
  {}

  /** Whatever two events of a run without chain replacement append, by a call's turn or by
      synchronising, the blocks of the later stand at greater heights. */
  lemma OneAppendPerHeight(c: Crypto, s: System, events: seq<Event>, i: nat, j: nat, p: nat, q: nat)
    requires Shaped(c, s.ledger) && NeverReplaced(c, s, events)
    requires i < j < |events|
    requires |ChainAt(c, s, events, i)| <= p < |ChainAt(c, s, events, i + 1)|
    requires |ChainAt(c, s, events, j)| <= q < |ChainAt(c, s, events, j + 1)|
    ensures ChainAt(c, s, events, i + 1)[p].index == p < q == ChainAt(c, s, events, j + 1)[q].index
  {
    hide Next, Linked, NonceHistory, Replaces, NeverReplaced;
    RunKeepsShape(c, s, events[..i + 1]);
    RunKeepsShape(c, s, events[..j + 1]);
    ForkChoiceOnlyImproves(c, s, events, i + 1, j);
  }

  // ---- The difficulty schedule ----

  lemma ScheduleExtends(chain: seq<Block>, b: Block)
    requires FollowsSchedule(chain) && (chain != [] ==> Clamp(b.difficulty) == ExpectedDifficulty(chain))
    ensures FollowsSchedule(chain + [b])
  {
    hide Clamp, ExpectedDifficulty;
    var longer := chain + [b];
    forall i | 0 < i < |longer| ensures Clamp(longer[i].difficulty) == ExpectedDifficulty(longer[..i]) {
      assert longer[..i] == if i < |chain| then chain[..i] else chain;
    }
  }

  lemma SchedulePrefix(chain: seq<Block>, n: nat)
    requires FollowsSchedule(chain) && n <= |chain|
    ensures FollowsSchedule(chain[..n])
  {
    forall i | 0 < i < n ensures Clamp(chain[..n][i].difficulty) == ExpectedDifficulty(chain[..n][..i]) {
      assert chain[..n][..i] == chain[..i];
    }
  }

  lemma {:induction false} AppendFollowsSchedule(c: Crypto, vals: ValidatorMap, l: Ledger, blocks: seq<Block>)
    requires FollowsSchedule(l.chain)
    ensures FollowsSchedule(AppendBlocks(c, vals, l, blocks).0.chain)
    decreases |blocks|
  {
    if blocks != [] {
      var (next, voted, error) := AddBlock(c, vals, l, blocks[0], []);
      AddBlockAlone(c, vals, l, blocks[0]);
      if error.None? {
        BodyFields(voted, blocks[0]);
        ScheduleExtends(l.chain, voted);
      }
      AppendFollowsSchedule(c, vals, next, blocks[1..]);
    }
  }

  lemma ForkFollowsSchedule(c: Crypto, vals: ValidatorMap, l: Ledger, candidate: Block)
    requires FollowsSchedule(l.chain)
    ensures FollowsSchedule(ResolveFork(c, vals, l, candidate).0.chain)
  {
    hide ResolveFork, Clamp, ExpectedDifficulty;
    ForkImprovesTip(c, vals, l, candidate);
    var (after, outcome) := ResolveFork(c, vals, l, candidate);
    if outcome.Adopted? {
      var base := l.chain[..|l.chain| - 1];
      SchedulePrefix(l.chain, |l.chain| - 1);
      AdoptedOnSchedule(c, vals, l, candidate);
      ScheduleExtends(base, outcome.block);
    }
  }

  lemma FinalizeFollowsSchedule(l: Ledger, b: Block)
    requires FollowsSchedule(l.chain)
    ensures FollowsSchedule(FinalizeExisting(l, b).0.chain)
  {
    FinalizeExistingTouchesOneFlag(l, b);
    var after := FinalizeExisting(l, b).0.chain;
    forall i | 0 < i < |after| ensures Clamp(after[i].difficulty) == ExpectedDifficulty(after[..i]) {
      SameDifficulties(l.chain[..i], after[..i]);
    }
  }

  lemma SameDifficulties(a: seq<Block>, b: seq<Block>)
    requires |a| == |b| && forall i :: 0 <= i < |a| ==> b[i] == a[i].(finalized := b[i].finalized)
    ensures ExpectedDifficulty(a) == ExpectedDifficulty(b)
  {
    if a != [] {
      assert b[|b| - 1] == a[|a| - 1].(finalized := b[|b| - 1].finalized);
    }
  }

  lemma ConcludeFollowsSchedule(c: Crypto, l: Ledger, b: Block, accepted: nat, total: nat)
    requires FollowsSchedule(l.chain)
    ensures FollowsSchedule(Consensus.Conclude(c, l, b, accepted, total).0.chain)
  {
    hide FollowsSchedule;
    CommitIsAllOrNothing(c, l, b);
    if Commit(c, l, b).1.None? { ScheduleExtends(l.chain, b); }
  }

  lemma SyncFollowsSchedule(c: Crypto, s: System, blocks: seq<Block>)
    requires FollowsSchedule(s.ledger.chain) && !Replaces(c, s, SyncWith(blocks))
    ensures FollowsSchedule(ApplySynced(c, s.validators, s.ledger, blocks).0.chain)
  {
    hide FollowsSchedule, AppendBlocks, Rebuild;
    AppendFollowsSchedule(c, s.validators, s.ledger, blocks);
  }

  lemma NextFollowsSchedule(c: Crypto, s: System, e: Event)
    requires FollowsSchedule(s.ledger.chain) && !Replaces(c, s, e)
    ensures FollowsSchedule(Next(c, s, e).ledger.chain)
  {
    hide FollowsSchedule, ResolveFork, FinalizeExisting, ApplySynced, Consensus.Conclude;
    match e
    case Conclude(id) =>
      if id in s.calls && s.calls[id].Polled? {
        ConcludeFollowsSchedule(c, s.ledger, s.calls[id].block, s.calls[id].accepted, s.calls[id].total);
      }
    case Fork(candidate) => ForkFollowsSchedule(c, s.validators, s.ledger, candidate);
    case SyncWith(blocks) => SyncFollowsSchedule(c, s, blocks);
    case Confirm(block) => FinalizeFollowsSchedule(s.ledger, block);
    case _ =>
  }

  lemma {:induction false} RunFollowsSchedule(c: Crypto, s: System, events: seq<Event>)
    requires FollowsSchedule(s.ledger.chain) && NeverReplaced(c, s, events)
    ensures FollowsSchedule(Run(c, s, events).ledger.chain)
  {
    if events != [] {
      hide Next, Replaces, FollowsSchedule, NeverReplaced;
      var earlier := events[..|events| - 1];
      NeverReplacedStep(c, s, events);
      RunFollowsSchedule(c, s, earlier);
      NextFollowsSchedule(c, Run(c, s, earlier), events[|events| - 1]);
    }
  }

  /** One difficulty per window of 2016 blocks, retargeted from the window before. */
  ghost predicate WindowLaw(chain: seq<Block>) {
    && (forall i, j :: 0 <= i < |chain| && 0 <= j < |chain| && i / ADJUSTMENT_WINDOW == j / ADJUSTMENT_WINDOW ==>
          Clamp(chain[i].difficulty) == Clamp(chain[j].difficulty))
    && (forall i :: 0 < i < |chain| && i % ADJUSTMENT_WINDOW == 0 ==> Retargeted(chain, i))
  }

  ghost predicate Retargeted(chain: seq<Block>, i: nat)
    requires i < |chain|
  {
    i >= ADJUSTMENT_WINDOW &&
    Clamp(chain[i].difficulty) == CalculateNewDifficulty(Some(chain[i - 1]), Some(chain[i - ADJUSTMENT_WINDOW]))
  }

  lemma WindowLawHolds(chain: seq<Block>)
    requires FollowsSchedule(chain) && Positioned(chain)
    ensures WindowLaw(chain)
  {
    forall i, j | 0 <= i < |chain| && 0 <= j < |chain| && i / ADJUSTMENT_WINDOW == j / ADJUSTMENT_WINDOW
      ensures Clamp(chain[i].difficulty) == Clamp(chain[j].difficulty)
    {
      WindowedDifficulty(chain, i, j);
    }
    forall i | 0 < i < |chain| && i % ADJUSTMENT_WINDOW == 0 ensures Retargeted(chain, i) {
      WindowedDifficulty(chain, i, i);
    }
  }

  /** Every chain grown from genesis without replacement: blocks numbered by position, linked, with
      recomputable hashes that meet their declared difficulty and sequenced transactions, and one
      difficulty per window. */
  lemma ChainsAreWellFormed(c: Crypto, genesis: Block, founder: string, validators: ValidatorMap, limit: nat,
                            events: seq<Event>)
    requires IsGenesis(c, genesis, founder)
             && NeverReplaced(c, GenesisSystem(genesis, founder, validators, limit), events)
    ensures var chain := Run(c, GenesisSystem(genesis, founder, validators, limit), events).ledger.chain;
            Positioned(chain) && Linked(c, chain) && WindowLaw(chain)
  {
    var s := GenesisSystem(genesis, founder, validators, limit);
    GenesisSound(c, genesis, founder);
    RunKeepsShape(c, s, events);
    RunFollowsSchedule(c, s, events);
    WindowLawHolds(Run(c, s, events).ledger.chain);
  }
}
