/** Replacing the chain tip by a better-confirmed sibling, and marking blocks final. */
module ForkChoice {
  import opened Models
  import opened Sorting
  import opened Difficulty
  import opened AccountMath
  import opened Votes
  import opened Consensus
  import opened Replay

  datatype ForkError =
    | MissingPeerId
    | DuplicatePeerVote(peer: string)
    | BaseReplayFailed(replayError: ReplayError)
    | CandidateInvalid(verifyError: VerifyError)
    | CandidateNotAdded(addError: AddError)

  datatype ForkOutcome = Kept | Adopted(block: Block) | ForkFailed(error: ForkError)

  /** The first vote without a peer name, or repeating a peer, is an error. */
  function CheckPeers(votes: seq<BlockVerification>, seen: set<string>): Option<ForkError> {
    if votes == [] then None
    else if votes[0].peer == "" then Some(MissingPeerId)
    else if votes[0].peer in seen then Some(DuplicatePeerVote(votes[0].peer))
    else CheckPeers(votes[1..], seen + {votes[0].peer})
  }

  /** Whether the candidate's confirmations beat the tip's. */
  predicate Preferred(tip: Block, candidate: Block) {
    var tipAccepted, candidateAccepted := CountAccepted(tip.verifications), CountAccepted(candidate.verifications);
    if tip.finalized && !candidate.finalized then false
    else if candidate.finalized then !(tip.finalized && candidateAccepted < tipAccepted)
    else candidateAccepted > tipAccepted
  }

  predicate Contends(chain: seq<Block>, candidate: Block) {
    |chain| >= 2 &&
    var tip, parent := chain[|chain| - 1], chain[|chain| - 2];
    candidate.index == tip.index && candidate.hash != tip.hash && candidate.prevHash == parent.hash
    && Preferred(tip, candidate)
  }

  /** Verifies the candidate on the rebuilt base and adds it there. */
  function JoinRebuilt(c: Crypto, vals: ValidatorMap, rebuilt: Ledger, candidate: Block): (Ledger, ForkOutcome) {
    match VerifyOnLedger(c, rebuilt, candidate)
    case Err(e) => (rebuilt, ForkFailed(CandidateInvalid(e)))
    case Ok(_) =>
      var (after, voted, error) := AddBlock(c, vals, rebuilt, candidate, []);
      (after, match error case Some(e) => ForkFailed(CandidateNotAdded(e)) case None => Adopted(voted))
  }

  function ResolveFork(c: Crypto, vals: ValidatorMap, l: Ledger, candidate: Block): (Ledger, ForkOutcome) {
    if !Contends(l.chain, candidate) then (l, Kept)
    else
      match CheckPeers(candidate.verifications, {})
      case Some(e) => (l, ForkFailed(e))
      case None =>
        match Rebuild(c, l.chain[..|l.chain| - 1])
        case Err(e) => (l, ForkFailed(BaseReplayFailed(e)))
        case Ok(rebuilt) =>
          var (after, outcome) := JoinRebuilt(c, vals, rebuilt, candidate);
          if outcome.Adopted? then (after.(mempool := l.mempool), outcome) else (l, outcome)
  }

  // ---- The order on confirmations ----

  predicate KeyLess(a: Block, b: Block) {
    (!a.finalized && b.finalized) ||
    (a.finalized == b.finalized && CountAccepted(a.verifications) < CountAccepted(b.verifications))
  }

  predicate KeyAtMost(a: Block, b: Block) {
    KeyLess(a, b) || (a.finalized == b.finalized && CountAccepted(a.verifications) == CountAccepted(b.verifications))
  }

  predicate Named(votes: seq<BlockVerification>) {
    forall i :: 0 <= i < |votes| ==> votes[i].peer != ""
  }

  /** A failed peer check reports the first voter that is unnamed or votes again, and which of the two. */
  lemma PeerErrorIsFirst(votes: seq<BlockVerification>)
    ensures CheckPeers(votes, {}).Some? ==>
              exists i :: 0 <= i < |votes| && DistinctPeers(votes[..i]) && Named(votes[..i])
                          && BlamesVoter(votes[..i], votes[i], CheckPeers(votes, {}).value)
  {
    assert votes[0..] == votes;
    if CheckPeers(votes, {}).Some? { var _ := FirstBadVoter(votes, 0, {}); }
  }

  predicate BlamesVoter(earlier: seq<BlockVerification>, v: BlockVerification, error: ForkError) {
    if v.peer == "" then error == MissingPeerId
    else HasPeer(earlier, v.peer) && error == DuplicatePeerVote(v.peer)
  }

  lemma {:induction false} FirstBadVoter(votes: seq<BlockVerification>, n: nat, seen: set<string>) returns (i: nat)
    requires n <= |votes| && CheckPeers(votes[n..], seen).Some?
    requires DistinctPeers(votes[..n]) && Named(votes[..n])
    requires forall p :: p in seen <==> HasPeer(votes[..n], p)
    ensures n <= i < |votes| && DistinctPeers(votes[..i]) && Named(votes[..i])
    ensures BlamesVoter(votes[..i], votes[i], CheckPeers(votes[n..], seen).value)
    decreases |votes| - n
  {
    var v := votes[n..][0];
    if v.peer == "" || v.peer in seen {
      i := n;
    } else {
      assert votes[n..][1..] == votes[n + 1..] && votes[..n + 1] == votes[..n] + [v];
      forall p ensures p in seen + {v.peer} <==> HasPeer(votes[..n + 1], p) {
        HasPeerAppend(votes[..n], v, p);
      }
      forall k | 0 <= k < n ensures votes[k].peer != v.peer {
        assert votes[..n][k] == votes[k];
      }
      i := FirstBadVoter(votes, n + 1, seen + {v.peer});
    }
  }

  /** The peer check passes exactly when every voter is named, none votes twice, and none is in `seen`. */
  lemma {:induction false} PeersPassExactly(votes: seq<BlockVerification>, seen: set<string>)
    ensures CheckPeers(votes, seen).None? <==>
              DistinctPeers(votes) && Named(votes) && forall i :: 0 <= i < |votes| ==> votes[i].peer !in seen
  {
    if votes != [] {
      PeersPassExactly(votes[1..], seen + {votes[0].peer});
      assert forall i :: 0 < i < |votes| ==> votes[i] == votes[1..][i - 1];
      assert forall i :: 0 <= i < |votes[1..]| ==> votes[1..][i] == votes[i + 1];
    }
  }

  /** Merging this node's vote never loses confirmations of a candidate with distinct voters. */
  lemma MergeKeepsConfirmations(c: Crypto, vals: ValidatorMap, snap: Snapshot, b: Block, peers: seq<bool>)
    requires DistinctPeers(b.verifications)
    ensures KeyAtMost(b, CastVotes(c, vals, snap, b, peers).0)
  {
    var results := VoteResults(VerifyBlock(c, snap, b).Ok?, peers);
    DistinctVotesAllFirst(b.verifications);
    CountAppend(b.verifications, Unseen(Sort(results, ByPeer()), b.verifications));
  }

  /** What joining a candidate to a rebuilt base amounts to when it succeeds. */
  lemma JoinedBlock(c: Crypto, vals: ValidatorMap, rebuilt: Ledger, candidate: Block)
    requires JoinRebuilt(c, vals, rebuilt, candidate).1.Adopted?
    ensures var (after, voted, error) := AddBlock(c, vals, rebuilt, candidate, []);
            && JoinRebuilt(c, vals, rebuilt, candidate) == (after, Adopted(voted)) && error.None?
            && after.chain == rebuilt.chain + [voted] && Commit(c, rebuilt, voted) == (after, None)
            && Body(voted) == Body(candidate)
            && Clamp(candidate.difficulty) == ExpectedDifficulty(rebuilt.chain)
  {
    hide MergeInto, MarkFinalized, ApplyBlock, Simulate;
    AddBlockAlone(c, vals, rebuilt, candidate);
  }

  /** What an adoption went through. */
  lemma AdoptedFork(c: Crypto, vals: ValidatorMap, l: Ledger, candidate: Block)
    requires ResolveFork(c, vals, l, candidate).1.Adopted?
    ensures Contends(l.chain, candidate) && CheckPeers(candidate.verifications, {}).None?
    ensures var base := l.chain[..|l.chain| - 1];
            Rebuild(c, base).Ok? &&
            var rebuilt := Rebuild(c, base).value;
            && rebuilt.chain == base && JoinRebuilt(c, vals, rebuilt, candidate).1.Adopted?
            && ResolveFork(c, vals, l, candidate)
               == (JoinRebuilt(c, vals, rebuilt, candidate).0.(mempool := l.mempool),
                   JoinRebuilt(c, vals, rebuilt, candidate).1)
  {
    hide JoinRebuilt, ReplayFrom;
  }

  lemma VotingKeepsVoters(c: Crypto, vals: ValidatorMap, snap: Snapshot, b: Block)
    requires DistinctPeers(b.verifications) && Named(b.verifications)
    ensures var votes := CastVotes(c, vals, snap, b, []).0.verifications;
            DistinctPeers(votes) && Named(votes) && b.verifications <= votes
  {
    hide VerifyBlock, Sort, Record;
    var valid := VerifyBlock(c, snap, b).Ok?;
    var results := VoteResults(valid, []);
    VoteResultsDistinct(valid, []);
    DistinctVotesAllFirst(b.verifications);
    MergeCorrect(b, results);
    assert results == [BlockVerification(LOCAL, valid)];
    var votes := CastVotes(c, vals, snap, b, []).0.verifications;
    forall i | |b.verifications| <= i < |votes| ensures votes[i].peer != "" {
      assert votes[i] in Unseen(Sort(results, ByPeer()), b.verifications);
    }
  }

  /** Every voter on an adopted block is named, and none votes twice; the candidate's votes come first. */
  lemma AdoptedVotersAreDistinct(c: Crypto, vals: ValidatorMap, l: Ledger, candidate: Block)
    requires ResolveFork(c, vals, l, candidate).1.Adopted?
    ensures var votes := ResolveFork(c, vals, l, candidate).1.block.verifications;
            DistinctPeers(votes) && Named(votes) && candidate.verifications <= votes
  {
    hide ResolveFork, JoinRebuilt, Rebuild, CastVotes, DistinctPeers;
    AdoptedFork(c, vals, l, candidate);
    var rebuilt := Rebuild(c, l.chain[..|l.chain| - 1]).value;
    JoinedBlock(c, vals, rebuilt, candidate);
    PeersPassExactly(candidate.verifications, {});
    VotingKeepsVoters(c, vals, SnapshotOf(rebuilt), candidate);
  }

  /** Adoption swaps the tip alone, for a sibling at the same height whose confirmations, this
      node's own vote merged in, are no weaker, and stronger unless both were already final. */
  lemma ForkImprovesTip(c: Crypto, vals: ValidatorMap, l: Ledger, candidate: Block)
    ensures var (after, outcome) := ResolveFork(c, vals, l, candidate);
            match outcome
            case Adopted(b) =>
              var tip := l.chain[|l.chain| - 1];
              && |l.chain| >= 2 && after.chain == l.chain[..|l.chain| - 1] + [b] && after.mempool == l.mempool
              && Body(b) == Body(candidate) && b.index == tip.index && b.hash != tip.hash
              && b.prevHash == l.chain[|l.chain| - 2].hash
              && KeyAtMost(tip, b)
              && (!(tip.finalized && candidate.finalized) ==> KeyLess(tip, b))
            case _ => after == l
  {
    hide Rebuild, Simulate, ApplyBlock;
    if ResolveFork(c, vals, l, candidate).1.Adopted? {
      var rebuilt := Rebuild(c, l.chain[..|l.chain| - 1]).value;
      AdoptedFork(c, vals, l, candidate);
      JoinedBlock(c, vals, rebuilt, candidate);
      PeersPassExactly(candidate.verifications, {});
      MergeKeepsConfirmations(c, vals, SnapshotOf(rebuilt), candidate, []);
      BodyFields(ResolveFork(c, vals, l, candidate).1.block, candidate);
    }
  }

  /** The candidate is another block of the tip's height and parent, at least as final, with more
      accepted votes, or as many when both are final, or final over a tip that is not. */
  predicate BetterSibling(tip: Block, parent: Block, candidate: Block) {
    && candidate.index == tip.index && candidate.prevHash == parent.hash && candidate.hash != tip.hash
    && if tip.finalized then
         candidate.finalized && CountAccepted(candidate.verifications) >= CountAccepted(tip.verifications)
       else candidate.finalized || CountAccepted(candidate.verifications) > CountAccepted(tip.verifications)
  }

  /** The candidate could have been committed on the chain below the tip. */
  predicate FitsBase(c: Crypto, base: seq<Block>, candidate: Block) {
    Rebuild(c, base).Ok? &&
    var rebuilt := Rebuild(c, base).value;
    VerifyOnLedger(c, rebuilt, candidate).Ok? && SendersExist(rebuilt.accounts, candidate.transactions)
  }

  /** What a candidate has to be to take the tip's place. */
  ghost predicate Displaces(c: Crypto, chain: seq<Block>, candidate: Block) {
    && |chain| >= 2
    && BetterSibling(chain[|chain| - 1], chain[|chain| - 2], candidate)
    && DistinctPeers(candidate.verifications) && Named(candidate.verifications)
    && FitsBase(c, chain[..|chain| - 1], candidate)
  }

  /** On a chain that starts at height 0 the base rebuilds to a ledger with a first block, so a candidate fits
      it if and only if the base rebuilds and the candidate verifies there with its senders present. */
  lemma FitsExactly(c: Crypto, base: seq<Block>, candidate: Block)
    requires base != [] && base[0].index == 0
    ensures FitsBase(c, base, candidate) <==>
              Rebuild(c, base).Ok? &&
              var rebuilt := Rebuild(c, base).value;
              && VerifyBlock(c, SnapshotOf(rebuilt), candidate).Ok?
              && SendersExist(rebuilt.accounts, candidate.transactions)
  {
    hide VerifyBlock, VerifyOnLedger, SendersExist, Shaped, ReplayFrom;
    if Rebuild(c, base).Ok? {
      RebuiltIsShaped(c, base);
      ShapedHasGenesis(c, Rebuild(c, base).value, candidate);
    }
  }

  lemma JoinsExactly(c: Crypto, vals: ValidatorMap, rebuilt: Ledger, candidate: Block)
    ensures JoinRebuilt(c, vals, rebuilt, candidate).1.Adopted? <==>
              VerifyOnLedger(c, rebuilt, candidate).Ok? && SendersExist(rebuilt.accounts, candidate.transactions)
  {
    hide AddBlock, VerifyBlock, SendersExist;
    AddBlockAlone(c, vals, rebuilt, candidate);
  }

  /** A candidate is adopted if and only if it displaces the tip; then, and only then, another block
      hash stands at the tip's height. */
  lemma AdoptedExactly(c: Crypto, vals: ValidatorMap, l: Ledger, candidate: Block)
    ensures var (after, outcome) := ResolveFork(c, vals, l, candidate);
            && (outcome.Adopted? <==> Displaces(c, l.chain, candidate))
            && |after.chain| == |l.chain|
            && (l.chain != [] ==>
                  var tip := |l.chain| - 1;
                  (after.chain[tip].hash != l.chain[tip].hash <==> Displaces(c, l.chain, candidate)))
  {
    hide JoinRebuilt, Rebuild, VerifyOnLedger, SendersExist, CheckPeers, CountAccepted, Body;
    PeersPassExactly(candidate.verifications, {});
    if |l.chain| >= 2 && Rebuild(c, l.chain[..|l.chain| - 1]).Ok? {
      JoinsExactly(c, vals, Rebuild(c, l.chain[..|l.chain| - 1]).value, candidate);
    }
    ForkImprovesTip(c, vals, l, candidate);
  }

  /** A block that is no better-confirmed sibling of the tip is passed over in silence; any other that is
      not adopted is refused for its voters, the base, its own validity or a missing sender, looked at in
      that order, and nothing changes. */
  lemma ForkFailsExactly(c: Crypto, vals: ValidatorMap, l: Ledger, candidate: Block)
    ensures var (after, outcome) := ResolveFork(c, vals, l, candidate);
            var n := |l.chain|;
            var contends := n >= 2 && BetterSibling(l.chain[n - 1], l.chain[n - 2], candidate);
            && (outcome.Kept? <==> !contends) && (!outcome.Adopted? ==> after == l)
            && (contends ==>
                  var voters := DistinctPeers(candidate.verifications) && Named(candidate.verifications);
                  var base := Rebuild(c, l.chain[..n - 1]);
                  && (!voters ==> outcome.ForkFailed? && CheckPeers(candidate.verifications, {}) == Some(outcome.error))
                  && (voters && base.Err? ==> outcome == ForkFailed(BaseReplayFailed(base.error)))
                  && (voters && base.Ok? ==>
                        var verified := VerifyOnLedger(c, base.value, candidate);
                        && (verified.Err? ==> outcome == ForkFailed(CandidateInvalid(verified.error)))
                        && (verified.Ok? && !SendersExist(base.value.accounts, candidate.transactions) ==>
                              outcome == ForkFailed(CandidateNotAdded(NotCommitted(SenderMissing))))))
  {
    hide JoinRebuilt, Rebuild, VerifyOnLedger, SendersExist, CheckPeers, CountAccepted, Body;
    PeersPassExactly(candidate.verifications, {});
    if |l.chain| >= 2 && Rebuild(c, l.chain[..|l.chain| - 1]).Ok? {
      JoinsExactly(c, vals, Rebuild(c, l.chain[..|l.chain| - 1]).value, candidate);
      JoinErrors(c, vals, Rebuild(c, l.chain[..|l.chain| - 1]).value, candidate);
    }
  }

  lemma JoinErrors(c: Crypto, vals: ValidatorMap, rebuilt: Ledger, candidate: Block)
    ensures var verified, outcome := VerifyOnLedger(c, rebuilt, candidate), JoinRebuilt(c, vals, rebuilt, candidate).1;
            && (verified.Err? ==> outcome == ForkFailed(CandidateInvalid(verified.error)))
            && (verified.Ok? && !SendersExist(rebuilt.accounts, candidate.transactions) ==>
                  outcome == ForkFailed(CandidateNotAdded(NotCommitted(SenderMissing))))
  {
    hide AddBlock, VerifyBlock, SendersExist;
    AddsExactly(c, vals, rebuilt, candidate, []);
  }

  /** A final tip is lost if and only if a final sibling with no fewer accepted votes, from named
      voters who each vote once, fits the chain below it: the flag and the votes are the candidate's own. */
  lemma FinalTipLostExactly(c: Crypto, vals: ValidatorMap, l: Ledger, candidate: Block)
    requires |l.chain| >= 2 && l.chain[|l.chain| - 1].finalized
    ensures var after, base := ResolveFork(c, vals, l, candidate).0.chain, l.chain[..|l.chain| - 1];
            var tip, parent := l.chain[|l.chain| - 1], l.chain[|l.chain| - 2];
            |after| == |l.chain| &&
            (after[|l.chain| - 1].hash != tip.hash <==>
              && candidate.finalized && candidate.index == tip.index && candidate.prevHash == parent.hash
                 && candidate.hash != tip.hash
              && CountAccepted(candidate.verifications) >= CountAccepted(tip.verifications)
              && DistinctPeers(candidate.verifications) && Named(candidate.verifications)
              && FitsBase(c, base, candidate))
  {
    hide ResolveFork, FitsBase, CountAccepted, DistinctPeers, Named;
    AdoptedExactly(c, vals, l, candidate);
  }

  /** An adopted block carries the difficulty that the chain below it calls for. */
  lemma AdoptedOnSchedule(c: Crypto, vals: ValidatorMap, l: Ledger, candidate: Block)
    requires ResolveFork(c, vals, l, candidate).1.Adopted?
    ensures |l.chain| >= 2
    ensures Clamp(ResolveFork(c, vals, l, candidate).1.block.difficulty) == ExpectedDifficulty(l.chain[..|l.chain| - 1])
  {
    hide ResolveFork, JoinRebuilt, AddBlock;
    AdoptedFork(c, vals, l, candidate);
    JoinedBlock(c, vals, Rebuild(c, l.chain[..|l.chain| - 1]).value, candidate);
    BodyFields(ResolveFork(c, vals, l, candidate).1.block, candidate);
  }

  lemma JoinKeepsShape(c: Crypto, vals: ValidatorMap, rebuilt: Ledger, candidate: Block)
    requires Shaped(c, rebuilt) && JoinRebuilt(c, vals, rebuilt, candidate).1.Adopted?
    ensures Shaped(c, JoinRebuilt(c, vals, rebuilt, candidate).0)
  {
    hide JoinRebuilt, Commit, AddBlock, Shaped;
    JoinedBlock(c, vals, rebuilt, candidate);
    CommitKeepsShape(c, rebuilt, AddBlock(c, vals, rebuilt, candidate, []).1);
  }

  lemma JoinKeepsAccounted(c: Crypto, vals: ValidatorMap, rebuilt: Ledger, candidate: Block)
    requires Accounted(c, rebuilt) && JoinRebuilt(c, vals, rebuilt, candidate).1.Adopted?
    ensures Accounted(c, JoinRebuilt(c, vals, rebuilt, candidate).0)
  {
    hide JoinRebuilt, Commit, AddBlock, Accounted;
    JoinedBlock(c, vals, rebuilt, candidate);
    CommitKeepsAccounted(c, rebuilt, AddBlock(c, vals, rebuilt, candidate, []).1);
  }

  /** Fork resolution keeps a ledger shaped, and adopts only above a base that replays. */
  lemma ForkKeepsShape(c: Crypto, vals: ValidatorMap, l: Ledger, candidate: Block)
    requires Shaped(c, l)
    ensures Shaped(c, ResolveFork(c, vals, l, candidate).0)
    ensures ResolveFork(c, vals, l, candidate).1.Adopted? ==> |l.chain| >= 2 && Replayable(l.chain[..|l.chain| - 1])
  {
    hide ResolveFork, JoinRebuilt, Linked, NonceHistory, Replayable;
    if ResolveFork(c, vals, l, candidate).1.Adopted? {
      AdoptedFork(c, vals, l, candidate);
      var base := l.chain[..|l.chain| - 1];
      RebuiltIsShaped(c, base);
      ReplayNeedsReplayable(c, FounderOf(base), base);
      JoinKeepsShape(c, vals, Rebuild(c, base).value, candidate);
    } else {
      ForkImprovesTip(c, vals, l, candidate);
    }
  }

  /** The books still balance unless the chain carries negative amounts. */
  lemma ForkKeepsAccounted(c: Crypto, vals: ValidatorMap, l: Ledger, candidate: Block)
    requires Accounted(c, l)
    ensures Accounted(c, ResolveFork(c, vals, l, candidate).0)
  {
    hide ResolveFork, JoinRebuilt, Linked, NonceHistory, Books, WellFormedChain;
    if ResolveFork(c, vals, l, candidate).1.Adopted? {
      AdoptedFork(c, vals, l, candidate);
      var base := l.chain[..|l.chain| - 1];
      var rebuilt := Rebuild(c, base).value;
      RebuiltIsAccounted(c, base);
      JoinKeepsAccounted(c, vals, rebuilt, candidate);
      SameAccountsAreAccounted(c, JoinRebuilt(c, vals, rebuilt, candidate).0, ResolveFork(c, vals, l, candidate).0);
    } else {
      ForkImprovesTip(c, vals, l, candidate);
    }
  }

  /** The mempool does not matter to the accounts. */
  lemma SameAccountsAreAccounted(c: Crypto, a: Ledger, b: Ledger)
    requires Accounted(c, a) && b == a.(mempool := b.mempool)
    ensures Accounted(c, b)
  {}

  // ---- Confirming a block already on the chain ----

  function IndexOfHash(chain: seq<Block>, hash: string): (r: Option<nat>)
    ensures match r
            case Some(i) => i < |chain| && chain[i].hash == hash && forall j :: 0 <= j < i ==> chain[j].hash != hash
            case None => forall j :: 0 <= j < |chain| ==> chain[j].hash != hash
  {
    if chain == [] then None
    else if chain[0].hash == hash then Some(0)
    else match IndexOfHash(chain[1..], hash)
         case None => assert forall j :: 0 < j < |chain| ==> chain[j] == chain[1..][j - 1]; None
         case Some(i) => assert forall j :: 0 < j < |chain| ==> chain[j] == chain[1..][j - 1]; Some(i + 1)
  }

  /** A finalized block received again marks the stored copy final; the result says whether it was news. */
  function FinalizeExisting(l: Ledger, b: Block): (Ledger, bool) {
    if !b.finalized || b.hash == "" then (l, false)
    else
      match IndexOfHash(l.chain, b.hash)
      case None => (l, false)
      case Some(i) =>
        if l.chain[i].finalized then (l, false)
        else (l.(chain := l.chain[i := l.chain[i].(finalized := true)]), true)
  }

  /** At most one flag changes: that of the first block with this hash, from not final to final, and
      exactly when that is news. */
  lemma FinalizeExistingTouchesOneFlag(l: Ledger, b: Block)
    ensures var (after, news) := FinalizeExisting(l, b);
            && after == l.(chain := after.chain) && |after.chain| == |l.chain|
            && (forall i :: 0 <= i < |l.chain| ==>
                  var marked := news && IndexOfHash(l.chain, b.hash) == Some(i);
                  after.chain[i] == l.chain[i].(finalized := l.chain[i].finalized || marked))
            && (news <==> b.finalized && b.hash != "" && IndexOfHash(l.chain, b.hash).Some?
                          && !l.chain[IndexOfHash(l.chain, b.hash).value].finalized)
  {}

  // ---- Books do not see vote metadata ----

  lemma {:induction false} SameBodiesSameRecords(a: seq<Block>, b: seq<Block>)
    requires SameBodies(a, b)
    ensures ChainFees(a) == ChainFees(b) && ChainRewards(a) == ChainRewards(b)
    ensures forall x :: ChainNonces(a, x) == ChainNonces(b, x)
    decreases |a|
  {
    if a != [] {
      SameBodiesSameRecords(a[..|a| - 1], b[..|b| - 1]);
      BodyFields(a[|a| - 1], b[|b| - 1]);
      forall x ensures ChainNonces(a, x) == ChainNonces(b, x) {
        assert ChainNonces(a[..|a| - 1], x) == ChainNonces(b[..|b| - 1], x);
      }
    }
  }

  lemma SameBodiesStayLinked(c: Crypto, a: seq<Block>, b: seq<Block>)
    requires SameBodies(a, b) && Linked(c, a)
    ensures Linked(c, b)
    ensures forall i :: 0 <= i < |b| ==> b[i].index == a[i].index && b[i].transactions == a[i].transactions
  {
    forall i | 0 <= i < |b|
      ensures b[i].hash == a[i].hash && b[i].prevHash == a[i].prevHash && b[i].index == a[i].index
      ensures b[i].transactions == a[i].transactions && Sealed(c, b[i])
    {
      BodyFields(b[i], a[i]);
      assert Sealed(c, a[i]);
      assert HeaderOf(c, b[i]) == HeaderOf(c, a[i]);
    }
  }

  lemma SameBodiesStayShaped(c: Crypto, l: Ledger, chain: seq<Block>)
    requires Shaped(c, l) && SameBodies(l.chain, chain)
    ensures Shaped(c, l.(chain := chain))
  {
    SameBodiesStayLinked(c, l.chain, chain);
    SameBodiesSameRecords(l.chain, chain);
    forall a
      ensures CountsFrom(ChainNonces(chain, a), 0) && Get(l.accounts, a).nonce == |ChainNonces(chain, a)|
    {
      assert ChainNonces(l.chain, a) == ChainNonces(chain, a);
    }
  }

  lemma SameBodiesStaySound(c: Crypto, l: Ledger, chain: seq<Block>)
    requires Sound(c, l) && SameBodies(l.chain, chain)
    ensures Sound(c, l.(chain := chain))
  {
    SameBodiesStayShaped(c, l, chain);
    SameBodiesStayLinked(c, l.chain, chain);
    SameBodiesSameRecords(l.chain, chain);
  }

  lemma FinalizeKeepsShape(c: Crypto, l: Ledger, b: Block)
    requires Shaped(c, l)
    ensures Shaped(c, FinalizeExisting(l, b).0)
  {
    hide FinalizeExisting, Linked, NonceHistory;
    FinalizeExistingTouchesOneFlag(l, b);
    SameBodiesStayShaped(c, l, FinalizeExisting(l, b).0.chain);
  }

  lemma FinalizeKeepsAccounted(c: Crypto, l: Ledger, b: Block)
    requires Accounted(c, l)
    ensures Accounted(c, FinalizeExisting(l, b).0)
  {
    hide FinalizeExisting, Linked, NonceHistory, Books;
    FinalizeExistingTouchesOneFlag(l, b);
    FinalizeKeepsShape(c, l, b);
    var after := FinalizeExisting(l, b).0.chain;
    if WellFormedChain(after) {
      forall i | 0 <= i < |l.chain| ensures WellFormedTxs(l.chain[i].transactions) {
        assert WellFormedTxs(after[i].transactions);
      }
      SameBodiesStaySound(c, l, after);
    }
  }
}
