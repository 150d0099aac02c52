/** A block in memory, as the code passes it by pointer: its votes, its finalization and its nonce
    search update it in place. */
module BlockHeap {
  import opened Models
  import opened Sorting
  import opened Difficulty
  import opened Votes
  import Template

  method CalculateFinalizationThreshold(vals: ValidatorMap) returns (threshold: int)
    ensures threshold == FinalizationThreshold(vals)
  {
    var active, left := 0, vals.Keys;
    ghost var counted: set<string> := {};
    while left != {}
      invariant left <= vals.Keys
      invariant counted == (set id | id in vals && id !in left && vals[id].active)
      invariant active == |counted|
      decreases |left|
    {
      var id :| id in left;
      if vals[id].active {
        active := active + 1;
        counted := counted + {id};
      }
      left := left - {id};
    }
    assert counted == ActiveValidators(vals);
    if active == 0 { return -1; }
    var dynamic := Ceil(active as real * 2.0 / 3.0);
    if dynamic < 1 { dynamic := 1; }
    if FINALIZATION_THRESHOLD > dynamic { return FINALIZATION_THRESHOLD; }
    return dynamic;
  }

  method CountAcceptedVotes(votes: seq<BlockVerification>) returns (accepted: nat)
    ensures accepted == CountAccepted(votes)
  {
    accepted := 0;
    var i := 0;
    while i < |votes|
      invariant 0 <= i <= |votes|
      invariant accepted == CountAccepted(votes[..i])
    {
      assert votes[..i + 1][..i] == votes[..i];
      if votes[i].accepted { accepted := accepted + 1; }
      i := i + 1;
    }
    assert votes[..i] == votes;
  }

  lemma HasPeerStep(vs: seq<BlockVerification>, i: nat, p: string)
    requires i < |vs|
    ensures HasPeer(vs[..i + 1], p) <==> HasPeer(vs[..i], p) || p == vs[i].peer
  {
    assert vs[..i + 1] == vs[..i] + [vs[i]];
    HasPeerAppend(vs[..i], vs[i], p);
  }

  lemma TryNonce(c: Crypto, b: Block, current: Block, nonce: nat)
    requires current == b.(nonce := nonce, hash := current.hash)
    ensures Template.Attempt(c, b, nonce) == current.(hash := BlockHash(c, current))
    ensures Template.Wins(c, b, nonce) <==> HashMeets(BlockHash(c, current), b.difficulty)
  {
    assert HeaderOf(c, current) == HeaderOf(c, b.(nonce := nonce));
  }

  lemma MineOutcome(c: Crypto, b: Block)
    ensures var clamped := b.(difficulty := Clamp(b.difficulty));
            var max := Template.MaxAttempts(Clamp(b.difficulty));
            Template.Mine(c, b) == match Template.FirstWin(c, clamped, b.nonce, max)
                                   case None => None
                                   case Some(n) => Some(Template.Attempt(c, clamped, n))
  {}

  /** The search that starts here either wins at once or goes on with the next nonce. */
  lemma NextNonce(c: Crypto, b: Block, nonce: nat, attempts: nat)
    requires attempts > 0
    ensures Template.FirstWin(c, b, nonce, attempts)
            == if Template.Wins(c, b, nonce) then Some(nonce) else Template.FirstWin(c, b, nonce + 1, attempts - 1)
  {}

  class BlockCell {
    var block: Block

    constructor (b: Block)
      ensures block == b
    {
      block := b;
    }

    method MarkFinalizedIfThresholdReached(vals: ValidatorMap)
      modifies this
      ensures block == MarkFinalized(vals, old(block))
    {
      if block.finalized { return; }
      var threshold := CalculateFinalizationThreshold(vals);
      if threshold <= 0 { return; }
      var accepted := CountAcceptedVotes(block.verifications);
      if accepted >= threshold { block := block.(finalized := true); }
    }

    /** Merges the verifiers' results, in whatever order they came in, behind the carried votes. */
    method MergeVerifications(results: seq<BlockVerification>)
      modifies this
      ensures block == MergeInto(old(block), results)
    {
      var existing, merged := KeepFirstVotes();
      merged := AddUnseen(existing, merged, Sort(results, ByPeer()));
      block := block.(verifications := merged);
    }

    method KeepFirstVotes() returns (existing: set<string>, merged: seq<BlockVerification>)
      modifies this
      ensures merged == FirstVotes(old(block).verifications)
      ensures forall p :: p in existing <==> HasPeer(old(block).verifications, p)
      ensures block == old(block).(blockVerifications := Record(old(block).blockVerifications, merged))
    {
      ghost var start := block.blockVerifications;
      var carried := block.verifications;
      existing, merged := {}, [];
      var i := 0;
      while i < |carried|
        invariant 0 <= i <= |carried|
        invariant merged == FirstVotes(carried[..i])
        invariant forall p :: p in existing <==> HasPeer(carried[..i], p)
        invariant block == old(block).(blockVerifications := Record(start, merged))
      {
        var v := carried[i];
        assert carried[..i + 1][..i] == carried[..i];
        forall p ensures HasPeer(carried[..i + 1], p) <==> HasPeer(carried[..i], p) || p == v.peer {
          HasPeerStep(carried, i, p);
        }
        if v.peer !in existing {
          existing := existing + {v.peer};
          assert (merged + [v])[..|merged|] == merged;
          block := block.(blockVerifications := block.blockVerifications[v.peer := v.accepted]);
          merged := merged + [v];
        }
        i := i + 1;
      }
      assert carried[..i] == carried;
    }

    method AddUnseen(existing: set<string>, kept: seq<BlockVerification>,
                     sorted: seq<BlockVerification>)
      returns (merged: seq<BlockVerification>)
      requires forall p :: p in existing <==> HasPeer(block.verifications, p)
      modifies this
      ensures merged == kept + Unseen(sorted, old(block).verifications)
      ensures forall m :: old(block).blockVerifications == Record(m, kept) ==>
                block == old(block).(blockVerifications := Record(m, merged))
    {
      ghost var carried := block.verifications;
      merged := kept;
      var i := 0;
      while i < |sorted|
        invariant 0 <= i <= |sorted|
        invariant merged == kept + Unseen(sorted[..i], carried)
        invariant block == old(block).(blockVerifications := block.blockVerifications)
        invariant forall m :: old(block).blockVerifications == Record(m, kept) ==>
                    block.blockVerifications == Record(m, merged)
      {
        var r := sorted[i];
        assert sorted[..i + 1][..i] == sorted[..i];
        if r.peer !in existing {
          assert (merged + [r])[..|merged|] == merged;
          block := block.(blockVerifications := block.blockVerifications[r.peer := r.accepted]);
          merged := merged + [r];
        }
        i := i + 1;
      }
      assert sorted[..i] == sorted;
    }

    /** Records a registered validator's confirmation. */
    method AppendVerification(vals: ValidatorMap, v: BlockVerification) returns (error: Option<AppendError>)
      modifies this
      ensures match Votes.AppendVerification(vals, old(block), v)
              case Ok(after) => error == None && block == after
              case Err(e) => error == Some(e) && block == old(block)
    {
      if block.finalized { return Some(AlreadyFinalized); }
      var i := 0;
      while i < |block.verifications|
        invariant 0 <= i <= |block.verifications|
        invariant forall j :: 0 <= j < i ==> block.verifications[j].peer != v.peer
        invariant block == old(block)
      {
        if block.verifications[i].peer == v.peer { return Some(DuplicateVote); }
        i := i + 1;
      }
      if v.peer !in vals { return Some(UnknownValidator); }
      if !vals[v.peer].active { return Some(InactiveValidator); }
      block := block.(verifications := block.verifications + [v],
                      blockVerifications := block.blockVerifications[v.peer := v.accepted]);
      MarkFinalizedIfThresholdReached(vals);
      error := None;
    }

    /** Advances the nonce until the hash meets the difficulty, for a bounded number of attempts. */
    method MineBlockPoW(c: Crypto) returns (ok: bool)
      modifies this
      ensures ok <==> Template.Mine(c, old(block)).Some?
      ensures ok ==> block == Template.Mine(c, old(block)).value
      ensures !ok ==>
                var difficulty := Clamp(old(block).difficulty);
                block == old(block).(difficulty := difficulty, hash := block.hash,
                                     nonce := old(block).nonce + Template.MaxAttempts(difficulty))
    {
      hide HashMeets, Template.Mine, Template.Attempt, Template.Wins, BlockHash, Template.MaxAttempts, Clamp;
      MineOutcome(c, block);
      ghost var first := block.nonce;
      block := block.(difficulty := Clamp(block.difficulty));
      ghost var clamped := block;
      var max := Template.MaxAttempts(block.difficulty);
      var attempts := 0;
      while attempts < max
        invariant 0 <= attempts <= max
        invariant block == clamped.(nonce := first + attempts, hash := block.hash)
        invariant Template.FirstWin(c, clamped, first, max)
                  == Template.FirstWin(c, clamped, first + attempts, max - attempts)
      {
        TryNonce(c, clamped, block, first + attempts);
        NextNonce(c, clamped, first + attempts, max - attempts);
        block := block.(hash := BlockHash(c, block));
        if HashMeets(block.hash, block.difficulty) { return true; }
        block := block.(nonce := block.nonce + 1);
        attempts := attempts + 1;
      }
      return false;
    }
  }
}
