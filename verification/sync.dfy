/** Synchronising with a peer: appending its blocks, or adopting its whole chain behind the last
    block this node has seen finalized. */
module Sync {
  import opened Models
  import opened AccountMath
  import opened Votes
  import opened Consensus
  import opened Replay

  datatype SyncError =
    | FullSyncRequired
    | DivergesBefore(finalized: nat)
    | RebuildFailed(replayError: ReplayError)
    | AppendFailed(index: nat, addError: AddError)

  /** The last finalized position, or -1. */
  function LastFinalized(chain: seq<Block>): (r: int)
    ensures -1 <= r < |chain|
    ensures r >= 0 ==> chain[r].finalized
    ensures forall i :: r < i < |chain| ==> !chain[i].finalized
  {
    if chain == [] then -1
    else if chain[|chain| - 1].finalized then |chain| - 1
    else LastFinalized(chain[..|chain| - 1])
  }

  predicate GuardHolds(newChain: seq<Block>, local: seq<Block>) {
    var f := LastFinalized(local);
    f >= 0 ==> |newChain| > f && newChain[f].hash == local[f].hash
  }

  function ReplaceChain(c: Crypto, l: Ledger, newChain: seq<Block>): (Ledger, Option<SyncError>) {
    if !GuardHolds(newChain, l.chain) then (l, Some(DivergesBefore(LastFinalized(l.chain))))
    else
      match Rebuild(c, newChain)
      case Err(e) => (l, Some(RebuildFailed(e)))
      case Ok(rebuilt) => (rebuilt.(mempool := l.mempool), None)
  }

  /** A peer's chain replaces the local one if and only if it rebuilds and, where a local block is final,
      has the last such block's hash at its height; the node then holds that chain and its replayed
      state, mempool apart, and otherwise exactly what it held. */
  lemma ReplacesExactly(c: Crypto, l: Ledger, newChain: seq<Block>)
    ensures var (after, error) := ReplaceChain(c, l, newChain);
            var f := LastFinalized(l.chain);
            var agrees := f >= 0 ==> |newChain| > f && newChain[f].hash == l.chain[f].hash;
            && (error.None? <==> Rebuild(c, newChain).Ok? && agrees)
            && (error.None? ==> after == Rebuild(c, newChain).value.(mempool := l.mempool) && after.chain == newChain)
            && (error.Some? ==> after == l)
            && (error.Some? && error.value.DivergesBefore? <==> !agrees)
            && (!agrees ==> error == Some(DivergesBefore(f)))
            && (agrees && Rebuild(c, newChain).Err? ==> error == Some(RebuildFailed(Rebuild(c, newChain).error)))
  {
    hide ReplayFrom;
  }

  /** Runs a step over a list until it fails; also how many elements it took. */
  function UntilError<S, B, E>(step: (S, B) -> (S, Option<E>), s: S, list: seq<B>): (S, nat, Option<E>)
    decreases |list|
  {
    if list == [] then (s, 0, None)
    else
      var (next, error) := step(s, list[0]);
      if error.Some? then (next, 0, error)
      else
        var (last, k, e) := UntilError(step, next, list[1..]);
        (last, k + 1, e)
  }

  /** The outcome of a run that had already taken `k` elements. */
  function Shifted<S, E>(r: (S, nat, E), k: nat): (S, nat, E) {
    (r.0, r.1 + k, r.2)
  }

  /** One turn of the loop that runs a step until it fails. */
  lemma UntilErrorTurn<S, B, E>(step: (S, B) -> (S, Option<E>), start: S, list: seq<B>, k: nat, s: S, next: S,
                                error: Option<E>)
    requires k < |list| && step(s, list[k]) == (next, error)
    requires Shifted(UntilError(step, s, list[k..]), k) == UntilError(step, start, list)
    ensures error.Some? ==> UntilError(step, start, list) == (next, k, error)
    ensures error.None? ==> Shifted(UntilError(step, next, list[k + 1..]), k + 1) == UntilError(step, start, list)
  {
    assert list[k..][0] == list[k] && list[k..][1..] == list[k + 1..];
  }

  /** The state after exactly `k` steps. */
  function AfterFirst<S, B, E>(step: (S, B) -> (S, Option<E>), s: S, list: seq<B>, k: nat): S
    requires k <= |list|
    decreases k
  {
    if k == 0 then s else AfterFirst(step, step(s, list[0]).0, list[1..], k - 1)
  }

  /** The loop stops in the state after its first k elements, having tried one more if any is left. */
  lemma {:induction false} StopsAt<S, B, E>(step: (S, B) -> (S, Option<E>), s: S, list: seq<B>)
    ensures var (after, k, error) := UntilError(step, s, list);
            && k <= |list| && (error.None? <==> k == |list|)
            && var reached := AfterFirst(step, s, list, k);
               if error.None? then after == reached else step(reached, list[k]) == (after, error)
    decreases |list|
  {
    if list != [] && step(s, list[0]).1.None? { StopsAt(step, step(s, list[0]).0, list[1..]); }
  }

  /** AddBlock on a node without external verifiers. */
  function Adder(c: Crypto, vals: ValidatorMap): (Ledger, Block) -> (Ledger, Option<AddError>) {
    (l: Ledger, b: Block) => var (after, _, error) := AddBlock(c, vals, l, b, []); (after, error)
  }

  /** AddBlock on each block in turn, stopping at the first that fails; also how many were added. */
  function AppendBlocks(c: Crypto, vals: ValidatorMap, l: Ledger, blocks: seq<Block>): (Ledger, nat, Option<AddError>) {
    UntilError(Adder(c, vals), l, blocks)
  }

  lemma AppendTurn(c: Crypto, vals: ValidatorMap, start: Ledger, blocks: seq<Block>, k: nat, l: Ledger, next: Ledger,
                   error: Option<AddError>)
    requires k < |blocks| && Adder(c, vals)(l, blocks[k]) == (next, error)
    requires Shifted(AppendBlocks(c, vals, l, blocks[k..]), k) == AppendBlocks(c, vals, start, blocks)
    ensures error.Some? ==> AppendBlocks(c, vals, start, blocks) == (next, k, error)
    ensures error.None? ==>
              Shifted(AppendBlocks(c, vals, next, blocks[k + 1..]), k + 1)
              == AppendBlocks(c, vals, start, blocks)
  {
    UntilErrorTurn(Adder(c, vals), start, blocks, k, l, next, error);
  }

  lemma NothingAppended(c: Crypto, vals: ValidatorMap, l: Ledger, blocks: seq<Block>)
    ensures Shifted(AppendBlocks(c, vals, l, blocks[0..]), 0) == AppendBlocks(c, vals, l, blocks)
  {
    assert blocks[0..] == blocks;
  }

  lemma AllAppended(c: Crypto, vals: ValidatorMap, start: Ledger, blocks: seq<Block>, l: Ledger)
    requires Shifted(AppendBlocks(c, vals, l, blocks[|blocks|..]), |blocks|) == AppendBlocks(c, vals, start, blocks)
    ensures AppendBlocks(c, vals, start, blocks) == (l, |blocks|, None)
  {}

  function ApplySynced(c: Crypto, vals: ValidatorMap, l: Ledger, blocks: seq<Block>): (Ledger, Option<SyncError>)
  {
    if blocks == [] then (l, None)
    else if blocks[0].index == 0 then ReplaceChain(c, l, blocks)
    else if blocks[0].index != |l.chain| || blocks[0].prevHash != TipHash(l.chain) then (l, Some(FullSyncRequired))
    else
      StopsAt(Adder(c, vals), l, blocks);
      var (after, k, error) := AppendBlocks(c, vals, l, blocks);
      (after, match error case None => None case Some(e) => Some(AppendFailed(blocks[k].index, e)))
  }

  function TipHash(chain: seq<Block>): string {
    if chain == [] then "" else chain[|chain| - 1].hash
  }

  lemma {:induction false} AppendedBodies(c: Crypto, vals: ValidatorMap, l: Ledger, blocks: seq<Block>)
    ensures var (after, k, _) := AppendBlocks(c, vals, l, blocks);
            k <= |blocks| && SameBodies(after.chain, l.chain + blocks[..k])
    decreases |blocks|
  {
    if blocks != [] {
      var (next, voted, stop) := AddBlock(c, vals, l, blocks[0], []);
      AddBlockAlone(c, vals, l, blocks[0]);
      if stop.None? {
        AppendedBodies(c, vals, next, blocks[1..]);
        var (after, k) := (AppendBlocks(c, vals, l, blocks).0, AppendBlocks(c, vals, next, blocks[1..]).1);
        SameBodiesExtend(after.chain, l.chain, voted, blocks, k);
      }
    }
  }

  /** Incremental sync appends the longest prefix that AddBlock takes one block after another, up
      to vote metadata; the block it stops at is refused in that state, and the only other effect
      is that block's penalty. */
  lemma SyncAppendsLongestValidPrefix(c: Crypto, vals: ValidatorMap, l: Ledger, blocks: seq<Block>)
    ensures var (after, k, error) := AppendBlocks(c, vals, l, blocks);
            && k <= |blocks| && (error.None? <==> k == |blocks|)
            && SameBodies(after.chain, l.chain + blocks[..k])
            && var reached := AfterFirst(Adder(c, vals), l, blocks, k);
               if error.None? then after == reached
               else
                 var valid := VerifyBlock(c, SnapshotOf(reached), blocks[k]).Ok?;
                 && !(valid && SendersExist(reached.accounts, blocks[k].transactions))
                 && after == if valid then reached else Penalise(reached, blocks[k].miner, blocks[k].reward)
  {
    StopsAt(Adder(c, vals), l, blocks);
    AppendedBodies(c, vals, l, blocks);
    var (_, k, error) := AppendBlocks(c, vals, l, blocks);
    if error.Some? { AddBlockAlone(c, vals, AfterFirst(Adder(c, vals), l, blocks, k), blocks[k]); }
  }

  /** Synchronising succeeds if and only if nothing is offered, or a whole chain that replaces the local
      one, or blocks that continue it and, one after another, each verify with their senders present. */
  lemma SyncsExactly(c: Crypto, vals: ValidatorMap, l: Ledger, blocks: seq<Block>)
    ensures var (after, error) := ApplySynced(c, vals, l, blocks);
            && (blocks == [] ==> after == l && error.None?)
            && (blocks != [] && blocks[0].index == 0 ==> (after, error) == ReplaceChain(c, l, blocks))
            && (blocks != [] && blocks[0].index > 0 ==>
                  var continues := blocks[0].index == |l.chain|
                                   && blocks[0].prevHash == if l.chain == [] then "" else l.chain[|l.chain| - 1].hash;
                  && (error == Some(FullSyncRequired) <==> !continues)
                  && (!continues ==> after == l)
                  && (error.None? <==> continues && forall i :: 0 <= i < |blocks| ==> Joins(c, vals, l, blocks, i))
                  && (error.None? ==> SameBodies(after.chain, l.chain + blocks)))
  {
    hide ReplaceChain, AppendBlocks, VerifyBlock, SendersExist, Penalise;
    SyncAppendsLongestValidPrefix(c, vals, l, blocks);
    JoinsUpTo(c, vals, l, blocks);
    var (_, k, error) := AppendBlocks(c, vals, l, blocks);
    if error.None? { assert blocks[..k] == blocks; }
    if error.Some? { assert !Joins(c, vals, l, blocks, k); }
  }

  /** Block i verifies, senders present, in the state that adding the blocks before it leaves. */
  predicate Joins(c: Crypto, vals: ValidatorMap, l: Ledger, blocks: seq<Block>, i: nat)
    requires i < |blocks|
  {
    var reached := AfterFirst(Adder(c, vals), l, blocks, i);
    VerifyBlock(c, SnapshotOf(reached), blocks[i]).Ok? && SendersExist(reached.accounts, blocks[i].transactions)
  }

  /** Every block that was added joined. */
  lemma {:induction false} JoinsUpTo(c: Crypto, vals: ValidatorMap, l: Ledger, blocks: seq<Block>)
    ensures forall i :: 0 <= i < |blocks| && i < AppendBlocks(c, vals, l, blocks).1 ==> Joins(c, vals, l, blocks, i)
    decreases |blocks|
  {
    if blocks != [] {
      hide AddBlock, VerifyBlock, SendersExist;
      AddBlockAlone(c, vals, l, blocks[0]);
      var next := AddBlock(c, vals, l, blocks[0], []).0;
      JoinsUpTo(c, vals, next, blocks[1..]);
      forall i | 0 <= i < |blocks| && i < AppendBlocks(c, vals, l, blocks).1 ensures Joins(c, vals, l, blocks, i) {
        if i > 0 { assert Joins(c, vals, next, blocks[1..], i - 1); }
      }
    }
  }

  lemma SameBodiesExtend(after: seq<Block>, chain: seq<Block>, voted: Block, blocks: seq<Block>, k: nat)
    requires blocks != [] && k < |blocks| && Body(voted) == Body(blocks[0])
    requires SameBodies(after, chain + [voted] + blocks[1..][..k])
    ensures SameBodies(after, chain + blocks[..k + 1])
  {
    var x, y := chain + [voted] + blocks[1..][..k], chain + blocks[..k + 1];
    assert forall i :: 0 <= i < |x| && i != |chain| ==> x[i] == y[i];
    assert x[|chain|] == voted && y[|chain|] == blocks[0];
  }

  lemma AddingKeepsShape(c: Crypto, vals: ValidatorMap, l: Ledger, b: Block)
    requires Shaped(c, l)
    ensures Shaped(c, AddBlock(c, vals, l, b, []).0)
  {
    hide AddBlock, Commit, Penalise, Shaped;
    AddBlockAlone(c, vals, l, b);
    CommitKeepsShape(c, l, AddBlock(c, vals, l, b, []).1);
    PenaltyKeepsShape(c, l, b.miner, b.reward);
  }

  lemma {:induction false} AppendKeepsShape(c: Crypto, vals: ValidatorMap, l: Ledger, blocks: seq<Block>)
    requires Shaped(c, l)
    ensures Shaped(c, AppendBlocks(c, vals, l, blocks).0)
    decreases |blocks|
  {
    if blocks != [] {
      hide AddBlock, Shaped;
      AddingKeepsShape(c, vals, l, blocks[0]);
      AppendKeepsShape(c, vals, AddBlock(c, vals, l, blocks[0], []).0, blocks[1..]);
    }
  }

  lemma AddingKeepsAccounted(c: Crypto, vals: ValidatorMap, l: Ledger, b: Block)
    requires Accounted(c, l)
    ensures Accounted(c, AddBlock(c, vals, l, b, []).0)
  {
    hide AddBlock, Commit, Penalise, Accounted;
    AddBlockAlone(c, vals, l, b);
    CommitKeepsAccounted(c, l, AddBlock(c, vals, l, b, []).1);
    PenaltyKeepsAccounted(c, l, b.miner, b.reward);
  }

  lemma {:induction false} AppendKeepsAccounted(c: Crypto, vals: ValidatorMap, l: Ledger, blocks: seq<Block>)
    requires Accounted(c, l)
    ensures Accounted(c, AppendBlocks(c, vals, l, blocks).0)
    decreases |blocks|
  {
    if blocks != [] {
      hide AddBlock, Accounted;
      AddingKeepsAccounted(c, vals, l, blocks[0]);
      AppendKeepsAccounted(c, vals, AddBlock(c, vals, l, blocks[0], []).0, blocks[1..]);
    }
  }

  lemma SyncKeepsShape(c: Crypto, vals: ValidatorMap, l: Ledger, blocks: seq<Block>)
    requires Shaped(c, l)
    ensures Shaped(c, ApplySynced(c, vals, l, blocks).0)
  {
    hide AppendBlocks, Linked, NonceHistory;
    if blocks != [] && blocks[0].index == 0 {
      if ReplaceChain(c, l, blocks).1.None? { RebuiltIsShaped(c, blocks); }
    } else {
      AppendKeepsShape(c, vals, l, blocks);
    }
  }

  /** Either way of synchronising keeps the shape, and the books unless the chain carries negative amounts. */
  lemma SyncKeepsAccounted(c: Crypto, vals: ValidatorMap, l: Ledger, blocks: seq<Block>)
    requires Accounted(c, l)
    ensures Accounted(c, ApplySynced(c, vals, l, blocks).0)
  {
    hide AppendBlocks, Linked, NonceHistory, Books, WellFormedChain;
    if blocks != [] && blocks[0].index == 0 {
      if ReplaceChain(c, l, blocks).1.None? { RebuiltIsAccounted(c, blocks); }
    } else {
      AppendKeepsAccounted(c, vals, l, blocks);
    }
  }

  // ---- The finality guard ----

  ghost predicate HeadersIn(c: Crypto, chain: seq<Block>, hs: set<Header>) {
    forall i :: 0 <= i < |chain| ==> HeaderOf(c, chain[i]) in hs
  }

  /** Two linked chains that share one block hash share every hash before it. */
  lemma {:induction false} LinksAgreeDownwards(c: Crypto, a: seq<Block>, b: seq<Block>, f: nat, hs: set<Header>)
    requires Linked(c, a) && Linked(c, b) && f < |a| && f < |b|
    requires CollisionFree(c, hs) && HeadersIn(c, a, hs) && HeadersIn(c, b, hs)
    requires a[f].hash == b[f].hash
    ensures forall i :: 0 <= i <= f ==> a[i].hash == b[i].hash && HeaderOf(c, a[i]) == HeaderOf(c, b[i])
  {
    assert Sealed(c, a[f]) && Sealed(c, b[f]);
    assert HeaderOf(c, a[f]) == HeaderOf(c, b[f]);
    if f > 0 {
      assert a[f].prevHash == HeaderOf(c, a[f]).prevHash == b[f].prevHash;
      LinksAgreeDownwards(c, a, b, f - 1, hs);
    }
  }

  /** A replacement that succeeds changes no block hash up to the last finalized block. */
  lemma FinalizedPrefixSurvives(c: Crypto, l: Ledger, newChain: seq<Block>, hs: set<Header>)
    requires Linked(c, l.chain)
    requires CollisionFree(c, hs) && HeadersIn(c, l.chain, hs) && HeadersIn(c, newChain, hs)
    requires ReplaceChain(c, l, newChain).1.None?
    ensures var f := LastFinalized(l.chain);
            f < |newChain| && forall i :: 0 <= i <= f ==> newChain[i].hash == l.chain[i].hash
  {
    hide Linked, NonceHistory;
    var f := LastFinalized(l.chain);
    ReplayLinks(c, FounderOf(newChain), newChain);
    if f >= 0 { LinksAgreeDownwards(c, l.chain, newChain, f, hs); }
  }
}
