/** The difficulty of every reachable chain: one in each window of 2016 blocks, whatever was adopted. */
module WindowRuns {
  import opened Models
  import opened Difficulty
  import opened Votes
  import opened Consensus
  import opened Replay
  import opened ForkChoice
  import opened Sync
  import opened Protocol

  /** The first block is at the initial difficulty, and it changes at multiples of 2016 only. */
  ghost predicate Windowed(chain: seq<Block>) {
    (chain != [] ==> Clamp(chain[0].difficulty) == INITIAL_DIFFICULTY) && StepsAtWindows(chain)
  }

  lemma WindowsExtend(chain: seq<Block>, b: Block)
    requires chain != [] && Windowed(chain) && Positioned(chain)
    requires Clamp(b.difficulty) == ExpectedDifficulty(chain)
    ensures Windowed(chain + [b])
  {
    hide Clamp;
    ExpectedWithin(chain);
  }

  lemma CommitKeepsWindows(c: Crypto, l: Ledger, b: Block)
    requires Shaped(c, l) && Windowed(l.chain)
    ensures Windowed(Commit(c, l, b).0.chain)
  {
    hide Windowed, Linked, NonceHistory;
    CommitIsAllOrNothing(c, l, b);
    if Commit(c, l, b).1.None? { WindowsExtend(l.chain, b); }
  }

  lemma {:induction false} AppendKeepsWindows(c: Crypto, vals: ValidatorMap, l: Ledger, blocks: seq<Block>)
    requires Shaped(c, l) && Windowed(l.chain)
    ensures Windowed(AppendBlocks(c, vals, l, blocks).0.chain)
    decreases |blocks|
  {
    if blocks != [] {
      hide AddBlock, Commit, Shaped, Windowed;
      var (next, voted, error) := AddBlock(c, vals, l, blocks[0], []);
      AddBlockAlone(c, vals, l, blocks[0]);
      if error.None? {
        CommitKeepsShape(c, l, voted);
        CommitKeepsWindows(c, l, voted);
        AppendKeepsWindows(c, vals, next, blocks[1..]);
      }
    }
  }

  lemma ReplayableIsWindowed(chain: seq<Block>)
    requires Replayable(chain)
    ensures Windowed(chain)
  {
    hide FitsCap, Clamp;
  }

  lemma ForkKeepsWindows(c: Crypto, vals: ValidatorMap, l: Ledger, candidate: Block)
    requires Shaped(c, l) && Windowed(l.chain)
    ensures Windowed(ResolveFork(c, vals, l, candidate).0.chain)
  {
    hide ResolveFork, ExpectedDifficulty, Clamp, Linked, NonceHistory;
    ForkImprovesTip(c, vals, l, candidate);
    var outcome := ResolveFork(c, vals, l, candidate).1;
    if outcome.Adopted? {
      var base := l.chain[..|l.chain| - 1];
      AdoptedOnSchedule(c, vals, l, candidate);
      WindowsExtend(base, outcome.block);
    }
  }

  lemma SyncKeepsWindows(c: Crypto, vals: ValidatorMap, l: Ledger, blocks: seq<Block>)
    requires Shaped(c, l) && Windowed(l.chain)
    ensures Windowed(ApplySynced(c, vals, l, blocks).0.chain)
  {
    hide AppendBlocks, Windowed, Shaped, ReplayFrom;
    if blocks != [] && blocks[0].index == 0 {
      if ReplaceChain(c, l, blocks).1.None? {
        ReplayNeedsReplayable(c, FounderOf(blocks), blocks);
        ReplayableIsWindowed(blocks);
      }
    } else {
      AppendKeepsWindows(c, vals, l, blocks);
    }
  }

  lemma ConfirmKeepsWindows(l: Ledger, b: Block)
    requires Windowed(l.chain)
    ensures Windowed(FinalizeExisting(l, b).0.chain)
  {
    hide FinalizeExisting, Clamp;
    FinalizeExistingTouchesOneFlag(l, b);
    var after := FinalizeExisting(l, b).0.chain;
    assert forall i :: 0 <= i < |after| ==> after[i].difficulty == l.chain[i].difficulty;
  }

  lemma NextKeepsWindows(c: Crypto, s: System, e: Event)
    requires Shaped(c, s.ledger) && Windowed(s.ledger.chain)
    ensures Windowed(Next(c, s, e).ledger.chain)
  {
    hide Windowed, Shaped, Commit, ResolveFork, ApplySynced, FinalizeExisting;
    match e
    case Conclude(id) =>
      if id in s.calls && s.calls[id].Polled? { CommitKeepsWindows(c, s.ledger, s.calls[id].block); }
    case Fork(candidate) => ForkKeepsWindows(c, s.validators, s.ledger, candidate);
    case SyncWith(blocks) => SyncKeepsWindows(c, s.validators, s.ledger, blocks);
    case Confirm(block) => ConfirmKeepsWindows(s.ledger, block);
    case _ =>
  }

  lemma {:induction false} RunKeepsWindows(c: Crypto, s: System, events: seq<Event>)
    requires Shaped(c, s.ledger) && Windowed(s.ledger.chain)
    ensures Windowed(Run(c, s, events).ledger.chain)
  {
    if events != [] {
      hide Windowed, Shaped, Next;
      var earlier := events[..|events| - 1];
      RunKeepsWindows(c, s, earlier);
      RunKeepsShape(c, s, earlier);
      NextKeepsWindows(c, Run(c, s, earlier), events[|events| - 1]);
    }
  }

  /** In every reachable state, also after forks and chain replacement, all blocks of one window of
      2016 have one difficulty, and those of the first window the initial one. */
  lemma WindowsOverRuns(c: Crypto, genesis: Block, founder: string, validators: ValidatorMap, limit: nat,
                        events: seq<Event>)
    requires IsGenesis(c, genesis, founder)
    ensures var chain := Run(c, GenesisSystem(genesis, founder, validators, limit), events).ledger.chain;
            && Windowed(chain)
            && forall i, j :: 0 <= i < |chain| && 0 <= j < |chain| && i / ADJUSTMENT_WINDOW == j / ADJUSTMENT_WINDOW ==>
                 Clamp(chain[i].difficulty) == Clamp(chain[j].difficulty)
  {
    hide Clamp, Run;
    var s := GenesisSystem(genesis, founder, validators, limit);
    GenesisSound(c, genesis, founder);
    GenesisIsWindowed(c, genesis, founder);
    RunKeepsWindows(c, s, events);
    var chain := Run(c, s, events).ledger.chain;
    forall i, j | 0 <= i < |chain| && 0 <= j < |chain| && i / ADJUSTMENT_WINDOW == j / ADJUSTMENT_WINDOW
      ensures Clamp(chain[i].difficulty) == Clamp(chain[j].difficulty)
    {
      OnePerWindow(chain, i, j);
    }
  }

  lemma GenesisIsWindowed(c: Crypto, genesis: Block, founder: string)
    requires IsGenesis(c, genesis, founder)
    ensures Windowed([genesis])
  {}

  lemma FirstWindowIsInitial(chain: seq<Block>)
    requires Windowed(chain)
    ensures forall i :: 0 <= i < |chain| && i < ADJUSTMENT_WINDOW ==> Clamp(chain[i].difficulty) == INITIAL_DIFFICULTY
  {
    hide Clamp;
    forall i | 0 <= i < |chain| && i < ADJUSTMENT_WINDOW ensures Clamp(chain[i].difficulty) == INITIAL_DIFFICULTY {
      WindowStart(chain, i);
    }
  }
}
