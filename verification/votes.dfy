/** Verification votes: merging them into a block, counting them, and the finalization quorum. */
module Votes {
  import opened Models
  import opened Sorting

  // ---- Peer names ----

  function Decimal(n: nat): string {
    if n < 10 then [DigitOf(n)] else Decimal(n / 10) + [DigitOf(n % 10)]
  }

  function DigitOf(d: nat): char
    requires d < 10
  {
    '0' + d as char
  }

  function ParseDecimal(s: string): int {
    if s == "" then 0 else 10 * ParseDecimal(s[..|s| - 1]) + (s[|s| - 1] as int - '0' as int)
  }

  /** Printing a number loses nothing. */
  lemma {:induction false} DecimalRoundTrip(n: nat)
    ensures ParseDecimal(Decimal(n)) == n
  {
    if n >= 10 {
      DecimalRoundTrip(n / 10);
      var s := Decimal(n);
      assert s[..|s| - 1] == Decimal(n / 10);
    } else {
      assert Decimal(n)[..0] == "";
    }
  }

  const LOCAL: string := "local"
  const PEER_PREFIX: string := "peer-"

  /** The i-th external verifier, counted from 0, is named "peer-<i+1>". */
  function PeerName(i: nat): string {
    PEER_PREFIX + Decimal(i + 1)
  }

  lemma PeerNamesDiffer(i: nat, j: nat)
    ensures PeerName(i) != LOCAL
    ensures PeerName(i) == PeerName(j) ==> i == j
  {
    assert PeerName(i)[0] == 'p' && LOCAL[0] == 'l';
    if PeerName(i) == PeerName(j) {
      assert Decimal(i + 1) == PeerName(i)[|PEER_PREFIX|..] == PeerName(j)[|PEER_PREFIX|..] == Decimal(j + 1);
      DecimalRoundTrip(i + 1);
      DecimalRoundTrip(j + 1);
    }
  }

  // ---- Counting ----

  function CountAccepted(vs: seq<BlockVerification>): nat {
    if vs == [] then 0 else CountAccepted(vs[..|vs| - 1]) + if vs[|vs| - 1].accepted then 1 else 0
  }

  lemma {:induction false} CountAppend(a: seq<BlockVerification>, b: seq<BlockVerification>)
    ensures CountAccepted(a + b) == CountAccepted(a) + CountAccepted(b)
  {
    if b == [] {
      assert a + b == a;
    } else {
      CountAppend(a, b[..|b| - 1]);
      assert (a + b)[..|a + b| - 1] == a + b[..|b| - 1];
    }
  }

  lemma CountOne(x: seq<BlockVerification>, v: BlockVerification, y: seq<BlockVerification>)
    ensures CountAccepted(x + [v] + y) == CountAccepted(x + y) + if v.accepted then 1 else 0
  {
    CountAppend(x + [v], y);
    CountAppend(x, y);
    assert (x + [v])[..|x + [v]| - 1] == x;
  }

  lemma MultisetOne(x: seq<BlockVerification>, v: BlockVerification, y: seq<BlockVerification>)
    ensures multiset(x + [v] + y) == multiset(x + y) + multiset{v}
  {}

  lemma TakeOut(b: seq<BlockVerification>, v: BlockVerification)
    returns (x: seq<BlockVerification>, y: seq<BlockVerification>)
    requires v in multiset(b)
    ensures b == x + [v] + y
  {
    var k :| 0 <= k < |b| && b[k] == v;
    x, y := b[..k], b[k + 1..];
  }

  lemma LastOut(rest: seq<BlockVerification>, v: BlockVerification)
    ensures multiset(rest + [v]) == multiset(rest) + multiset{v}
    ensures CountAccepted(rest + [v]) == CountAccepted(rest) + if v.accepted then 1 else 0
  {
    assert (rest + [v])[..|rest + [v]| - 1] == rest;
  }

  lemma OneLess(a: multiset<BlockVerification>, b: multiset<BlockVerification>, v: BlockVerification)
    requires a + multiset{v} == b + multiset{v}
    ensures a == b
  {
    assert a == a + multiset{v} - multiset{v};
    assert b == b + multiset{v} - multiset{v};
  }

  lemma {:induction false} CountIsOrderFree(a: seq<BlockVerification>, b: seq<BlockVerification>)
    requires multiset(a) == multiset(b)
    ensures CountAccepted(a) == CountAccepted(b)
    decreases |a|
  {
    if a == [] {
      assert |b| == |multiset(b)|;
    } else {
      hide CountAccepted;
      var rest, v := a[..|a| - 1], a[|a| - 1];
      assert a == rest + [v];
      LastOut(rest, v);
      var x, y := TakeOut(b, v);
      MultisetOne(x, v, y);
      CountOne(x, v, y);
      OneLess(multiset(rest), multiset(x + y), v);
      CountIsOrderFree(rest, x + y);
    }
  }

  // ---- Merging ----

  ghost predicate DistinctPeers(vs: seq<BlockVerification>) {
    forall i, j :: 0 <= i < j < |vs| ==> vs[i].peer != vs[j].peer
  }

  predicate HasPeer(vs: seq<BlockVerification>, peer: string) {
    exists i :: 0 <= i < |vs| && vs[i].peer == peer
  }

  /** The votes whose peer has not voted earlier in the list. */
  function FirstVotes(vs: seq<BlockVerification>): seq<BlockVerification> {
    if vs == [] then []
    else
      var rest, v := vs[..|vs| - 1], vs[|vs| - 1];
      if HasPeer(rest, v.peer) then FirstVotes(rest) else FirstVotes(rest) + [v]
  }

  /** The votes of peers not among `known`. */
  function Unseen(vs: seq<BlockVerification>, known: seq<BlockVerification>): seq<BlockVerification> {
    if vs == [] then []
    else
      var rest, v := vs[..|vs| - 1], vs[|vs| - 1];
      if HasPeer(known, v.peer) then Unseen(rest, known) else Unseen(rest, known) + [v]
  }

  function ByPeer(): (BlockVerification, BlockVerification) -> bool {
    (a: BlockVerification, b: BlockVerification) => !StringLess(b.peer, a.peer)
  }

  lemma ByPeerIsOrder()
    ensures TotalPreorder(ByPeer())
  {
    var le := ByPeer();
    forall a, b ensures le(a, b) || le(b, a) { StringOrder(a.peer, b.peer); }
    forall a, b, c | le(a, b) && le(b, c) ensures le(a, c) {
      StringOrder(a.peer, b.peer);
      StringOrder(b.peer, c.peer);
      if StringLess(a.peer, b.peer) && StringLess(b.peer, c.peer) {
        StringLessTransitive(a.peer, b.peer, c.peer);
      }
      StringOrder(a.peer, c.peer);
    }
  }

  function MergedVotes(carried: seq<BlockVerification>, results: seq<BlockVerification>): seq<BlockVerification> {
    FirstVotes(carried) + Unseen(Sort(results, ByPeer()), carried)
  }

  /** Writes each vote into the vote map, in order. */
  function Record(m: map<string, bool>, vs: seq<BlockVerification>): map<string, bool> {
    if vs == [] then m else Record(m, vs[..|vs| - 1])[vs[|vs| - 1].peer := vs[|vs| - 1].accepted]
  }

  function MergeInto(b: Block, results: seq<BlockVerification>): Block {
    var merged := MergedVotes(b.verifications, results);
    b.(verifications := merged, blockVerifications := Record(b.blockVerifications, merged))
  }

  lemma HasPeerAppend(vs: seq<BlockVerification>, v: BlockVerification, p: string)
    ensures HasPeer(vs + [v], p) <==> HasPeer(vs, p) || p == v.peer
  {
    if HasPeer(vs, p) {
      var i :| 0 <= i < |vs| && vs[i].peer == p;
      assert (vs + [v])[i].peer == p;
    }
    if p == v.peer { assert (vs + [v])[|vs|].peer == p; }
  }

  lemma {:induction false} FirstVotesPeers(vs: seq<BlockVerification>)
    ensures DistinctPeers(FirstVotes(vs))
    ensures forall p :: HasPeer(FirstVotes(vs), p) <==> HasPeer(vs, p)
  {
    if vs != [] {
      var rest, v := vs[..|vs| - 1], vs[|vs| - 1];
      FirstVotesPeers(rest);
      assert vs == rest + [v];
      forall p ensures HasPeer(FirstVotes(vs), p) <==> HasPeer(vs, p) {
        HasPeerAppend(rest, v, p);
        HasPeerAppend(FirstVotes(rest), v, p);
      }
      if !HasPeer(rest, v.peer) {
        forall i | 0 <= i < |FirstVotes(rest)| ensures FirstVotes(rest)[i].peer != v.peer {
          assert HasPeer(FirstVotes(rest), FirstVotes(rest)[i].peer);
        }
      }
    }
  }

  /** A vote is kept exactly when it stands somewhere in the list with no earlier vote of its peer. */
  lemma {:induction false} FirstVotesAreFirst(vs: seq<BlockVerification>, w: BlockVerification)
    ensures w in FirstVotes(vs) <==> exists i :: 0 <= i < |vs| && vs[i] == w && !HasPeer(vs[..i], w.peer)
  {
    if vs != [] {
      var rest, v := vs[..|vs| - 1], vs[|vs| - 1];
      FirstVotesAreFirst(rest, w);
      if w in FirstVotes(rest) {
        var i :| 0 <= i < |rest| && rest[i] == w && !HasPeer(rest[..i], w.peer);
        assert vs[i] == w && vs[..i] == rest[..i];
      }
      if w == v && !HasPeer(rest, v.peer) { assert vs[|vs| - 1] == w; }
      if i :| 0 <= i < |vs| && vs[i] == w && !HasPeer(vs[..i], w.peer) {
        if i < |rest| {
          assert rest[i] == w && rest[..i] == vs[..i];
        } else {
          assert vs[..i] == rest;
        }
      }
    }
  }

  lemma {:induction false} UnseenMembers(vs: seq<BlockVerification>, known: seq<BlockVerification>,
                                         v: BlockVerification)
    ensures v in Unseen(vs, known) <==> v in vs && !HasPeer(known, v.peer)
  {
    if vs != [] {
      UnseenMembers(vs[..|vs| - 1], known, v);
      assert vs == vs[..|vs| - 1] + [vs[|vs| - 1]];
    }
  }

  lemma {:induction false} UnseenOrder(vs: seq<BlockVerification>, known: seq<BlockVerification>)
    ensures DistinctPeers(vs) ==> DistinctPeers(Unseen(vs, known))
    ensures Sorted(vs, ByPeer()) ==> Sorted(Unseen(vs, known), ByPeer())
  {
    if vs != [] {
      var earlier := vs[..|vs| - 1];
      UnseenOrder(earlier, known);
      var rest := Unseen(earlier, known);
      forall i | 0 <= i < |rest| ensures exists k :: 0 <= k < |vs| - 1 && vs[k] == rest[i] {
        UnseenMembers(earlier, known, rest[i]);
        var k :| 0 <= k < |earlier| && earlier[k] == rest[i];
        assert vs[k] == rest[i];
      }
    }
  }

  lemma NotLater(vs: seq<BlockVerification>, p: string)
    requires vs != [] && !HasPeer(vs, p)
    ensures !HasPeer(vs[..|vs| - 1], p) && p != vs[|vs| - 1].peer
  {
    assert forall i :: 0 <= i < |vs| - 1 ==> vs[..|vs| - 1][i] == vs[i];
  }

  lemma {:induction false} RecordKeepsOthers(m: map<string, bool>, vs: seq<BlockVerification>, p: string)
    requires !HasPeer(vs, p)
    ensures (p in Record(m, vs) <==> p in m) && (p in m ==> Record(m, vs)[p] == m[p])
  {
    if vs != [] {
      NotLater(vs, p);
      hide HasPeer;
      RecordKeepsOthers(m, vs[..|vs| - 1], p);
    }
  }

  lemma {:induction false} RecordAgrees(m: map<string, bool>, vs: seq<BlockVerification>)
    requires DistinctPeers(vs)
    ensures forall i :: 0 <= i < |vs| ==> vs[i].peer in Record(m, vs) && Record(m, vs)[vs[i].peer] == vs[i].accepted
  {
    if vs != [] {
      var rest := vs[..|vs| - 1];
      RecordAgrees(m, rest);
      assert forall i :: 0 <= i < |rest| ==> rest[i] == vs[i];
    }
  }

  /** The merged list names each peer once: the carried votes' first occurrences, then the new
      peers in name order; and the vote map agrees with every listed vote. */
  lemma MergeCorrect(b: Block, results: seq<BlockVerification>)
    requires DistinctPeers(results)
    ensures var after := MergeInto(b, results);
            var added := Unseen(Sort(results, ByPeer()), b.verifications);
            && after.verifications == FirstVotes(b.verifications) + added
            && DistinctPeers(after.verifications)
            && Sorted(added, ByPeer())
            && (forall v :: v in added <==> v in results && !HasPeer(b.verifications, v.peer))
            && (forall v :: v in after.verifications ==>
                  v.peer in after.blockVerifications && after.blockVerifications[v.peer] == v.accepted)
            && Body(after) == Body(b)
  {
    var sorted := Sort(results, ByPeer());
    ByPeerIsOrder();
    SortCorrect(results, ByPeer());
    SamePeers(results, sorted);
    FirstVotesPeers(b.verifications);
    UnseenOrder(sorted, b.verifications);
    var first, added := FirstVotes(b.verifications), Unseen(sorted, b.verifications);
    forall v ensures v in added <==> v in results && !HasPeer(b.verifications, v.peer) {
      UnseenMembers(sorted, b.verifications, v);
      assert v in sorted <==> v in multiset(sorted);
      assert v in results <==> v in multiset(results);
    }
    forall i, j | 0 <= i < |first| && 0 <= j < |added| ensures first[i].peer != added[j].peer {
      assert HasPeer(first, first[i].peer);
      assert added[j] in added;
    }
    RecordAgrees(b.blockVerifications, first + added);
  }

  lemma {:induction false} UnseenNone(vs: seq<BlockVerification>, known: seq<BlockVerification>)
    ensures Unseen(vs, known) == [] <==> forall i :: 0 <= i < |vs| ==> HasPeer(known, vs[i].peer)
  {
    if vs != [] {
      var rest := vs[..|vs| - 1];
      UnseenNone(rest, known);
      assert forall i :: 0 <= i < |rest| ==> rest[i] == vs[i];
    }
  }

  lemma {:induction false} DistinctVotesAllFirst(votes: seq<BlockVerification>)
    requires DistinctPeers(votes)
    ensures FirstVotes(votes) == votes
  {
    if votes != [] {
      var rest, v := votes[..|votes| - 1], votes[|votes| - 1];
      DistinctVotesAllFirst(rest);
      assert !HasPeer(rest, v.peer) && votes == rest + [v];
    }
  }

  /** A merge leaves the carried votes as they are if and only if no peer votes twice among them and
      every result comes from a peer that has voted already. */
  lemma MergeLeavesVotesExactly(b: Block, results: seq<BlockVerification>)
    ensures MergeInto(b, results).verifications == b.verifications <==>
              DistinctPeers(b.verifications) && forall r :: r in results ==> HasPeer(b.verifications, r.peer)
  {
    hide HasPeer, TotalPreorder, Sorted;
    var carried, sorted := b.verifications, Sort(results, ByPeer());
    var first, added := FirstVotes(carried), Unseen(sorted, carried);
    ByPeerIsOrder();
    SortCorrect(results, ByPeer());
    FirstVotesPeers(carried);
    UnseenNone(sorted, carried);
    forall r ensures r in sorted <==> r in results {
      assert r in sorted <==> r in multiset(sorted);
      assert r in results <==> r in multiset(results);
    }
    if first + added == carried && added != [] {
      UnseenMembers(sorted, carried, added[0]);
      assert carried[|first|] == added[0];
      HasItself(carried, |first|);
    }
    if DistinctPeers(carried) { DistinctVotesAllFirst(carried); }
    if added == [] { assert first + added == first; }
  }

  lemma HasItself(vs: seq<BlockVerification>, i: nat)
    requires i < |vs|
    ensures HasPeer(vs, vs[i].peer)
  {}

  /** Distinctness of peers is a property of the multiset of votes. */
  lemma SamePeers(a: seq<BlockVerification>, b: seq<BlockVerification>)
    requires multiset(a) == multiset(b) && DistinctPeers(a)
    ensures DistinctPeers(b)
  {
    forall i, j | 0 <= i < j < |b| ensures b[i].peer != b[j].peer {
      assert b[i] in multiset(a) && b[j] in multiset(a);
      var k :| 0 <= k < |a| && a[k] == b[i];
      var l :| 0 <= l < |a| && a[l] == b[j];
      if b[i].peer == b[j].peer {
        assert k == l;
        assert multiset(b)[b[i]] >= 2 by {
          assert b == b[..j] + [b[j]] + b[j + 1..];
          assert b[i] in b[..j];
        }
        OnceEach(a, k);
      }
    }
  }

  lemma OnceEach(a: seq<BlockVerification>, k: nat)
    requires DistinctPeers(a) && k < |a|
    ensures multiset(a)[a[k]] == 1
  {
    assert a == a[..k] + [a[k]] + a[k + 1..];
    assert a[k] !in a[..k] && a[k] !in a[k + 1..];
  }

  /** Whatever order the verifiers finish in, and whatever sorting algorithm orders their results,
      the merge and the number of accepting votes are the same. */
  lemma MergeIsScheduleIndependent(b: Block, results: seq<BlockVerification>, completion: seq<BlockVerification>,
                                   sorted: seq<BlockVerification>)
    requires DistinctPeers(results) && multiset(completion) == multiset(results)
    requires Sorted(sorted, ByPeer()) && multiset(sorted) == multiset(completion)
    ensures sorted == Sort(results, ByPeer())
    ensures MergeInto(b, completion) == MergeInto(b, results)
    ensures CountAccepted(completion) == CountAccepted(results)
  {
    ByPeerIsOrder();
    SortCorrect(results, ByPeer());
    SortCorrect(completion, ByPeer());
    SortedVotesUnique(sorted, Sort(results, ByPeer()), results);
    SortedVotesUnique(Sort(completion, ByPeer()), Sort(results, ByPeer()), results);
    CountIsOrderFree(completion, results);
  }

  lemma SortedVotesUnique(s: seq<BlockVerification>, t: seq<BlockVerification>, results: seq<BlockVerification>)
    requires Sorted(s, ByPeer()) && Sorted(t, ByPeer())
    requires multiset(s) == multiset(results) == multiset(t) && DistinctPeers(results)
    ensures s == t
  {
    SamePeers(results, s);
    var le := ByPeer();
    forall a | a in s ensures le(a, a) { StringOrder(a.peer, a.peer); }
    forall a, b | a in s && b in s && le(a, b) && le(b, a) ensures a == b {
      StringOrder(a.peer, b.peer);
      var i :| 0 <= i < |s| && s[i] == a;
      var j :| 0 <= j < |s| && s[j] == b;
    }
    SortedUnique(s, t, le);
  }

  /** The votes AddBlock collects: the local one and one for each external verifier. */
  function VoteResults(local: bool, peers: seq<bool>): seq<BlockVerification> {
    [BlockVerification(LOCAL, local)]
    + seq(|peers|, i requires 0 <= i < |peers| => BlockVerification(PeerName(i), peers[i]))
  }

  lemma VoteResultsDistinct(local: bool, peers: seq<bool>)
    ensures DistinctPeers(VoteResults(local, peers))
  {
    var rs := VoteResults(local, peers);
    forall i, j | 0 <= i < j < |rs| ensures rs[i].peer != rs[j].peer {
      PeerNamesDiffer(j - 1, if i > 0 then i - 1 else 0);
    }
  }

  // ---- What the verifiers said ----

  /** How many accept: this node, if the block is valid for it, and every peer that says so. */
  function Acceptances(valid: bool, peers: seq<bool>): nat {
    (if valid then 1 else 0) + |set k | 0 <= k < |peers| && peers[k]|
  }

  lemma AcceptancesStep(valid: bool, peers: seq<bool>)
    requires peers != []
    ensures Acceptances(valid, peers) == Acceptances(valid, peers[..|peers| - 1]) + if peers[|peers| - 1] then 1 else 0
  {
    var n := |peers| - 1;
    var all, before := set k | 0 <= k < |peers| && peers[k], set k | 0 <= k < n && peers[..n][k];
    assert all == before + if peers[n] then {n} else {};
  }

  lemma NoAcceptances(valid: bool)
    ensures Acceptances(valid, []) == if valid then 1 else 0
  {
    var none: seq<bool> := [];
    assert (set k | 0 <= k < |none| && none[k]) == {};
  }

  /** Counting the collected votes counts exactly the acceptances given. */
  lemma {:induction false} CountsAcceptances(valid: bool, peers: seq<bool>)
    ensures CountAccepted(VoteResults(valid, peers)) == Acceptances(valid, peers)
  {
    var results := VoteResults(valid, peers);
    if peers == [] {
      NoAcceptances(valid);
      assert results[..0] == [];
    } else {
      var n := |peers| - 1;
      CountsAcceptances(valid, peers[..n]);
      AcceptancesStep(valid, peers);
      assert results[..|results| - 1] == VoteResults(valid, peers[..n]);
    }
  }

  /** The k-th peer, counted from 1, is named "peer-<k>". */
  lemma PeerNameReads(i: nat)
    ensures PeerName(i)[..5] == "peer-" && ParseDecimal(PeerName(i)[5..]) == i + 1
  {
    DecimalRoundTrip(i + 1);
    assert PeerName(i)[5..] == Decimal(i + 1);
  }

  /** After the merge each verifier that had not voted before stands recorded with the vote it gave, under
      its own name, in the list and in the map. */
  lemma VotesAreRecorded(b: Block, valid: bool, peers: seq<bool>)
    ensures var after := MergeInto(b, VoteResults(valid, peers));
            && (!HasPeer(b.verifications, "local") ==>
                  BlockVerification("local", valid) in after.verifications
                  && "local" in after.blockVerifications && after.blockVerifications["local"] == valid)
            && forall k :: 0 <= k < |peers| && !HasPeer(b.verifications, PeerName(k)) ==>
                 BlockVerification(PeerName(k), peers[k]) in after.verifications
                 && PeerName(k) in after.blockVerifications && after.blockVerifications[PeerName(k)] == peers[k]
  {
    hide MergeInto, FirstVotes, Unseen, HasPeer, DistinctPeers, Sorted, Sort, PeerName, Body;
    var results := VoteResults(valid, peers);
    VoteResultsDistinct(valid, peers);
    MergeCorrect(b, results);
    var after := MergeInto(b, results);
    assert results[0] == BlockVerification("local", valid);
    forall k | 0 <= k < |peers| && !HasPeer(b.verifications, PeerName(k))
      ensures BlockVerification(PeerName(k), peers[k]) in after.verifications
    {
      assert results[k + 1] == BlockVerification(PeerName(k), peers[k]);
    }
  }

  // ---- Finalization ----

  type ValidatorMap = map<string, Validator>

  function ActiveValidators(vals: ValidatorMap): set<string> {
    set id | id in vals && vals[id].active
  }

  function Ceil(r: real): int {
    -((-r).Floor)
  }

  /** -1 without active validators, else two thirds of them rounded up, but at least 3. */
  function FinalizationThreshold(vals: ValidatorMap): int {
    var active := |ActiveValidators(vals)|;
    if active == 0 then -1
    else
      var dynamic := Ceil(active as real * 2.0 / 3.0);
      var atLeastOne := if dynamic < 1 then 1 else dynamic;
      if FINALIZATION_THRESHOLD > atLeastOne then FINALIZATION_THRESHOLD else atLeastOne
  }

  lemma CeilTwoThirds(n: nat)
    ensures Ceil(n as real * 2.0 / 3.0) == (2 * n + 2) / 3
  {
    var r := n as real * 2.0 / 3.0;
    var q := (2 * n + 2) / 3;
    assert 3.0 * r == 2.0 * n as real;
    assert 3 * q - 2 <= 2 * n <= 3 * q;
    assert (-(q as real)) <= -r < -(q as real) + 1.0;
  }

  /** With validators active, the threshold is the least number that is at least 3 and two thirds of them. */
  lemma ThresholdExactly(vals: ValidatorMap)
    ensures var n, t := |set id | id in vals && vals[id].active|, FinalizationThreshold(vals);
            if n == 0 then t == -1
            else t >= 3 && 3 * t >= 2 * n && forall q :: q >= 3 && 3 * q >= 2 * n ==> q >= t
  {
    CeilTwoThirds(|ActiveValidators(vals)|);
  }

  function MarkFinalized(vals: ValidatorMap, b: Block): Block {
    if b.finalized || FinalizationThreshold(vals) <= 0 then b
    else b.(finalized := CountAccepted(b.verifications) >= FinalizationThreshold(vals))
  }

  // ---- Validator confirmations ----

  datatype AppendError = AlreadyFinalized | DuplicateVote | UnknownValidator | InactiveValidator

  function AppendVerification(vals: ValidatorMap, b: Block, v: BlockVerification): Result<Block, AppendError> {
    if b.finalized then Err(AlreadyFinalized)
    else if HasPeer(b.verifications, v.peer) then Err(DuplicateVote)
    else if v.peer !in vals then Err(UnknownValidator)
    else if !vals[v.peer].active then Err(InactiveValidator)
    else Ok(MarkFinalized(vals, b.(verifications := b.verifications + [v],
                                   blockVerifications := b.blockVerifications[v.peer := v.accepted])))
  }

  /** Marking changes the final flag alone: up, exactly when two thirds of the active validators, and at
      least 3, are matched by accepted votes. */
  lemma MarksExactly(vals: ValidatorMap, b: Block)
    ensures var n := |set id | id in vals && vals[id].active|;
            var reached := n > 0 && CountAccepted(b.verifications) >= 3 && 3 * CountAccepted(b.verifications) >= 2 * n;
            MarkFinalized(vals, b) == b.(finalized := b.finalized || reached)
  {
    ThresholdExactly(vals);
  }

  /** A confirmation is taken if and only if the block is not final, its peer has not voted, and is a
      registered, active validator; it is then recorded as given, in the list and in the map. */
  lemma AppendsExactly(vals: ValidatorMap, b: Block, v: BlockVerification)
    ensures AppendVerification(vals, b, v).Ok? <==>
              && !b.finalized && (forall i :: 0 <= i < |b.verifications| ==> b.verifications[i].peer != v.peer)
              && v.peer in vals && vals[v.peer].active
    ensures AppendVerification(vals, b, v).Ok? ==>
              var after := AppendVerification(vals, b, v).value;
              && after.verifications == b.verifications + [v]
              && after.blockVerifications == b.blockVerifications[v.peer := v.accepted]
              && Body(after) == Body(b)
              && (after.finalized <==>
                    var accepted := CountAccepted(b.verifications) + if v.accepted then 1 else 0;
                    accepted >= 3 && 3 * accepted >= 2 * |ActiveValidators(vals)|)
    ensures AppendVerification(vals, b, v) == Err(AlreadyFinalized) <==> b.finalized
    ensures AppendVerification(vals, b, v) == Err(DuplicateVote) <==> !b.finalized && HasPeer(b.verifications, v.peer)
  {
    var longer := b.verifications + [v];
    assert longer[..|longer| - 1] == b.verifications;
    if AppendVerification(vals, b, v).Ok? {
      assert v.peer in ActiveValidators(vals);
      MarksExactly(vals, b.(verifications := longer, blockVerifications := b.blockVerifications[v.peer := v.accepted]));
    }
  }

  /** The block after a sequence of attempted confirmations, refused ones leaving it alone. */
  function AppendAll(vals: ValidatorMap, b: Block, votes: seq<BlockVerification>): Block {
    if votes == [] then b
    else
      var before := AppendAll(vals, b, votes[..|votes| - 1]);
      match AppendVerification(vals, before, votes[|votes| - 1])
      case Ok(after) => after
      case Err(_) => before
  }

  predicate Fresh(b: Block) {
    b.verifications == [] && !b.finalized
  }

  /** The peers that accepted. */
  function AcceptersIn(vs: seq<BlockVerification>): set<string> {
    if vs == [] then {}
    else AcceptersIn(vs[..|vs| - 1]) + if vs[|vs| - 1].accepted then {vs[|vs| - 1].peer} else {}
  }

  function Accepters(b: Block): set<string> {
    AcceptersIn(b.verifications)
  }

  function QuorumSize(n: nat): nat {
    if (2 * n + 2) / 3 < FINALIZATION_THRESHOLD then FINALIZATION_THRESHOLD else (2 * n + 2) / 3
  }

  /** A block confirmed only by validators is final exactly when a quorum of distinct active
      validators has accepted it, and then by no more than the quorum. */
  ghost predicate Confirmed(vals: ValidatorMap, b: Block) {
    && DistinctPeers(b.verifications)
    && (forall i :: 0 <= i < |b.verifications| ==> b.verifications[i].peer in ActiveValidators(vals))
    && CountAccepted(b.verifications) <= QuorumSize(|ActiveValidators(vals)|)
    && (b.finalized <==> CountAccepted(b.verifications) == QuorumSize(|ActiveValidators(vals)|))
  }

  lemma ThresholdIsQuorum(vals: ValidatorMap)
    ensures ActiveValidators(vals) != {} ==> FinalizationThreshold(vals) == QuorumSize(|ActiveValidators(vals)|)
    ensures ActiveValidators(vals) == {} ==> FinalizationThreshold(vals) == -1
  {
    CeilTwoThirds(|ActiveValidators(vals)|);
  }

  /** One more accepted confirmation keeps the block confirmed. */
  lemma AppendKeepsConfirmed(vals: ValidatorMap, b: Block, v: BlockVerification)
    requires Confirmed(vals, b) && AppendVerification(vals, b, v).Ok?
    ensures Confirmed(vals, AppendVerification(vals, b, v).value)
  {
    hide FinalizationThreshold;
    var longer := b.verifications + [v];
    ThresholdIsQuorum(vals);
    assert v.peer in ActiveValidators(vals);
    assert longer[..|longer| - 1] == b.verifications;
    assert DistinctPeers(longer);
  }

  lemma {:induction false} ConfirmationsKeepConfirmed(vals: ValidatorMap, b: Block, votes: seq<BlockVerification>)
    requires Fresh(b)
    ensures Confirmed(vals, AppendAll(vals, b, votes))
  {
    hide AppendVerification;
    if votes != [] {
      ConfirmationsKeepConfirmed(vals, b, votes[..|votes| - 1]);
      var before, v := AppendAll(vals, b, votes[..|votes| - 1]), votes[|votes| - 1];
      if AppendVerification(vals, before, v).Ok? { AppendKeepsConfirmed(vals, before, v); }
    }
  }

  /** Once final, no further confirmation changes the block. */
  lemma {:induction false} FinalVotesAreFrozen(vals: ValidatorMap, b: Block, votes: seq<BlockVerification>)
    requires b.finalized
    ensures AppendAll(vals, b, votes) == b
  {
    if votes != [] { FinalVotesAreFrozen(vals, b, votes[..|votes| - 1]); }
  }

  lemma {:induction false} AcceptersVoted(vs: seq<BlockVerification>, p: string)
    ensures p in AcceptersIn(vs) <==> exists i :: 0 <= i < |vs| && vs[i].accepted && vs[i].peer == p
  {
    if vs != [] {
      var rest := vs[..|vs| - 1];
      AcceptersVoted(rest, p);
      if i :| 0 <= i < |rest| && rest[i].accepted && rest[i].peer == p { assert vs[i].accepted && vs[i].peer == p; }
      if i :| 0 <= i < |vs| && vs[i].accepted && vs[i].peer == p { assert i < |rest| ==> rest[i] == vs[i]; }
    }
  }

  lemma {:induction false} AcceptersCounted(vs: seq<BlockVerification>)
    requires DistinctPeers(vs)
    ensures |AcceptersIn(vs)| == CountAccepted(vs)
  {
    if vs != [] {
      var rest, v := vs[..|vs| - 1], vs[|vs| - 1];
      AcceptersCounted(rest);
      AcceptersVoted(rest, v.peer);
      assert v.peer !in AcceptersIn(rest);
    }
  }

  lemma AcceptersAreActive(vals: ValidatorMap, b: Block)
    requires Confirmed(vals, b)
    ensures Accepters(b) <= ActiveValidators(vals)
  {
    forall p | p in Accepters(b) ensures p in ActiveValidators(vals) { AcceptersVoted(b.verifications, p); }
  }

  /** Any two blocks finalized by confirmations alone share at least a third of the active
      validators, rounded up, each of whom accepted both. */
  lemma QuorumsIntersect(vals: ValidatorMap, a: Block, b: Block, votesA: seq<BlockVerification>,
                         votesB: seq<BlockVerification>)
    requires Fresh(a) && Fresh(b)
    requires AppendAll(vals, a, votesA).finalized && AppendAll(vals, b, votesB).finalized
    ensures var common := Accepters(AppendAll(vals, a, votesA)) * Accepters(AppendAll(vals, b, votesB));
            && common <= ActiveValidators(vals)
            && |common| >= (|ActiveValidators(vals)| + 2) / 3
            && common != {}
  {
    var x, y := AppendAll(vals, a, votesA), AppendAll(vals, b, votesB);
    var active := ActiveValidators(vals);
    ConfirmationsKeepConfirmed(vals, a, votesA);
    ConfirmationsKeepConfirmed(vals, b, votesB);
    AcceptersCounted(x.verifications);
    AcceptersCounted(y.verifications);
    AcceptersAreActive(vals, x);
    AcceptersAreActive(vals, y);
    SubsetSize(Accepters(x) + Accepters(y), active);
    assert |Accepters(x) + Accepters(y)| == |Accepters(x)| + |Accepters(y)| - |Accepters(x) * Accepters(y)|;
  }

  lemma SubsetSize<T>(a: set<T>, b: set<T>)
    requires a <= b
    ensures |a| <= |b|
  {
    assert b == a + (b - a);
  }
}
