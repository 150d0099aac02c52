/** The halving schedule of block rewards and the bound on everything it can ever issue. */
module Emission {
  import opened Models

  const EMISSION_LIMIT: real := 6600000.0

  function Pow2(k: nat): (r: real)
    ensures r >= 1.0
  {
    if k == 0 then 1.0 else 2.0 * Pow2(k - 1)
  }

  function RewardAt(blockIndex: nat): real {
    BASE_BLOCK_REWARD / Pow2(blockIndex / HALVING_INTERVAL)
  }

  lemma HalfOf(x: real, p: real)
    requires p > 0.0
    ensures x / p / 2.0 == x / (2.0 * p)
  {
    var q := x / p;
    assert q * p == x;
    assert q / 2.0 * (2.0 * p) == x;
  }

  /** The first million blocks are worth 3.3 each, and a block half of what the one a million earlier was. */
  lemma RewardHalves(i: nat)
    ensures i < 1000000 ==> RewardAt(i) == 3.3
    ensures RewardAt(i + 1000000) == RewardAt(i) / 2.0
  {
    var era := i / 1000000;
    assert (i + 1000000) / 1000000 == era + 1;
    HalfOf(BASE_BLOCK_REWARD, Pow2(era));
  }

  /** The repeated halving computes 3.3 / 2^(index / 1,000,000). */
  method BlockReward(blockIndex: nat) returns (reward: real)
    ensures reward == RewardAt(blockIndex)
  {
    var halvings := blockIndex / HALVING_INTERVAL;
    reward := BASE_BLOCK_REWARD;
    var i := 0;
    while i < halvings
      invariant 0 <= i <= halvings
      invariant reward == BASE_BLOCK_REWARD / Pow2(i)
    {
      HalfOf(BASE_BLOCK_REWARD, Pow2(i));
      reward := reward / 2.0;
      i := i + 1;
    }
  }

  lemma RewardPositive(i: nat)
    ensures 0.0 < RewardAt(i) <= BASE_BLOCK_REWARD
  {
    var p := Pow2(i / HALVING_INTERVAL);
    var r := RewardAt(i);
    assert r * p == BASE_BLOCK_REWARD;
    assert r > 0.0;
    assert r * (p - 1.0) >= 0.0;
  }

  /** Rewards of the blocks 1..n. */
  function Emitted(n: nat): real {
    if n == 0 then 0.0 else Emitted(n - 1) + RewardAt(n)
  }

  function Unspent(n: nat): real {
    (2 * HALVING_INTERVAL - 1 - n % HALVING_INTERVAL) as real
  }

  lemma OneMore(x: real, r: real)
    ensures (x + 1.0) * r == x * r + r
  {}

  /** A reward leaves what it took out of what was left before it. */
  lemma SpendOne(n: nat)
    requires n > 0
    ensures Unspent(n) * RewardAt(n) + RewardAt(n) == Unspent(n - 1) * RewardAt(n - 1)
  {
    if n % HALVING_INTERVAL == 0 {
      NextInterval(n);
      HalfOf(BASE_BLOCK_REWARD, Pow2((n - 1) / HALVING_INTERVAL));
      assert RewardAt(n - 1) == 2.0 * RewardAt(n);
      assert Unspent(n) == 1999999.0 && Unspent(n - 1) == 1000000.0;
    } else {
      SameInterval(n);
      OneMore(Unspent(n), RewardAt(n));
    }
  }

  lemma NothingSpent()
    ensures RewardAt(0) + Unspent(0) * RewardAt(0) == EMISSION_LIMIT
  {
    assert RewardAt(0) == 3.3 && Unspent(0) == 1999999.0;
  }

  /** Exactly how much of the limit is left: at height n, twice an interval of the current reward
      less what the current interval has used (and less the reward block 0 never pays). */
  lemma {:induction false} EmissionAccount(n: nat)
    ensures Emitted(n) + RewardAt(0) + Unspent(n) * RewardAt(n) == EMISSION_LIMIT
  {
    hide RewardAt, Unspent;
    if n > 0 {
      EmissionAccount(n - 1);
      SpendOne(n);
    } else {
      NothingSpent();
    }
  }

  lemma NextInterval(n: nat)
    requires n > 0 && n % HALVING_INTERVAL == 0
    ensures n / HALVING_INTERVAL == (n - 1) / HALVING_INTERVAL + 1
    ensures (n - 1) % HALVING_INTERVAL == HALVING_INTERVAL - 1
  {}

  lemma SameInterval(n: nat)
    requires n % HALVING_INTERVAL != 0
    ensures n > 0 && n / HALVING_INTERVAL == (n - 1) / HALVING_INTERVAL
    ensures (n - 1) % HALVING_INTERVAL == n % HALVING_INTERVAL - 1
  {}

  lemma ProductNonNegative(x: real, y: real)
    requires x >= 0.0 && y >= 0.0
    ensures x * y >= 0.0
  {}

  /** However long the chain grows, the schedule issues less than 6,600,000 coins. */
  lemma EmissionBound(n: nat)
    ensures Emitted(n) < EMISSION_LIMIT
  {
    EmissionAccount(n);
    RewardPositive(n);
    RewardPositive(0);
    ProductNonNegative(Unspent(n), RewardAt(n));
  }
}
