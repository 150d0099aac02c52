/** Account arithmetic: the value-copy simulation that verification runs over a block's
    transactions, the apply step that commits them, and how the two agree. */
module AccountMath {
  import opened Models

  datatype VerifyError =
    | NoGenesisBlock
    | DifficultyMismatch(got: nat, want: nat)
    | HashMismatch
    | HashTooEasy
    | IndexMismatch(got: nat, want: nat)
    | PrevHashMismatch
    | CapExceeded
    | CoinbaseNotFirst
    | CoinbaseSequence
    | SequenceMismatch(got: nat, want: nat)
    | BadSignature(id: string)
    | NonceMismatch(from: string, got: nat, want: nat)
    | InsufficientBalance(from: string)

  const NO_ACCOUNT: Account := Account("", 0.0, 0)

  /** A missing account reads as the zero account. */
  function Get(accounts: Accounts, a: string): Account {
    if a in accounts then accounts[a] else NO_ACCOUNT
  }

  // ---- Sum of balances ----

  ghost function Total(accounts: Accounts): real
    decreases |accounts|
  {
    if accounts == map[] then 0.0
    else
      var a :| a in accounts;
      accounts[a].balance + Total(accounts - {a})
  }

  lemma {:induction false} TotalWithout(accounts: Accounts, a: string)
    requires a in accounts
    ensures Total(accounts) == accounts[a].balance + Total(accounts - {a})
    decreases |accounts|
  {
    var b :| b in accounts && Total(accounts) == accounts[b].balance + Total(accounts - {b});
    if a != b {
      TotalWithout(accounts - {b}, a);
      TotalWithout(accounts - {a}, b);
      assert accounts - {a} - {b} == accounts - {b} - {a};
    }
  }

  lemma TotalUpdate(accounts: Accounts, a: string, acc: Account)
    ensures Total(accounts[a := acc]) == Total(accounts) - Get(accounts, a).balance + acc.balance
  {
    var updated := accounts[a := acc];
    TotalWithout(updated, a);
    assert updated - {a} == accounts - {a};
    if a in accounts {
      TotalWithout(accounts, a);
    } else {
      assert accounts - {a} == accounts;
    }
  }

  ghost predicate NonNegative(accounts: Accounts) {
    forall a :: a in accounts ==> accounts[a].balance >= 0.0
  }

  lemma {:induction false} TotalCovers(accounts: Accounts, a: string)
    requires NonNegative(accounts)
    ensures Total(accounts) >= Get(accounts, a).balance >= 0.0
    decreases |accounts|
  {
    if a in accounts {
      TotalWithout(accounts, a);
      if accounts - {a} != map[] {
        var b :| b in accounts - {a};
        TotalCovers(accounts - {a}, b);
      }
    } else if accounts != map[] {
      var b :| b in accounts;
      TotalWithout(accounts, b);
      TotalCovers(accounts - {b}, a);
    }
  }

  /** Every account is stored under its own address. */
  ghost predicate Addressed(accounts: Accounts) {
    forall a :: a in accounts ==> accounts[a].address == a
  }

  // ---- One transaction ----

  /** How the verification simulation moves money, on value copies. */
  function SimulateTx(accounts: Accounts, tx: Transaction): Accounts {
    var s := Get(accounts, tx.from);
    var debited := accounts[tx.from := s.(balance := s.balance - (tx.amount + tx.fee), nonce := tx.nonce)];
    var r := Get(debited, tx.to);
    debited[tx.to := Account(tx.to, r.balance + tx.amount, r.nonce)]
  }

  function Debited(accounts: Accounts, tx: Transaction): Accounts
    requires tx.from in accounts
  {
    var s := accounts[tx.from];
    accounts[tx.from := s.(balance := s.balance - (tx.amount + tx.fee), nonce := tx.nonce)]
  }

  /** More money for an account, opened first if there is none. */
  function Deposited(accounts: Accounts, a: string, amount: real): Accounts {
    var acc := if a in accounts then accounts[a] else Account(a, 0.0, 0);
    accounts[a := acc.(balance := acc.balance + amount)]
  }

  function Credited(accounts: Accounts, tx: Transaction): Accounts {
    Deposited(accounts, tx.to, tx.amount)
  }

  /** How a committed transaction moves money; the sender must exist. */
  function ApplyTx(accounts: Accounts, tx: Transaction): Accounts
    requires tx.from in accounts
  {
    Credited(Debited(accounts, tx), tx)
  }

  // ---- A block's transactions ----

  /** Verification of a transaction list against value copies; on success the simulated accounts. */
  function Simulate(c: Crypto, accounts: Accounts, txs: seq<Transaction>, expectedSeq: nat)
    : Result<Accounts, VerifyError>
    decreases |txs|
  {
    if txs == [] then Ok(accounts)
    else
      var tx := txs[0];
      if tx.isCoinbase then
        if expectedSeq != 0 then Err(CoinbaseNotFirst)
        else if tx.sequenceNumber != 0 then Err(CoinbaseSequence)
        else Simulate(c, accounts, txs[1..], 1)
      else if tx.sequenceNumber != expectedSeq then Err(SequenceMismatch(tx.sequenceNumber, expectedSeq))
      else if !VerifyTransaction(c, tx) then Err(BadSignature(tx.id))
      else if tx.nonce != Get(accounts, tx.from).nonce + 1 then
        Err(NonceMismatch(tx.from, tx.nonce, Get(accounts, tx.from).nonce + 1))
      else if Get(accounts, tx.from).balance < tx.amount + tx.fee then Err(InsufficientBalance(tx.from))
      else Simulate(c, SimulateTx(accounts, tx), txs[1..], expectedSeq + 1)
  }

  /** Applies the non-coinbase transactions in order; None when a sender's account is missing. */
  function ApplyTxs(accounts: Accounts, txs: seq<Transaction>): Option<Accounts>
    decreases |txs|
  {
    if txs == [] then Some(accounts)
    else if txs[0].isCoinbase then ApplyTxs(accounts, txs[1..])
    else if txs[0].from !in accounts then None
    else ApplyTxs(ApplyTx(accounts, txs[0]), txs[1..])
  }

  predicate SendersExist(accounts: Accounts, txs: seq<Transaction>) {
    forall i :: 0 <= i < |txs| && !txs[i].isCoinbase ==> txs[i].from in accounts
  }

  lemma {:induction false} ExistingSendersApply(accounts: Accounts, txs: seq<Transaction>)
    requires SendersExist(accounts, txs)
    ensures ApplyTxs(accounts, txs).Some?
    decreases |txs|
  {
    if txs != [] {
      assert forall i :: 0 <= i < |txs[1..]| ==> txs[1..][i] == txs[i + 1];
      ExistingSendersApply(if txs[0].isCoinbase then accounts else ApplyTx(accounts, txs[0]), txs[1..]);
    }
  }

  // ---- Positions ----

  /** Sequence numbers are positions, and only the first transaction may be a coinbase. */
  ghost predicate Sequenced(txs: seq<Transaction>) {
    forall p :: 0 <= p < |txs| ==> txs[p].sequenceNumber == p && (txs[p].isCoinbase ==> p == 0)
  }

  /** Every payment is signed. */
  ghost predicate Authentic(c: Crypto, txs: seq<Transaction>) {
    forall p :: 0 <= p < |txs| && !txs[p].isCoinbase ==> VerifyTransaction(c, txs[p])
  }

  lemma {:induction false} SimulatedTxsAreSequenced(c: Crypto, accounts: Accounts, txs: seq<Transaction>,
                                                    expectedSeq: nat)
    requires Simulate(c, accounts, txs, expectedSeq).Ok?
    ensures forall p :: 0 <= p < |txs| ==>
      txs[p].sequenceNumber == expectedSeq + p && (txs[p].isCoinbase ==> expectedSeq + p == 0)
    ensures Authentic(c, txs)
    decreases |txs|
  {
    if txs != [] {
      hide SimulateTx, VerifyTransaction;
      var next := if txs[0].isCoinbase then accounts else SimulateTx(accounts, txs[0]);
      SimulatedTxsAreSequenced(c, next, txs[1..], expectedSeq + 1);
      assert forall p :: 0 < p < |txs| ==> txs[p] == txs[1..][p - 1];
    }
  }

  // ---- Money and nonces moved by a transaction list ----

  function TxFees(txs: seq<Transaction>): real {
    if txs == [] then 0.0
    else (if txs[0].isCoinbase then 0.0 else txs[0].fee) + TxFees(txs[1..])
  }

  /** The nonces of the transactions `a` sends, in order. */
  function TxNonces(txs: seq<Transaction>, a: string): seq<nat> {
    if txs == [] then []
    else (if !txs[0].isCoinbase && txs[0].from == a then [txs[0].nonce] else []) + TxNonces(txs[1..], a)
  }

  /** `s` lists k+1, k+2, ... */
  ghost predicate CountsFrom(s: seq<nat>, k: nat) {
    forall i :: 0 <= i < |s| ==> s[i] == k + 1 + i
  }

  /** Each sender can pay at the moment its transaction is applied. */
  predicate NeverOverdraws(accounts: Accounts, txs: seq<Transaction>)
    decreases |txs|
  {
    txs == [] ||
    if txs[0].isCoinbase then NeverOverdraws(accounts, txs[1..])
    else txs[0].from in accounts && accounts[txs[0].from].balance >= txs[0].amount + txs[0].fee
         && NeverOverdraws(ApplyTx(accounts, txs[0]), txs[1..])
  }

  /** `accounts` holds what `sim` holds, with `extra(a)` more at each address `a`, and the same nonces. */
  ghost predicate Ahead(sim: Accounts, accounts: Accounts, extra: string -> real) {
    forall a ::
      && Get(accounts, a).balance == Get(sim, a).balance + extra(a)
      && Get(accounts, a).nonce == Get(sim, a).nonce
  }

  ghost predicate NonNegativeExtra(extra: string -> real) {
    forall a :: extra(a) >= 0.0
  }

  /** The apply loop follows the simulation at a constant distance, never overdraws an account
      and burns exactly the fees. */
  lemma {:induction false} ApplyFollowsSimulation(c: Crypto, sim: Accounts, accounts: Accounts, extra: string -> real,
                                                  txs: seq<Transaction>, expectedSeq: nat)
    requires Ahead(sim, accounts, extra) && NonNegativeExtra(extra) && NonNegative(accounts)
    requires WellFormedTxs(txs)
    requires Simulate(c, sim, txs, expectedSeq).Ok? && ApplyTxs(accounts, txs).Some?
    ensures var after := ApplyTxs(accounts, txs).value;
            && Ahead(Simulate(c, sim, txs, expectedSeq).value, after, extra)
            && NonNegative(after)
            && NeverOverdraws(accounts, txs)
            && Total(after) == Total(accounts) - TxFees(txs)
    decreases |txs|
  {
    if txs != [] {
      var tx := txs[0];
      assert forall i :: 0 <= i < |txs[1..]| ==> txs[1..][i] == txs[i + 1];
      if tx.isCoinbase {
        ApplyFollowsSimulation(c, sim, accounts, extra, txs[1..], 1);
      } else {
        TxTotal(accounts, tx);
        AheadAfterApply(sim, accounts, extra, tx);
        assert Get(accounts, tx.from).balance >= Get(sim, tx.from).balance;
        TxKeepsNonNegative(accounts, tx);
        ApplyFollowsSimulation(c, SimulateTx(sim, tx), ApplyTx(accounts, tx), extra, txs[1..], expectedSeq + 1);
      }
    }
  }

  /** A verified list carries each sender's nonces on by one, and the accounts record it. */
  lemma {:induction false} NoncesCountUp(c: Crypto, sim: Accounts, accounts: Accounts, extra: string -> real,
                                         txs: seq<Transaction>, expectedSeq: nat, a: string)
    requires Ahead(sim, accounts, extra)
    requires Simulate(c, sim, txs, expectedSeq).Ok? && ApplyTxs(accounts, txs).Some?
    ensures CountsFrom(TxNonces(txs, a), Get(accounts, a).nonce)
    ensures Get(ApplyTxs(accounts, txs).value, a).nonce == Get(accounts, a).nonce + |TxNonces(txs, a)|
    decreases |txs|
  {
    if txs != [] {
      var tx := txs[0];
      if tx.isCoinbase {
        NoncesCountUp(c, sim, accounts, extra, txs[1..], 1, a);
      } else {
        var next := ApplyTx(accounts, tx);
        AheadAfterApply(sim, accounts, extra, tx);
        NoncesCountUp(c, SimulateTx(sim, tx), next, extra, txs[1..], expectedSeq + 1, a);
        assert Get(next, a).nonce == if tx.from == a then tx.nonce else Get(accounts, a).nonce;
        assert Get(accounts, tx.from).nonce == Get(sim, tx.from).nonce;
      }
    }
  }

  lemma TxKeepsNonNegative(accounts: Accounts, tx: Transaction)
    requires NonNegative(accounts) && (tx.amount >= 0.0 || (tx.from == tx.to && tx.fee <= 0.0))
    requires tx.from in accounts && accounts[tx.from].balance >= tx.amount + tx.fee
    ensures NonNegative(ApplyTx(accounts, tx))
  {}

  lemma AheadAfterApply(sim: Accounts, accounts: Accounts, extra: string -> real, tx: Transaction)
    requires Ahead(sim, accounts, extra) && tx.from in accounts
    ensures Ahead(SimulateTx(sim, tx), ApplyTx(accounts, tx), extra)
  {
    var x, y := SimulateTx(sim, tx), ApplyTx(accounts, tx);
    forall a ensures Get(y, a).balance == Get(x, a).balance + extra(a) && Get(y, a).nonce == Get(x, a).nonce {
      assert Get(accounts, a).balance == Get(sim, a).balance + extra(a) && Get(accounts, a).nonce == Get(sim, a).nonce;
      assert Get(accounts, tx.from).balance == Get(sim, tx.from).balance + extra(tx.from);
      assert Get(accounts, tx.to).balance == Get(sim, tx.to).balance + extra(tx.to);
    }
  }

  lemma AheadAfterSimulation(sim: Accounts, accounts: Accounts, extra: string -> real, tx: Transaction)
    requires Ahead(sim, accounts, extra)
    ensures Ahead(SimulateTx(sim, tx), SimulateTx(accounts, tx), extra)
  {
    var x, y := SimulateTx(sim, tx), SimulateTx(accounts, tx);
    forall a ensures Get(y, a).balance == Get(x, a).balance + extra(a) && Get(y, a).nonce == Get(x, a).nonce {
      assert Get(accounts, a).balance == Get(sim, a).balance + extra(a) && Get(accounts, a).nonce == Get(sim, a).nonce;
      assert Get(accounts, tx.from).balance == Get(sim, tx.from).balance + extra(tx.from);
      assert Get(accounts, tx.to).balance == Get(sim, tx.to).balance + extra(tx.to);
    }
  }

  lemma TxTotal(accounts: Accounts, tx: Transaction)
    requires tx.from in accounts
    ensures Total(ApplyTx(accounts, tx)) == Total(accounts) - tx.fee
  {
    var debited := Debited(accounts, tx);
    TotalUpdate(accounts, tx.from, debited[tx.from]);
    TotalUpdate(debited, tx.to, Credited(debited, tx)[tx.to]);
  }

  // ---- What verification accepts, transaction by transaction ----

  /** What `a` is paid by a list. */
  function Received(txs: seq<Transaction>, a: string): real {
    if txs == [] then 0.0
    else (if !txs[0].isCoinbase && txs[0].to == a then txs[0].amount else 0.0) + Received(txs[1..], a)
  }

  /** What `a` pays in a list, fees included. */
  function Spent(txs: seq<Transaction>, a: string): real {
    if txs == [] then 0.0
    else (if !txs[0].isCoinbase && txs[0].from == a then txs[0].amount + txs[0].fee else 0.0) + Spent(txs[1..], a)
  }

  /** At its turn the payment carries its sender's next nonce, and the sender, with what the list has
      brought and taken so far, can cover it. */
  predicate CoveredAt(accounts: Accounts, txs: seq<Transaction>, p: nat)
    requires p < |txs|
  {
    var tx, before := txs[p], txs[..p];
    var sender := Get(accounts, tx.from);
    && tx.nonce == sender.nonce + |TxNonces(before, tx.from)| + 1
    && sender.balance + Received(before, tx.from) - Spent(before, tx.from) >= tx.amount + tx.fee
  }

  /** The transaction stands at its sequence number; a coinbase stands first; a payment is signed and covered. */
  predicate AcceptedAt(c: Crypto, accounts: Accounts, txs: seq<Transaction>, expectedSeq: nat, p: nat)
    requires p < |txs|
  {
    && txs[p].sequenceNumber == expectedSeq + p
    && if txs[p].isCoinbase then expectedSeq + p == 0
       else VerifyTransaction(c, txs[p]) && CoveredAt(accounts, txs, p)
  }

  lemma CoveredLater(accounts: Accounts, txs: seq<Transaction>, p: nat)
    requires 0 < p < |txs|
    requires txs[0].isCoinbase || txs[0].nonce == Get(accounts, txs[0].from).nonce + 1
    ensures var next := if txs[0].isCoinbase then accounts else SimulateTx(accounts, txs[0]);
            CoveredAt(accounts, txs, p) <==> CoveredAt(next, txs[1..], p - 1)
  {
    assert txs[..p][0] == txs[0] && txs[..p][1..] == txs[1..][..p - 1];
  }

  /** A list verifies if and only if each of its transactions is acceptable where it stands: senders may
      pay several times in one list, and spend what earlier payments of the list brought them. */
  lemma {:induction false} SimulatesExactly(c: Crypto, accounts: Accounts, txs: seq<Transaction>, expectedSeq: nat)
    ensures Simulate(c, accounts, txs, expectedSeq).Ok?
            <==> forall p :: 0 <= p < |txs| ==> AcceptedAt(c, accounts, txs, expectedSeq, p)
    decreases |txs|
  {
    if txs != [] {
      hide VerifyTransaction, CoveredAt;
      var tx := txs[0];
      FirstCovered(accounts, txs);
      if AcceptedAt(c, accounts, txs, expectedSeq, 0) {
        var next := if tx.isCoinbase then accounts else SimulateTx(accounts, tx);
        var rest, nextSeq := txs[1..], expectedSeq + 1;
        SimulatesExactly(c, next, rest, nextSeq);
        forall p | 0 < p < |txs|
          ensures AcceptedAt(c, accounts, txs, expectedSeq, p) <==> AcceptedAt(c, next, rest, nextSeq, p - 1)
        {
          CoveredLater(accounts, txs, p);
        }
        if Simulate(c, accounts, txs, expectedSeq).Ok? {
          forall p | 0 < p < |txs| ensures AcceptedAt(c, accounts, txs, expectedSeq, p) {
            assert AcceptedAt(c, next, rest, nextSeq, p - 1);
          }
        }
        if forall p :: 0 <= p < |txs| ==> AcceptedAt(c, accounts, txs, expectedSeq, p) {
          forall q | 0 <= q < |rest| ensures AcceptedAt(c, next, rest, nextSeq, q) {
            assert AcceptedAt(c, accounts, txs, expectedSeq, q + 1);
          }
        }
      }
    }
  }

  lemma FirstCovered(accounts: Accounts, txs: seq<Transaction>)
    requires txs != []
    ensures CoveredAt(accounts, txs, 0) <==>
              && txs[0].nonce == Get(accounts, txs[0].from).nonce + 1
              && Get(accounts, txs[0].from).balance >= txs[0].amount + txs[0].fee
  {
    assert txs[..0] == [];
  }

  /** Applying a list adds to each balance what the list pays to it and takes what it spends. */
  lemma {:induction false} AppliedBalance(accounts: Accounts, txs: seq<Transaction>, a: string)
    requires ApplyTxs(accounts, txs).Some?
    ensures Get(ApplyTxs(accounts, txs).value, a).balance == Get(accounts, a).balance + Received(txs, a) - Spent(txs, a)
    decreases |txs|
  {
    if txs != [] {
      AppliedBalance(if txs[0].isCoinbase then accounts else ApplyTx(accounts, txs[0]), txs[1..], a);
    }
  }

  /** Some payment before position p goes to `a`. */
  predicate PaidBefore(txs: seq<Transaction>, p: nat, a: string)
    requires p <= |txs|
  {
    exists q :: 0 <= q < p && !txs[q].isCoinbase && txs[q].to == a
  }

  /** A list can be applied if and only if every sender has an account at its turn: from the start, or
      opened by an earlier payment of the list. */
  lemma {:induction false} AppliesExactly(accounts: Accounts, txs: seq<Transaction>)
    ensures ApplyTxs(accounts, txs).Some?
            <==> forall p :: 0 <= p < |txs| && !txs[p].isCoinbase ==>
                   txs[p].from in accounts || PaidBefore(txs, p, txs[p].from)
    decreases |txs|
  {
    if txs != [] {
      var tx := txs[0];
      if tx.isCoinbase || tx.from in accounts {
        var next := if tx.isCoinbase then accounts else ApplyTx(accounts, tx);
        AppliesExactly(next, txs[1..]);
        forall p | 0 < p < |txs|
          ensures txs[p].from in next || PaidBefore(txs[1..], p - 1, txs[p].from)
                  <==> txs[p].from in accounts || PaidBefore(txs, p, txs[p].from)
        {
          PaidLater(txs, p, txs[p].from);
        }
        assert forall q :: 0 <= q < |txs[1..]| ==> txs[1..][q] == txs[q + 1];
      }
    }
  }

  lemma PaidLater(txs: seq<Transaction>, p: nat, a: string)
    requires 0 < p <= |txs|
    ensures PaidBefore(txs, p, a) <==> (!txs[0].isCoinbase && txs[0].to == a) || PaidBefore(txs[1..], p - 1, a)
  {
    if q :| 0 <= q < p && !txs[q].isCoinbase && txs[q].to == a {
      if q > 0 { assert txs[1..][q - 1] == txs[q]; }
    }
    if q :| 0 <= q < p - 1 && !txs[1..][q].isCoinbase && txs[1..][q].to == a {
      assert txs[q + 1] == txs[1..][q];
    }
  }

  // ---- Why amounts and fees must not be negative ----

  /** Whatever the accounts, if none is negative and the sender can pay, none is negative afterwards. */
  ghost predicate AlwaysSafe(tx: Transaction) {
    forall accounts: Accounts ::
      NonNegative(accounts) && tx.from in accounts && accounts[tx.from].balance >= tx.amount + tx.fee
      ==> NonNegative(ApplyTx(accounts, tx))
  }

  /** Verification never looks at the sign of an amount, so a payment is safe exactly when its
      amount is not negative, or it is to oneself and the fee is not positive. */
  lemma SafeExactlyWhenNonNegative(tx: Transaction)
    ensures AlwaysSafe(tx) <==> tx.amount >= 0.0 || (tx.from == tx.to && tx.fee <= 0.0)
  {
    if tx.amount >= 0.0 || (tx.from == tx.to && tx.fee <= 0.0) {
      forall accounts: Accounts | NonNegative(accounts) && tx.from in accounts
          && accounts[tx.from].balance >= tx.amount + tx.fee
        ensures NonNegative(ApplyTx(accounts, tx))
      {
        TxKeepsNonNegative(accounts, tx);
      }
    } else {
      var due := tx.amount + tx.fee;
      var funds := if due > 0.0 then due else 0.0;
      var accounts: Accounts := map[tx.from := Account(tx.from, funds, 0)];
      assert NonNegative(accounts);
      assert ApplyTx(accounts, tx)[tx.to].balance < 0.0;
      assert !NonNegative(ApplyTx(accounts, tx));
    }
  }

  /** Whatever the accounts, the payment leaves no more money in them. */
  ghost predicate NeverCreatesMoney(tx: Transaction) {
    forall accounts: Accounts :: tx.from in accounts ==> Total(ApplyTx(accounts, tx)) <= Total(accounts)
  }

  /** Verification never looks at the sign of a fee either: a payment never creates money exactly
      when its fee is not negative. */
  lemma CreatesNoMoneyExactly(tx: Transaction)
    ensures NeverCreatesMoney(tx) <==> tx.fee >= 0.0
  {
    forall accounts: Accounts | tx.from in accounts ensures Total(ApplyTx(accounts, tx)) == Total(accounts) - tx.fee {
      TxTotal(accounts, tx);
    }
    var accounts: Accounts := map[tx.from := NO_ACCOUNT];
    assert tx.from in accounts;
  }

  // ---- Exact agreement ----

  /** The accounts with `reward` more for the miner. */
  function Credit(accounts: Accounts, miner: string, reward: real): Accounts {
    accounts[miner := Account(miner, Get(accounts, miner).balance + reward, Get(accounts, miner).nonce)]
  }

  lemma CreditCommutes(accounts: Accounts, tx: Transaction, miner: string, reward: real)
    requires Addressed(accounts) && tx.from in accounts
    ensures ApplyTx(Credit(accounts, miner, reward), tx) == Credit(SimulateTx(accounts, tx), miner, reward)
  {
    var l, r := ApplyTx(Credit(accounts, miner, reward), tx), Credit(SimulateTx(accounts, tx), miner, reward);
    assert l.Keys == r.Keys;
    forall a | a in l ensures l[a] == r[a] {}
  }

  /** When every sender exists beforehand, applying after the reward ends in exactly the simulated
      accounts plus the reward, self-transfers and senders paid earlier in the block included. */
  lemma {:induction false} ApplyIsSimulationPlusReward(c: Crypto, accounts: Accounts, txs: seq<Transaction>,
                                                       expectedSeq: nat,
                                                       miner: string, reward: real)
    requires Addressed(accounts) && SendersExist(accounts, txs)
    requires Simulate(c, accounts, txs, expectedSeq).Ok?
    ensures ApplyTxs(Credit(accounts, miner, reward), txs)
            == Some(Credit(Simulate(c, accounts, txs, expectedSeq).value, miner, reward))
    decreases |txs|
  {
    if txs != [] {
      assert forall i :: 0 <= i < |txs[1..]| ==> txs[1..][i] == txs[i + 1];
      if txs[0].isCoinbase {
        ApplyIsSimulationPlusReward(c, accounts, txs[1..], 1, miner, reward);
      } else {
        var next := SimulateTx(accounts, txs[0]);
        CreditCommutes(accounts, txs[0], miner, reward);
        ApplyIsSimulationPlusReward(c, next, txs[1..], expectedSeq + 1, miner, reward);
      }
    }
  }

  lemma {:induction false} ApplyIsSimulation(c: Crypto, accounts: Accounts, txs: seq<Transaction>, expectedSeq: nat)
    requires Addressed(accounts) && SendersExist(accounts, txs)
    requires Simulate(c, accounts, txs, expectedSeq).Ok?
    ensures ApplyTxs(accounts, txs) == Some(Simulate(c, accounts, txs, expectedSeq).value)
    decreases |txs|
  {
    if txs != [] {
      assert forall i :: 0 <= i < |txs[1..]| ==> txs[1..][i] == txs[i + 1];
      if txs[0].isCoinbase {
        ApplyIsSimulation(c, accounts, txs[1..], 1);
      } else {
        assert ApplyTx(accounts, txs[0]) == SimulateTx(accounts, txs[0]);
        ApplyIsSimulation(c, SimulateTx(accounts, txs[0]), txs[1..], expectedSeq + 1);
      }
    }
  }

  lemma {:induction false} ApplyKeepsAddresses(accounts: Accounts, txs: seq<Transaction>)
    requires Addressed(accounts) && ApplyTxs(accounts, txs).Some?
    ensures Addressed(ApplyTxs(accounts, txs).value)
    ensures accounts.Keys <= ApplyTxs(accounts, txs).value.Keys
    decreases |txs|
  {
    if txs != [] {
      ApplyKeepsAddresses(if txs[0].isCoinbase then accounts else ApplyTx(accounts, txs[0]), txs[1..]);
    }
  }

  // ---- More money verifies too ----

  /** A transaction list that verifies still verifies when balances are larger. */
  lemma {:induction false} SimulationMonotone(c: Crypto, poorer: Accounts, richer: Accounts, extra: string -> real,
                                              txs: seq<Transaction>, expectedSeq: nat)
    requires Ahead(poorer, richer, extra) && NonNegativeExtra(extra)
    requires Simulate(c, poorer, txs, expectedSeq).Ok?
    ensures Simulate(c, richer, txs, expectedSeq).Ok?
    decreases |txs|
  {
    if txs != [] {
      var tx := txs[0];
      if tx.isCoinbase {
        SimulationMonotone(c, poorer, richer, extra, txs[1..], 1);
      } else {
        AheadAfterSimulation(poorer, richer, extra, tx);
        SimulationMonotone(c, SimulateTx(poorer, tx), SimulateTx(richer, tx), extra, txs[1..], expectedSeq + 1);
      }
    }
  }
}
