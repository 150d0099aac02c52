/** Admission to the mempool, its priority order, and the pool as the best of all admitted transactions. */
module Mempool {
  import opened Models
  import opened Sorting
  import opened AccountMath

  const EPSILON: real := 0.000000001

  predicate FloatEqual(a: real, b: real) {
    (if a - b < 0.0 then b - a else a - b) < EPSILON
  }

  /** Fees with eight decimals, as the signing payload prints them. */
  predicate OnGrid(x: real) {
    (x * 100000000.0).Floor as real == x * 100000000.0
  }

  /** On the eight-decimal grid the tolerant comparison is equality. */
  lemma GridEquality(a: real, b: real)
    requires OnGrid(a) && OnGrid(b)
    ensures FloatEqual(a, b) <==> a == b
  {
    var m, n := (a * 100000000.0).Floor, (b * 100000000.0).Floor;
    assert m as real - n as real == (a - b) * 100000000.0;
    if m < n { assert (m - n) as real <= -1.0; }
    if n < m { assert (m - n) as real >= 1.0; }
  }

  // ---- Priority ----

  /** The comparator of the insertion search: fee descending, then timestamp, nonce and ID ascending. */
  predicate Before(tx: Transaction, existing: Transaction) {
    if !FloatEqual(tx.fee, existing.fee) then tx.fee > existing.fee
    else if tx.timestamp != existing.timestamp then tx.timestamp < existing.timestamp
    else if tx.nonce != existing.nonce then tx.nonce < existing.nonce
    else StringLess(tx.id, existing.id)
  }

  /** A fee higher by at least 1e-9 goes first, a lower one last; within 1e-9 the earlier timestamp, then the
      lower nonce, then the smaller ID. */
  lemma BeforeReads(a: Transaction, b: Transaction)
    ensures a.fee >= b.fee + 0.000000001 ==> Before(a, b) && !Before(b, a)
    ensures b.fee - 0.000000001 < a.fee < b.fee + 0.000000001 ==>
              && (a.timestamp < b.timestamp ==> Before(a, b) && !Before(b, a))
              && (a.timestamp == b.timestamp && a.nonce < b.nonce ==> Before(a, b) && !Before(b, a))
              && (a.timestamp == b.timestamp && a.nonce == b.nonce ==> (Before(a, b) <==> StringLess(a.id, b.id)))
  {}

  /** The same order with fees compared exactly. */
  predicate Outranks(a: Transaction, b: Transaction) {
    if a.fee != b.fee then a.fee > b.fee
    else if a.timestamp != b.timestamp then a.timestamp < b.timestamp
    else if a.nonce != b.nonce then a.nonce < b.nonce
    else StringLess(a.id, b.id)
  }

  function Priority(): (Transaction, Transaction) -> bool {
    (a: Transaction, b: Transaction) => !Outranks(b, a)
  }

  lemma PriorityIsOrder()
    ensures TotalPreorder(Priority())
  {
    var le := Priority();
    forall a, b ensures le(a, b) || le(b, a) { StringOrder(a.id, b.id); }
    forall a, b, c | le(a, b) && le(b, c) ensures le(a, c) {
      StringOrder(a.id, b.id);
      StringOrder(b.id, c.id);
      StringOrder(a.id, c.id);
      if StringLess(a.id, b.id) && StringLess(b.id, c.id) { StringLessTransitive(a.id, b.id, c.id); }
      if StringLess(c.id, a.id) && StringLess(a.id, b.id) { StringLessTransitive(c.id, a.id, b.id); }
      if StringLess(b.id, c.id) && StringLess(c.id, a.id) { StringLessTransitive(b.id, c.id, a.id); }
    }
  }

  /** The code's order as a comparison: `b` does not go before `a`. */
  function NotAfter(): (Transaction, Transaction) -> bool {
    (a: Transaction, b: Transaction) => !Before(b, a)
  }

  // ---- When the comparator is an order ----

  /** The tolerant comparison of fees is transitive on these fees. */
  ghost predicate FeesAgree(fees: iset<real>) {
    forall a, b, d :: a in fees && b in fees && d in fees && FloatEqual(a, b) && FloatEqual(b, d) ==> FloatEqual(a, d)
  }

  /** The comparator is transitive on all transactions with these fees. */
  ghost predicate BeforeTransitive(fees: iset<real>) {
    forall x: Transaction, y: Transaction, z: Transaction ::
      x.fee in fees && y.fee in fees && z.fee in fees && Before(x, y) && Before(y, z) ==> Before(x, z)
  }

  /** Fees among which equality is transitive are ordered by their equality classes. */
  lemma FeeClasses(fees: iset<real>, a: real, b: real, d: real)
    requires FeesAgree(fees) && a in fees && b in fees && d in fees
    requires a > b || FloatEqual(a, b)
    requires b > d || FloatEqual(b, d)
    ensures a > d || FloatEqual(a, d)
  {
    if FloatEqual(a, b) && !FloatEqual(b, d) && !FloatEqual(a, d) {
      assert !(FloatEqual(b, a) && FloatEqual(a, d));
    }
  }

  /** Two transactions of one fee class in the code's order. */
  predicate TieBefore(x: Transaction, y: Transaction) {
    if x.timestamp != y.timestamp then x.timestamp < y.timestamp
    else if x.nonce != y.nonce then x.nonce < y.nonce
    else StringLess(x.id, y.id)
  }

  lemma TiesAreOrdered(x: Transaction, y: Transaction, z: Transaction)
    ensures !(TieBefore(x, y) && TieBefore(y, x))
    ensures TieBefore(x, y) && TieBefore(y, z) ==> TieBefore(x, z)
    ensures !TieBefore(y, x) && !TieBefore(z, y) ==> !TieBefore(z, x)
  {
    StringOrder(x.id, y.id);
    StringOrder(y.id, z.id);
    StringOrder(x.id, z.id);
    if StringLess(x.id, y.id) && StringLess(y.id, z.id) { StringLessTransitive(x.id, y.id, z.id); }
    if StringLess(z.id, x.id) && StringLess(x.id, y.id) { StringLessTransitive(z.id, x.id, y.id); }
    if StringLess(y.id, z.id) && StringLess(z.id, x.id) { StringLessTransitive(y.id, z.id, x.id); }
  }

  lemma BeforeByClass(x: Transaction, y: Transaction)
    ensures Before(x, y) <==> if FloatEqual(x.fee, y.fee) then TieBefore(x, y) else x.fee > y.fee
  {}

  lemma ClassesOrder(fees: iset<real>, x: Transaction, y: Transaction, z: Transaction)
    requires FeesAgree(fees) && x.fee in fees && y.fee in fees && z.fee in fees
    ensures Before(x, y) && Before(y, z) ==> Before(x, z)
    ensures !Before(y, x) && !Before(z, y) ==> !Before(z, x)
  {
    hide Before, TieBefore, FeesAgree;
    TiesAreOrdered(x, y, z);
    BeforeByClass(x, y);
    BeforeByClass(y, x);
    BeforeByClass(y, z);
    BeforeByClass(z, y);
    BeforeByClass(x, z);
    BeforeByClass(z, x);
    SameClass(fees, x.fee, y.fee, z.fee);
    if (x.fee > y.fee || FloatEqual(x.fee, y.fee)) && (y.fee > z.fee || FloatEqual(y.fee, z.fee)) {
      FeeClasses(fees, x.fee, y.fee, z.fee);
    }
  }

  lemma SameClass(fees: iset<real>, a: real, b: real, d: real)
    requires FeesAgree(fees) && a in fees && b in fees && d in fees
    ensures FloatEqual(a, b) && FloatEqual(b, d) ==> FloatEqual(a, d)
    ensures FloatEqual(a, b) && FloatEqual(a, d) ==> FloatEqual(b, d)
    ensures FloatEqual(a, d) && FloatEqual(b, d) ==> FloatEqual(a, b)
  {
    assert FloatEqual(a, b) <==> FloatEqual(b, a);
    assert FloatEqual(a, d) <==> FloatEqual(d, a);
    assert FloatEqual(b, d) <==> FloatEqual(d, b);
  }

  function WithFee(fee: real, timestamp: int): Transaction {
    Transaction("", "", "", 0.0, fee, 0, timestamp, "", "", "", "", false, "", 0)
  }

  /** The comparator is transitive on the transactions with given fees if and only if the tolerant
      comparison is transitive on the fees. */
  lemma BeforeTransitiveExactly(fees: iset<real>)
    ensures BeforeTransitive(fees) <==> FeesAgree(fees)
  {
    if FeesAgree(fees) {
      forall x: Transaction, y: Transaction, z: Transaction |
        x.fee in fees && y.fee in fees && z.fee in fees && Before(x, y) && Before(y, z)
        ensures Before(x, z)
      {
        ClassesOrder(fees, x, y, z);
      }
    }
    if BeforeTransitive(fees) {
      forall a, b, d | a in fees && b in fees && d in fees && FloatEqual(a, b) && FloatEqual(b, d)
        ensures FloatEqual(a, d)
      {
        var low, high := if a < d then a else d, if a < d then d else a;
        var x, y, z := WithFee(low, 0), WithFee(b, 1), WithFee(high, 2);
        assert Before(x, y) && Before(y, z);
        assert Before(x, z);
      }
    }
  }

  /** Off the grid it need not be: three admissible fees can beat one another in a ring. */
  lemma OffGridRing(tx: Transaction) returns (x: Transaction, y: Transaction, z: Transaction)
    ensures FloatEqual(x.fee, FIXED_FEE) && FloatEqual(y.fee, FIXED_FEE) && FloatEqual(z.fee, FIXED_FEE)
    ensures Before(x, y) && Before(y, z) && Before(z, x)
  {
    x := tx.(fee := FIXED_FEE - 0.0000000009, timestamp := 0);
    y := tx.(fee := FIXED_FEE, timestamp := 1);
    z := tx.(fee := FIXED_FEE + 0.0000000009, timestamp := 2);
  }

  // ---- Priority among given fees ----

  /** The code's order on transactions with these fees, before all others. */
  ghost function PriorityOn(fees: iset<real>): (Transaction, Transaction) -> bool {
    (a: Transaction, b: Transaction) =>
      if a.fee in fees && b.fee in fees then !Before(b, a)
      else a.fee in fees || (b.fee !in fees && !Outranks(b, a))
  }

  ghost predicate FeesIn(txs: seq<Transaction>, fees: iset<real>) {
    forall i :: 0 <= i < |txs| ==> txs[i].fee in fees
  }

  lemma PriorityOnIsOrder(fees: iset<real>)
    requires FeesAgree(fees)
    ensures TotalPreorder(PriorityOn(fees))
  {
    var le, exact := PriorityOn(fees), Priority();
    PriorityIsOrder();
    forall a, b ensures le(a, b) || le(b, a) {
      assert exact(a, b) || exact(b, a);
      if a.fee in fees && b.fee in fees { StringOrder(a.id, b.id); }
    }
    forall a, b, d | le(a, b) && le(b, d) ensures le(a, d) {
      if a.fee in fees && b.fee in fees && d.fee in fees { ClassesOrder(fees, a, b, d); }
      if a.fee !in fees && b.fee !in fees && d.fee !in fees { assert exact(a, b) && exact(b, d); }
    }
  }

  /** The fees with eight decimals. */
  ghost function Grid(): iset<real> {
    iset f: real | OnGrid(f)
  }

  lemma GridAgrees()
    ensures FeesAgree(Grid())
  {
    forall a, b, d | a in Grid() && b in Grid() && d in Grid() && FloatEqual(a, b) && FloatEqual(b, d)
      ensures FloatEqual(a, d)
    {
      GridEquality(a, b);
      GridEquality(b, d);
    }
  }

  /** On the grid the code's order is by exact fee, timestamp, nonce and ID. */
  lemma GridPriority(a: Transaction, b: Transaction)
    requires OnGrid(a.fee) && OnGrid(b.fee)
    ensures Before(a, b) <==> !Priority()(b, a)
    ensures PriorityOn(Grid())(a, b) <==> Priority()(a, b)
  {
    GridEquality(a.fee, b.fee);
    GridEquality(b.fee, a.fee);
  }

  // ---- Insertion ----

  /** sort.Search: bisects [i, j) for the first position the transaction goes before. */
  function Search(pool: seq<Transaction>, tx: Transaction, i: nat, j: nat): (r: nat)
    requires i <= j <= |pool|
    ensures i <= r <= j
    decreases j - i
  {
    if i == j then i
    else
      var h := (i + j) / 2;
      if !Before(tx, pool[h]) then Search(pool, tx, h + 1, j) else Search(pool, tx, i, h)
  }

  function InsertByPriority(pool: seq<Transaction>, tx: Transaction): seq<Transaction> {
    var at := Search(pool, tx, 0, |pool|);
    pool[..at] + [tx] + pool[at..]
  }

  lemma {:induction false} SearchSplits(pool: seq<Transaction>, tx: Transaction, i: nat, j: nat, fees: iset<real>)
    requires i <= j <= |pool| && FeesAgree(fees)
    requires FeesIn(pool, fees) && tx.fee in fees && Sorted(pool, PriorityOn(fees))
    requires forall k :: 0 <= k < i ==> PriorityOn(fees)(pool[k], tx)
    requires forall k :: j <= k < |pool| ==> !PriorityOn(fees)(pool[k], tx)
    ensures forall k :: 0 <= k < Search(pool, tx, i, j) ==> PriorityOn(fees)(pool[k], tx)
    ensures forall k :: Search(pool, tx, i, j) <= k < |pool| ==> !PriorityOn(fees)(pool[k], tx)
    decreases j - i
  {
    if i < j {
      hide Before, FeesAgree;
      PriorityOnIsOrder(fees);
      var h := (i + j) / 2;
      assert PriorityOn(fees)(pool[h], tx) <==> !Before(tx, pool[h]);
      if !Before(tx, pool[h]) {
        forall k | 0 <= k < h + 1 ensures PriorityOn(fees)(pool[k], tx) {
          if k < h { assert PriorityOn(fees)(pool[k], pool[h]); }
        }
        SearchSplits(pool, tx, h + 1, j, fees);
      } else {
        forall k | h <= k < |pool| ensures !PriorityOn(fees)(pool[k], tx) {
          if h < k { assert PriorityOn(fees)(pool[h], pool[k]); }
        }
        SearchSplits(pool, tx, i, h, fees);
      }
    }
  }

  lemma BisectionInserts(pool: seq<Transaction>, tx: Transaction, fees: iset<real>)
    requires FeesAgree(fees) && FeesIn(pool, fees) && tx.fee in fees && Sorted(pool, PriorityOn(fees))
    ensures InsertByPriority(pool, tx) == Insert(pool, tx, PriorityOn(fees))
  {
    hide FeesAgree, FeesIn, PriorityOn, Sorted;
    SearchSplits(pool, tx, 0, |pool|, fees);
    InsertSplit(pool, tx, PriorityOn(fees), Search(pool, tx, 0, |pool|));
  }

  // ---- Admission ----

  datatype PoolError = IsCoinbase | WrongFee | BadSignature | DuplicateNonce | WrongNonce | Insufficient | LowPriority

  predicate Pending(pool: seq<Transaction>, tx: Transaction) {
    exists i :: 0 <= i < |pool| && pool[i].from == tx.from && pool[i].nonce == tx.nonce
  }

  /** The first admission check that fails. */
  function Refusal(c: Crypto, accounts: Accounts, pool: seq<Transaction>, tx: Transaction): Option<PoolError> {
    if tx.isCoinbase then Some(IsCoinbase)
    else if !FloatEqual(tx.fee, FIXED_FEE) then Some(WrongFee)
    else if !VerifyTransaction(c, tx) then Some(PoolError.BadSignature)
    else if Pending(pool, tx) then Some(DuplicateNonce)
    else if tx.nonce != Get(accounts, tx.from).nonce + 1 then Some(WrongNonce)
    else if Get(accounts, tx.from).balance < tx.amount + tx.fee then Some(Insufficient)
    else None
  }

  /** A transaction is admitted if and only if it is a signed payment, at the fee of 0.01 up to 1e-9, with
      its sender's next nonce, covered by the sender's balance, and not already pending; the ID it comes
      with and whatever else it or the pool holds do not matter. */
  lemma AdmitsExactly(c: Crypto, accounts: Accounts, pool: seq<Transaction>, tx: Transaction)
    ensures Refusal(c, accounts, pool, tx).None? <==>
              && !tx.isCoinbase && 0.01 - 0.000000001 < tx.fee < 0.01 + 0.000000001
              && c.verify(Signed(PayloadOf(c, tx), tx.pubKeyX, tx.pubKeyY, tx.sigR, tx.sigS))
              && tx.nonce == Get(accounts, tx.from).nonce + 1
              && Get(accounts, tx.from).balance >= tx.amount + tx.fee
              && forall i :: 0 <= i < |pool| ==> pool[i].from != tx.from || pool[i].nonce != tx.nonce
    ensures forall id :: Refusal(c, accounts, pool, tx.(id := id)) == Refusal(c, accounts, pool, tx)
  {
    forall id ensures Refusal(c, accounts, pool, tx.(id := id)) == Refusal(c, accounts, pool, tx) {
      assert PayloadOf(c, tx.(id := id)) == PayloadOf(c, tx);
      assert Pending(pool, tx.(id := id)) <==> Pending(pool, tx);
    }
  }

  /** A refusal names a check that fails, and all checks before it pass. */
  lemma RefusalNamesFirstFailure(c: Crypto, accounts: Accounts, pool: seq<Transaction>, tx: Transaction)
    ensures var fee, signed := FloatEqual(tx.fee, FIXED_FEE), VerifyTransaction(c, tx);
            var acc, pending := Get(accounts, tx.from), Pending(pool, tx);
            match Refusal(c, accounts, pool, tx)
            case None => true
            case Some(e) =>
              && (e == IsCoinbase <==> tx.isCoinbase)
              && (e == WrongFee <==> !tx.isCoinbase && !fee)
              && (e == PoolError.BadSignature <==> !tx.isCoinbase && fee && !signed)
              && (e == DuplicateNonce <==> !tx.isCoinbase && fee && signed && pending)
              && (e == WrongNonce <==> !tx.isCoinbase && fee && signed && !pending && tx.nonce != acc.nonce + 1)
              && e != LowPriority
  {}

  /** The transaction as it is stored: with its computed ID. */
  function Identified(c: Crypto, tx: Transaction): Transaction {
    tx.(id := TxID(c, tx))
  }

  function AddTx(c: Crypto, accounts: Accounts, pool: seq<Transaction>, tx: Transaction,
                 limit: nat)
    : (seq<Transaction>, Option<PoolError>)
  {
    match Refusal(c, accounts, pool, tx)
    case Some(e) => (pool, Some(e))
    case None =>
      var stored := Identified(c, tx);
      var longer := InsertByPriority(pool, stored);
      if |longer| <= limit then (longer, None)
      else (longer[..|longer| - 1], if longer[|longer| - 1].id == stored.id then Some(LowPriority) else None)
  }

  // ---- The pool as a streaming top-N ----

  /** One submission, with the accounts it is checked against. */
  datatype Submission = Submission(accounts: Accounts, tx: Transaction)

  /** The pool after a run of submissions to an empty pool. */
  function PoolAfter(c: Crypto, subs: seq<Submission>, limit: nat): seq<Transaction> {
    if subs == [] then []
    else
      var last := subs[|subs| - 1];
      AddTx(c, last.accounts, PoolAfter(c, subs[..|subs| - 1], limit), last.tx, limit).0
  }

  /** The transactions that passed admission in the run, in order. */
  function AdmittedIn(c: Crypto, subs: seq<Submission>, limit: nat): seq<Transaction> {
    if subs == [] then []
    else
      var last := subs[|subs| - 1];
      var earlier := AdmittedIn(c, subs[..|subs| - 1], limit);
      if Refusal(c, last.accounts, PoolAfter(c, subs[..|subs| - 1], limit), last.tx).Some? then earlier
      else earlier + [Identified(c, last.tx)]
  }

  /** One admitted transaction takes the top of a sorted list to the top of the longer list. */
  lemma AdmissionStep(s: seq<Transaction>, pool: seq<Transaction>, tx: Transaction, limit: nat, fees: iset<real>)
    requires FeesAgree(fees) && Sorted(s, PriorityOn(fees))
    requires pool == Take(limit, s) && FeesIn(pool, fees) && tx.fee in fees
    ensures var longer := InsertByPriority(pool, tx);
            (if |longer| <= limit then longer else longer[..|longer| - 1])
                == Take(limit, Insert(s, tx, PriorityOn(fees)))
  {
    hide PriorityOn, FeesAgree, FeesIn, TotalPreorder;
    PriorityOnIsOrder(fees);
    BisectionInserts(pool, tx, fees);
    TakeInsert(limit, s, tx, PriorityOn(fees));
    InsertLength(pool, tx, PriorityOn(fees));
  }

  /** An admission keeps the pool the top of everything admitted. */
  lemma AddTakesTop(c: Crypto, accounts: Accounts, all: seq<Transaction>, pool: seq<Transaction>, tx: Transaction,
                    limit: nat, fees: iset<real>)
    requires FeesAgree(fees) && FeesIn(all, fees) && tx.fee in fees && pool == Take(limit, Sort(all, PriorityOn(fees)))
    requires Refusal(c, accounts, pool, tx).None?
    ensures AddTx(c, accounts, pool, tx, limit).0 == Take(limit, Sort(all + [Identified(c, tx)], PriorityOn(fees)))
  {
    hide Refusal, Insert, InsertByPriority, Sort, Sorted, PriorityOn, TotalPreorder, FeesAgree, FeesIn;
    PriorityOnIsOrder(fees);
    SortCorrect(all, PriorityOn(fees));
    SortedElements(all, limit, fees);
    AdmissionStep(Sort(all, PriorityOn(fees)), pool, Identified(c, tx), limit, fees);
    SortAppend(all, Identified(c, tx), fees);
  }

  lemma {:induction false} PoolIsTop(c: Crypto, subs: seq<Submission>, limit: nat, fees: iset<real>)
    requires FeesAgree(fees) && FeesIn(AdmittedIn(c, subs, limit), fees)
    ensures PoolAfter(c, subs, limit) == Take(limit, Sort(AdmittedIn(c, subs, limit), PriorityOn(fees)))
  {
    if subs != [] {
      hide Refusal, AddTx, Take, Sort, PriorityOn, FeesAgree;
      var rest, last := subs[..|subs| - 1], subs[|subs| - 1];
      var pool, earlier := PoolAfter(c, rest, limit), AdmittedIn(c, rest, limit);
      if Refusal(c, last.accounts, pool, last.tx).None? {
        FeesInParts(earlier, Identified(c, last.tx), fees);
        PoolIsTop(c, rest, limit, fees);
        AddTakesTop(c, last.accounts, earlier, pool, last.tx, limit, fees);
      } else {
        PoolIsTop(c, rest, limit, fees);
        RefusedIsUnchanged(c, last.accounts, pool, last.tx, limit);
      }
    }
  }

  lemma FeesInParts(all: seq<Transaction>, tx: Transaction, fees: iset<real>)
    ensures FeesIn(all + [tx], fees) <==> FeesIn(all, fees) && tx.fee in fees
  {
    var longer := all + [tx];
    assert longer[|all|] == tx && forall i :: 0 <= i < |all| ==> longer[i] == all[i];
  }

  lemma RefusedIsUnchanged(c: Crypto, accounts: Accounts, pool: seq<Transaction>, tx: Transaction, limit: nat)
    requires Refusal(c, accounts, pool, tx).Some?
    ensures AddTx(c, accounts, pool, tx, limit).0 == pool
  {}

  /** As long as the tolerant comparison is transitive on the fees admitted, the pool holds the first
      `limit` of all admitted transactions in the code's own order. */
  lemma PoolIsTopN(c: Crypto, subs: seq<Submission>, limit: nat, fees: iset<real>)
    requires FeesAgree(fees) && FeesIn(AdmittedIn(c, subs, limit), fees)
    ensures var all := AdmittedIn(c, subs, limit);
            var ranked := Sort(all, PriorityOn(fees));
            && PoolAfter(c, subs, limit) == Take(limit, ranked)
            && Sorted(ranked, NotAfter()) && multiset(ranked) == multiset(all)
  {
    var all := AdmittedIn(c, subs, limit);
    PoolIsTop(c, subs, limit, fees);
    PriorityOnIsOrder(fees);
    SortCorrect(all, PriorityOn(fees));
    SortedElements(all, |all|, fees);
    var ranked := Sort(all, PriorityOn(fees));
    assert |ranked| == |multiset(ranked)| == |multiset(all)| == |all|;
    SortedByCode(ranked, fees);
  }

  lemma SortedByCode(s: seq<Transaction>, fees: iset<real>)
    requires FeesIn(s, fees) && Sorted(s, PriorityOn(fees))
    ensures Sorted(s, NotAfter())
  {
    hide Before;
    forall i, j | 0 <= i < j < |s| ensures NotAfter()(s[i], s[j]) { assert PriorityOn(fees)(s[i], s[j]); }
  }

  /** On the grid that order is by exact fee, timestamp, nonce and ID. */
  lemma GridPoolIsTopN(c: Crypto, subs: seq<Submission>, limit: nat)
    requires FeesIn(AdmittedIn(c, subs, limit), Grid())
    ensures var all := AdmittedIn(c, subs, limit);
            var ranked := Sort(all, Priority());
            && PoolAfter(c, subs, limit) == Take(limit, ranked)
            && Sorted(ranked, Priority()) && multiset(ranked) == multiset(all)
  {
    var all := AdmittedIn(c, subs, limit);
    GridAgrees();
    PoolIsTopN(c, subs, limit, Grid());
    PriorityIsOrder();
    SortCorrect(all, Priority());
    GridSort(all);
  }

  lemma {:induction false} GridInsert(s: seq<Transaction>, tx: Transaction)
    requires FeesIn(s, Grid()) && OnGrid(tx.fee)
    ensures Insert(s, tx, PriorityOn(Grid())) == Insert(s, tx, Priority())
  {
    if s != [] {
      hide OnGrid, Priority, PriorityOn, Grid;
      FirstOnGrid(s);
      GridPriority(s[0], tx);
      GridInsert(s[1..], tx);
    }
  }

  lemma FirstOnGrid(s: seq<Transaction>)
    requires FeesIn(s, Grid()) && s != []
    ensures OnGrid(s[0].fee) && FeesIn(s[1..], Grid())
  {}

  lemma {:induction false} GridSort(all: seq<Transaction>)
    requires FeesIn(all, Grid())
    ensures Sort(all, PriorityOn(Grid())) == Sort(all, Priority())
  {
    if all != [] {
      var rest, tx := all[..|all| - 1], all[|all| - 1];
      GridSort(rest);
      PriorityIsOrder();
      SortCorrect(rest, Priority());
      forall i | 0 <= i < |Sort(rest, Priority())| ensures Sort(rest, Priority())[i].fee in Grid() {
        assert Sort(rest, Priority())[i] in multiset(rest);
      }
      GridInsert(Sort(rest, Priority()), tx);
    }
  }

  lemma SortAppend(earlier: seq<Transaction>, tx: Transaction, fees: iset<real>)
    ensures Sort(earlier + [tx], PriorityOn(fees)) == Insert(Sort(earlier, PriorityOn(fees)), tx, PriorityOn(fees))
  {
    assert (earlier + [tx])[..|earlier + [tx]| - 1] == earlier;
  }

  lemma SortedElements(all: seq<Transaction>, limit: nat, fees: iset<real>)
    requires FeesIn(all, fees)
    requires multiset(Sort(all, PriorityOn(fees))) == multiset(all)
    ensures FeesIn(Take(limit, Sort(all, PriorityOn(fees))), fees)
  {
    var s := Sort(all, PriorityOn(fees));
    forall i | 0 <= i < |s| ensures s[i].fee in fees {
      assert s[i] in multiset(all);
    }
  }

  /** IDs among the pool and the newcomer tell senders and nonces apart. */
  ghost predicate IdsIdentify(pool: seq<Transaction>, stored: Transaction) {
    forall i :: 0 <= i < |pool| && pool[i].id == stored.id ==>
          pool[i].from == stored.from && pool[i].nonce == stored.nonce
  }

  /** A submission fails exactly when it leaves the pool as it was; once admitted, the only
      failure is to be the lowest-ranked of a full pool. */
  lemma ErrorExactlyWhenUnchanged(c: Crypto, accounts: Accounts, pool: seq<Transaction>, tx: Transaction, limit: nat)
    requires IdsIdentify(pool, Identified(c, tx))
    ensures var (after, error) := AddTx(c, accounts, pool, tx, limit);
            && (error.Some? <==> after == pool)
            && (Refusal(c, accounts, pool, tx).None? ==> (error == Some(LowPriority) <==> after == pool))
  {
    if Refusal(c, accounts, pool, tx).None? {
      var stored := Identified(c, tx);
      var at := Search(pool, stored, 0, |pool|);
      var longer := InsertByPriority(pool, stored);
      assert longer[at] == stored;
      assert stored !in pool by {
        if i :| 0 <= i < |pool| && pool[i] == stored { assert Pending(pool, tx); assert false; }
      }
      if at < |pool| {
        assert longer[|longer| - 1] == pool[|pool| - 1];
        assert longer[..|longer| - 1][at] == stored;
        assert pool[|pool| - 1].id != stored.id;
      } else {
        assert longer[..|longer| - 1] == pool;
      }
    }
  }
}
