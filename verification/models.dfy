/** The entities of the ledger: transactions, blocks, accounts and the chain state,
    with the economic constants, and the cryptographic functions as parameters. */
module Models {

  datatype Option<+T> = None | Some(value: T)

  datatype Result<+T, +E> = Ok(value: T) | Err(error: E)

  const TOTAL_SUPPLY_CAP: real := 33000000.0
  const BASE_BLOCK_REWARD: real := 3.3
  const HALVING_INTERVAL: nat := 1000000
  const FIXED_FEE: real := 0.01
  const FOUNDER_ADDRESS: string := "0x1111111111111111111111111111111111111111"
  const FOUNDER_ALLOCATION: real := 3300000.0
  const FINALIZATION_THRESHOLD: nat := 3

  datatype Transaction = Transaction(
    id: string, from: string, to: string, amount: real, fee: real, nonce: nat, timestamp: int,
    pubKeyX: string, pubKeyY: string, sigR: string, sigS: string,
    isCoinbase: bool, memo: string, sequenceNumber: nat)

  /** One peer's vote on a block (the reason text of a refusal is not modelled). */
  datatype BlockVerification = BlockVerification(peer: string, accepted: bool)

  datatype Block = Block(
    index: nat, prevHash: string, hash: string, timestamp: int, difficulty: nat, nonce: nat,
    transactions: seq<Transaction>, reward: real, miner: string, memo: string,
    verifications: seq<BlockVerification>, finalized: bool, blockVerifications: map<string, bool>)

  datatype Account = Account(address: string, balance: real, nonce: nat)

  type Accounts = map<string, Account>

  /** The in-memory chain state, as a value. */
  datatype Ledger = Ledger(chain: seq<Block>, accounts: Accounts, minted: real, mempool: seq<Transaction>)

  datatype Validator = Validator(id: string, active: bool)

  // ---- Cryptography as parameters ----

  /** What the block hash covers: every header field, the reward as printed with eight
      decimals, and of each transaction its sequence number and ID only. */
  datatype Header = Header(
    index: nat, prevHash: string, timestamp: int, difficulty: nat, nonce: nat,
    miner: string, rewardText: string, memo: string, txs: seq<(nat, string)>)

  /** The canonical signing payload; transaction IDs are computed from the same fields. */
  datatype Payload = Payload(from: string, to: string, amountText: string, feeText: string, nonce: nat, timestamp: int)

  datatype Signed = Signed(payload: Payload, pubKeyX: string, pubKeyY: string, sigR: string, sigS: string)

  /** SHA-256 over a header, signature verification, transaction IDs and "%.8f" printing. */
  datatype Primitives = Primitives(
    hash: Header -> string, verify: Signed -> bool, txId: Payload -> string, fmt8: real -> string)

  const ZEROS64: string := "0000000000000000000000000000000000000000000000000000000000000000"

  /** Block hashes are hex strings of 64 characters. */
  type Crypto = p: Primitives | forall h: Header :: |p.hash(h)| == 64
    witness Primitives((h: Header) => ZEROS64, (s: Signed) => true, (p: Payload) => "", (r: real) => "")

  function TxHeaders(txs: seq<Transaction>): seq<(nat, string)> {
    seq(|txs|, i requires 0 <= i < |txs| => (txs[i].sequenceNumber, txs[i].id))
  }

  function HeaderOf(c: Crypto, b: Block): Header {
    Header(b.index, b.prevHash, b.timestamp, b.difficulty, b.nonce, b.miner, c.fmt8(b.reward), b.memo,
           TxHeaders(b.transactions))
  }

  function BlockHash(c: Crypto, b: Block): string {
    c.hash(HeaderOf(c, b))
  }

  function PayloadOf(c: Crypto, tx: Transaction): Payload {
    Payload(tx.from, tx.to, c.fmt8(tx.amount), c.fmt8(tx.fee), tx.nonce, tx.timestamp)
  }

  function TxID(c: Crypto, tx: Transaction): string {
    c.txId(PayloadOf(c, tx))
  }

  predicate VerifyTransaction(c: Crypto, tx: Transaction) {
    c.verify(Signed(PayloadOf(c, tx), tx.pubKeyX, tx.pubKeyY, tx.sigR, tx.sigS))
  }

  /** No two distinct headers among `hs` share a hash. A finite set, because 64 hex characters
      cannot separate all headers. */
  ghost predicate CollisionFree(c: Crypto, hs: set<Header>) {
    forall h, k :: h in hs && k in hs && c.hash(h) == c.hash(k) ==> h == k
  }

  /** No two distinct payloads among `ps` share a transaction ID. */
  ghost predicate IdsCollisionFree(c: Crypto, ps: set<Payload>) {
    forall p, q :: p in ps && q in ps && c.txId(p) == c.txId(q) ==> p == q
  }

  // ---- What a header and a payload determine ----

  /** Blocks with one header agree on every hashed field, and on each transaction's number and ID. */
  lemma HeaderDetermines(c: Crypto, a: Block, b: Block)
    ensures HeaderOf(c, a) == HeaderOf(c, b) <==>
              && a.index == b.index && a.prevHash == b.prevHash && a.timestamp == b.timestamp
              && a.difficulty == b.difficulty && a.nonce == b.nonce && a.miner == b.miner
              && c.fmt8(a.reward) == c.fmt8(b.reward) && a.memo == b.memo
              && |a.transactions| == |b.transactions|
              && forall p :: 0 <= p < |a.transactions| ==>
                   a.transactions[p].sequenceNumber == b.transactions[p].sequenceNumber
                   && a.transactions[p].id == b.transactions[p].id
  {
    var x, y := TxHeaders(a.transactions), TxHeaders(b.transactions);
    if x == y {
      assert |x| == |y|;
      forall p | 0 <= p < |a.transactions|
        ensures a.transactions[p].sequenceNumber == b.transactions[p].sequenceNumber
        ensures a.transactions[p].id == b.transactions[p].id
      {
        assert x[p] == y[p];
      }
    }
  }

  /** Transactions with one payload agree on every signed field; the ID, the sequence number, the memo and
      the coinbase flag are not signed. */
  lemma PayloadDetermines(c: Crypto, x: Transaction, y: Transaction)
    ensures PayloadOf(c, x) == PayloadOf(c, y) <==>
              && x.from == y.from && x.to == y.to && x.nonce == y.nonce && x.timestamp == y.timestamp
              && c.fmt8(x.amount) == c.fmt8(y.amount) && c.fmt8(x.fee) == c.fmt8(y.fee)
    ensures var sameKeys := x.pubKeyX == y.pubKeyX && x.pubKeyY == y.pubKeyY && x.sigR == y.sigR && x.sigS == y.sigS;
            PayloadOf(c, x) == PayloadOf(c, y) && sameKeys ==> (VerifyTransaction(c, x) <==> VerifyTransaction(c, y))
  {}

  // ---- Well-formed transactions ----

  /** The code never checks the sign of an amount or a fee; honest transactions have none negative. */
  predicate WellFormedTx(tx: Transaction) {
    tx.amount >= 0.0 && tx.fee >= 0.0
  }

  predicate WellFormedTxs(txs: seq<Transaction>) {
    forall i :: 0 <= i < |txs| && !txs[i].isCoinbase ==> WellFormedTx(txs[i])
  }

  predicate WellFormedChain(chain: seq<Block>) {
    forall i :: 0 <= i < |chain| ==> WellFormedTxs(chain[i].transactions)
  }

  // ---- Vote metadata ----

  /** A block without the vote metadata that verification, hashing and replay ignore. */
  function Body(b: Block): Block {
    b.(verifications := [], finalized := false, blockVerifications := map[])
  }

  ghost predicate SameBodies(a: seq<Block>, b: seq<Block>) {
    |a| == |b| && forall i :: 0 <= i < |a| ==> Body(a[i]) == Body(b[i])
  }
}
