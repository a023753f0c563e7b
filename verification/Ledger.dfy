/** Transactions, blocks and the unspent-output database as a sequential ledger. */
module Ledger {
  import opened BigEndian
  import opened Collections

  type Hash = seq<byte>

  const MAX_UINT32: nat := 0xFFFF_FFFF
  const ZERO_HASH: Hash :=
    [0, 0, 0, 0, 0, 0, 0, 0, 0, 0, 0, 0, 0, 0, 0, 0,
     0, 0, 0, 0, 0, 0, 0, 0, 0, 0, 0, 0, 0, 0, 0, 0]

  /** An output script, by what the script parser makes of it. */
  datatype Script = Empty | Address(body: seq<byte>) | OpReturn(body: seq<byte>) | Unreadable(body: seq<byte>)

  datatype OutPoint = OutPoint(hash: Hash, index: nat)
  datatype TxOut = TxOut(value: nat, script: Script)
  datatype Tx = Tx(hash: Hash, ins: seq<OutPoint>, outs: seq<TxOut>)
  datatype Block = Block(hash: Hash, prev: Hash, height: nat, txs: seq<Tx>)

  /** An unspent output with the height of the block that made it. */
  datatype Entry = Entry(out: TxOut, height: nat)
  type Db = map<OutPoint, Entry>

  /** The transaction index: where a transaction hash was included. */
  datatype Located = Located(height: nat, tx: Tx)
  type TxIndex = map<Hash, Located>

  predicate IsCoinBase(tx: Tx) {
    |tx.ins| == 1 && tx.ins[0] == OutPoint(ZERO_HASH, MAX_UINT32)
  }

  predicate IsInternalContract(tx: Tx) {
    |tx.ins| == 1 && tx.ins[0] == OutPoint(ZERO_HASH, MAX_UINT32 - 1)
  }

  /** The second comparison of the source sets the last 20 bytes of the hash against 8 bytes, so it
      never finds them equal. */
  predicate IsContractType(op: OutPoint) {
    op.index == 0 && |op.hash| >= 12 && forall i | 0 <= i < 12 :: op.hash[i] == 0
  }

  predicate Creates(tx: Tx, op: OutPoint) {
    op.hash == tx.hash && op.index < |tx.outs| && !tx.outs[op.index].script.OpReturn?
  }

  predicate Spends(tx: Tx, op: OutPoint) {
    !IsCoinBase(tx) && !IsInternalContract(tx) && op in tx.ins
  }

  ghost predicate CreatedBy(b: Block, n: nat, op: OutPoint)
    requires n <= |b.txs|
  {
    exists j | 0 <= j < n :: Creates(b.txs[j], op)
  }

  ghost predicate SpentBy(b: Block, n: nat, op: OutPoint)
    requires n <= |b.txs|
  {
    exists i | 0 <= i < n :: Spends(b.txs[i], op)
  }

  ghost function EntryIn(b: Block, op: OutPoint): Entry
    requires CreatedBy(b, |b.txs|, op)
  {
    var j :| 0 <= j < |b.txs| && Creates(b.txs[j], op);
    Entry(b.txs[j].outs[op.index], b.height)
  }

  // ---- The sequential ledger ----

  ghost function OutSet(tx: Tx): set<OutPoint> {
    set k | 0 <= k < |tx.outs| && !tx.outs[k].script.OpReturn? :: OutPoint(tx.hash, k)
  }

  ghost function Outs(tx: Tx, height: nat): Db {
    map op | op in OutSet(tx) :: Entry(tx.outs[op.index], height)
  }

  ghost function InSet(tx: Tx): set<OutPoint> {
    if IsCoinBase(tx) || IsInternalContract(tx) then {} else set op | op in tx.ins
  }

  /** One transaction at a time: the inputs leave the database, the spendable outputs enter it. */
  ghost function Step(l: Db, tx: Tx, height: nat): Db {
    (l - InSet(tx)) + Outs(tx, height)
  }

  ghost function RunTo(l: Db, b: Block, n: nat): Db
    requires n <= |b.txs|
  {
    if n == 0 then l else Step(RunTo(l, b, n - 1), b.txs[n - 1], b.height)
  }

  ghost function Run(l: Db, b: Block): Db {
    RunTo(l, b, |b.txs|)
  }

  // ---- What a valid block of ordinary transactions is ----

  ghost predicate DistinctHashes(b: Block) {
    forall i, j | 0 <= i < j < |b.txs| :: b.txs[i].hash != b.txs[j].hash
  }

  ghost predicate NoDoubleSpend(b: Block) {
    (forall i, j | 0 <= i < j < |b.txs| :: Disjoint(b.txs[i].ins, b.txs[j].ins)) &&
    forall i | 0 <= i < |b.txs| :: Distinct(b.txs[i].ins)
  }

  ghost predicate Disjoint(s: seq<OutPoint>, t: seq<OutPoint>) {
    forall x | x in s :: x !in t
  }

  predicate Ordinary(tx: Tx) {
    !IsCoinBase(tx) && !IsInternalContract(tx) && forall op | op in tx.ins :: !IsContractType(op)
  }

  /** Every input is an output of the database or of an earlier transaction of the block. */
  ghost predicate Funded(l: Db, b: Block) {
    forall i, op | 0 <= i < |b.txs| && Spends(b.txs[i], op) :: op in l || CreatedBy(b, i, op)
  }

  ghost function Hashes(b: Block, n: nat): set<Hash>
    requires n <= |b.txs|
  {
    set j | 0 <= j < n :: b.txs[j].hash
  }

  ghost predicate Fresh(index: TxIndex, b: Block) {
    forall j | 0 <= j < |b.txs| :: b.txs[j].hash !in index
  }

  /** A transaction's hash covers its inputs, so it cannot name its own outputs. */
  ghost predicate NoSelfSpend(b: Block) {
    forall i, op | 0 <= i < |b.txs| && op in b.txs[i].ins :: op.hash != b.txs[i].hash
  }

  /** A coinbase, then ordinary transactions; hashes differ, and no output is spent twice. */
  ghost predicate Shaped(b: Block) {
    |b.txs| > 0 && IsCoinBase(b.txs[0]) && (forall i | 0 < i < |b.txs| :: Ordinary(b.txs[i])) &&
    DistinctHashes(b) && NoDoubleSpend(b) && NoSelfSpend(b)
  }

  ghost predicate WellFormed(index: TxIndex, b: Block) {
    Shaped(b) && Fresh(index, b)
  }

  ghost predicate ValidBlock(l: Db, index: TxIndex, b: Block) {
    WellFormed(index, b) && Funded(l, b)
  }

  /** Every unspent output can be read back from the transaction index. */
  ghost predicate Indexed(l: Db, index: TxIndex) {
    forall op | op in l :: FoundAt(index, op, l[op])
  }

  ghost predicate FoundAt(index: TxIndex, op: OutPoint, e: Entry) {
    op.hash in index && index[op.hash].tx.hash == op.hash && Creates(index[op.hash].tx, op) &&
    e == Entry(index[op.hash].tx.outs[op.index], index[op.hash].height)
  }

  ghost function BlockIndex(b: Block, n: nat): TxIndex
    requires n <= |b.txs|
  {
    if n == 0 then map[] else BlockIndex(b, n - 1)[b.txs[n - 1].hash := Located(b.height, b.txs[n - 1])]
  }

  // ---- Facts ----

  lemma StepAt(l: Db, tx: Tx, height: nat, op: OutPoint)
    ensures op in Step(l, tx, height) <==> (op in l && !Spends(tx, op)) || Creates(tx, op)
    ensures Creates(tx, op) ==> Step(l, tx, height)[op] == Entry(tx.outs[op.index], height)
    ensures op in l && !Spends(tx, op) && !Creates(tx, op) ==> Step(l, tx, height)[op] == l[op]
  {
    assert op in OutSet(tx) <==> Creates(tx, op) by {
      if Creates(tx, op) {
        assert op == OutPoint(tx.hash, op.index);
      }
    }
  }

  /** The creator of an output is unique. */
  lemma EntryOf(b: Block, j: nat, op: OutPoint)
    requires DistinctHashes(b) && j < |b.txs| && Creates(b.txs[j], op)
    ensures CreatedBy(b, |b.txs|, op) && EntryIn(b, op) == Entry(b.txs[j].outs[op.index], b.height)
  {
  }

  lemma CreatedHash(b: Block, n: nat, op: OutPoint)
    requires n <= |b.txs| && CreatedBy(b, n, op)
    ensures op.hash in Hashes(b, n) && op.hash in Hashes(b, |b.txs|) && CreatedBy(b, |b.txs|, op)
  {
  }

  /** A created output is new to the database. */
  lemma CreatedIsNew(l: Db, index: TxIndex, b: Block, op: OutPoint)
    requires ValidBlock(l, index, b) && Indexed(l, index) && CreatedBy(b, |b.txs|, op)
    ensures op !in l
  {
  }

  /** No output is spent before it is created. */
  lemma SpentAfterCreated(l: Db, index: TxIndex, b: Block, i: nat, j: nat, op: OutPoint)
    requires ValidBlock(l, index, b) && Indexed(l, index) && i < |b.txs| && j < |b.txs|
    requires Spends(b.txs[i], op) && Creates(b.txs[j], op)
    ensures j < i
  {
    CreatedIsNew(l, index, b, op);
    var k :| 0 <= k < i && Creates(b.txs[k], op);
  }

  /** The ledger after n transactions, output by output. */
  lemma {:induction false} RunAt(l: Db, index: TxIndex, b: Block, n: nat, op: OutPoint)
    requires ValidBlock(l, index, b) && Indexed(l, index) && n <= |b.txs|
    ensures op in RunTo(l, b, n) <==> (op in l || CreatedBy(b, n, op)) && !SpentBy(b, n, op)
    ensures op in RunTo(l, b, n) ==>
              RunTo(l, b, n)[op] == if CreatedBy(b, |b.txs|, op) then EntryIn(b, op) else l[op]
  {
    if n > 0 {
      hide ValidBlock, Indexed, Step, CreatedBy, SpentBy, EntryIn, Creates, Spends;
      RunAt(l, index, b, n - 1, op);
      var tx := b.txs[n - 1];
      StepAt(RunTo(l, b, n - 1), tx, b.height, op);
      ByStep(b, n, op);
      if Creates(tx, op) {
        CreatedStep(l, index, b, n, op);
      }
    }
  }

  lemma ByStep(b: Block, n: nat, op: OutPoint)
    requires 0 < n <= |b.txs|
    ensures CreatedBy(b, n, op) <==> CreatedBy(b, n - 1, op) || Creates(b.txs[n - 1], op)
    ensures SpentBy(b, n, op) <==> SpentBy(b, n - 1, op) || Spends(b.txs[n - 1], op)
    ensures Creates(b.txs[n - 1], op) ==> CreatedBy(b, |b.txs|, op) && op.index < |b.txs[n - 1].outs|
  {
    hide Creates, Spends;
    if Creates(b.txs[n - 1], op) { CreatesIndex(b.txs[n - 1], op); }
  }

  lemma CreatesIndex(tx: Tx, op: OutPoint)
    requires Creates(tx, op)
    ensures op.index < |tx.outs|
  {
  }

  lemma CreatedStep(l: Db, index: TxIndex, b: Block, n: nat, op: OutPoint)
    requires ValidBlock(l, index, b) && Indexed(l, index) && 0 < n <= |b.txs| && Creates(b.txs[n - 1], op)
    ensures !SpentBy(b, n, op) && EntryIn(b, op) == Entry(b.txs[n - 1].outs[op.index], b.height)
  {
    EntryOf(b, n - 1, op);
    if SpentBy(b, n, op) {
      var i :| 0 <= i < n && Spends(b.txs[i], op);
      SpentAfterCreated(l, index, b, i, n - 1, op);
    }
  }

  /** Every input is present in the ledger when its transaction is reached. */
  lemma InputsPresent(l: Db, index: TxIndex, b: Block, n: nat, op: OutPoint)
    requires ValidBlock(l, index, b) && Indexed(l, index) && n < |b.txs| && Spends(b.txs[n], op)
    ensures op in RunTo(l, b, n)
  {
    RunAt(l, index, b, n, op);
    assert forall i | 0 <= i < n :: Disjoint(b.txs[i].ins, b.txs[n].ins);
  }

  lemma {:induction false} BlockIndexAt(b: Block, n: nat, j: nat)
    requires DistinctHashes(b) && j < n <= |b.txs|
    ensures b.txs[j].hash in BlockIndex(b, n) && BlockIndex(b, n)[b.txs[j].hash] == Located(b.height, b.txs[j])
  {
    if j < n - 1 {
      BlockIndexAt(b, n - 1, j);
    }
  }

  lemma {:induction false} BlockIndexKeys(b: Block, n: nat)
    requires n <= |b.txs|
    ensures BlockIndex(b, n).Keys == Hashes(b, n)
  {
    if n > 0 {
      BlockIndexKeys(b, n - 1);
      assert Hashes(b, n) == Hashes(b, n - 1) + {b.txs[n - 1].hash};
    }
  }

  /** Adding a block's transactions to the index keeps every unspent output readable. */
  lemma RunIndexed(l: Db, index: TxIndex, b: Block)
    requires ValidBlock(l, index, b) && Indexed(l, index)
    ensures Indexed(Run(l, b), index + BlockIndex(b, |b.txs|))
  {
    hide ValidBlock, BlockIndex, RunTo;
    forall op | op in Run(l, b) ensures FoundAt(index + BlockIndex(b, |b.txs|), op, Run(l, b)[op]) {
      RunAt(l, index, b, |b.txs|, op);
      FoundAfter(l, index, b, op);
    }
  }

  lemma FoundAfter(l: Db, index: TxIndex, b: Block, op: OutPoint)
    requires ValidBlock(l, index, b) && Indexed(l, index) && (op in l || CreatedBy(b, |b.txs|, op))
    ensures FoundAt(index + BlockIndex(b, |b.txs|), op, if CreatedBy(b, |b.txs|, op) then EntryIn(b, op) else l[op])
  {
    hide Funded, NoDoubleSpend, BlockIndex;
    if CreatedBy(b, |b.txs|, op) {
      var j :| 0 <= j < |b.txs| && Creates(b.txs[j], op);
      EntryOf(b, j, op);
      BlockIndexAt(b, |b.txs|, j);
    } else {
      BlockIndexKeys(b, |b.txs|);
      assert FoundAt(index, op, l[op]);
      assert op.hash !in BlockIndex(b, |b.txs|);
    }
  }

  /** Collision-free hashing and the double-spend check make the hashes of a block distinct. */
  lemma HashesDistinct(b: Block)
    requires forall i | 0 <= i < |b.txs| :: |b.txs[i].ins| > 0
    requires forall i, j | 0 <= i < j < |b.txs| && b.txs[i].hash == b.txs[j].hash :: b.txs[i] == b.txs[j]
    requires NoDoubleSpend(b)
    ensures DistinctHashes(b)
  {
    forall i, j | 0 <= i < j < |b.txs| ensures b.txs[i].hash != b.txs[j].hash {
      assert Disjoint(b.txs[i].ins, b.txs[j].ins);
      assert b.txs[i].ins[0] in b.txs[i].ins;
    }
  }
}
