/** Why no transaction enters a chain twice: what it spends is gone, and only a repeat could bring it back. */
module Freshness {
  import opened Ledger

  /** What an indexed transaction spent is no longer there, and came from an indexed transaction. */
  ghost predicate Settled(l: Db, index: TxIndex) {
    forall h, op | h in index && Spends(index[h].tx, op) :: op !in l && op.hash in index
  }

  /** The transaction index knows a hash of the block only as the same transaction. */
  ghost predicate Agrees(index: TxIndex, b: Block) {
    forall i | 0 <= i < |b.txs| && b.txs[i].hash in index :: index[b.txs[i].hash].tx == b.txs[i]
  }

  /** Two blocks use a hash only for the same transaction. */
  ghost predicate Alike(a: Block, b: Block) {
    forall i, j | 0 <= i < |a.txs| && 0 <= j < |b.txs| && a.txs[i].hash == b.txs[j].hash :: a.txs[i] == b.txs[j]
  }

  ghost predicate AllHaveInputs(b: Block) {
    forall i | 0 <= i < |b.txs| :: |b.txs[i].ins| > 0
  }

  /** A transaction of a funded block is new: were it indexed, its first input would be gone, so an earlier
      transaction of the block would make that output again and be indexed too. */
  lemma {:induction false} FundedIsNew(l: Db, index: TxIndex, b: Block, i: nat)
    requires Shaped(b) && AllHaveInputs(b) && Funded(l, b) && Settled(l, index) && i < |b.txs|
    requires Agrees(index, b) && b.txs[0].hash !in index
    ensures b.txs[i].hash !in index
  {
    hide DistinctHashes, NoDoubleSpend, NoSelfSpend;
    var tx := b.txs[i];
    if tx.hash in index {
      assert index[tx.hash].tx == b.txs[i];
      assert i > 0;
      assert Ordinary(b.txs[i]);
      var op := tx.ins[0];
      assert op in tx.ins;
      assert Spends(index[tx.hash].tx, op);
      assert op in l || CreatedBy(b, i, op);
      var j :| 0 <= j < i && Creates(b.txs[j], op);
      FundedIsNew(l, index, b, j);
    }
  }

  lemma FundedIsFresh(l: Db, index: TxIndex, b: Block)
    requires Shaped(b) && AllHaveInputs(b) && Settled(l, index) && Agrees(index, b) && b.txs[0].hash !in index
    ensures Funded(l, b) ==> Fresh(index, b)
  {
    hide AllHaveInputs, Funded, Settled, Agrees, DistinctHashes, NoDoubleSpend, NoSelfSpend;
    if Funded(l, b) {
      forall i | 0 <= i < |b.txs| ensures b.txs[i].hash !in index {
        FundedIsNew(l, index, b, i);
      }
    }
  }

  /** The index after a block, hash by hash. */
  lemma IndexAfter(index: TxIndex, b: Block, h: Hash)
    requires DistinctHashes(b) && h in index + BlockIndex(b, |b.txs|)
    ensures var e := (index + BlockIndex(b, |b.txs|))[h];
            (h in index && h !in Hashes(b, |b.txs|) && e == index[h]) ||
            exists j | 0 <= j < |b.txs| :: b.txs[j].hash == h && e == Located(b.height, b.txs[j])
  {
    BlockIndexKeys(b, |b.txs|);
    if h in Hashes(b, |b.txs|) {
      var j :| 0 <= j < |b.txs| && b.txs[j].hash == h;
      BlockIndexAt(b, |b.txs|, j);
    }
  }

  /** A block leaves the outputs it spends, and those spent before, spent for good. */
  lemma RunSettled(l: Db, index: TxIndex, b: Block)
    requires ValidBlock(l, index, b) && Indexed(l, index) && Settled(l, index)
    ensures Settled(Run(l, b), index + BlockIndex(b, |b.txs|))
  {
    hide BlockIndex, RunTo, ValidBlock, Indexed, Settled;
    var index' := index + BlockIndex(b, |b.txs|);
    assert Settled(Run(l, b), index') by {
      forall h, op | h in index' && Spends(index'[h].tx, op) ensures op !in Run(l, b) && op.hash in index' {
        SpentForGood(l, index, b, h, op);
      }
      assert forall h, op | h in index' && Spends(index'[h].tx, op) :: op !in Run(l, b) && op.hash in index';
      SettledBy(Run(l, b), index');
    }
  }

  lemma SettledBy(l: Db, index: TxIndex)
    requires forall h, op | h in index && Spends(index[h].tx, op) :: op !in l && op.hash in index
    ensures Settled(l, index)
  {
  }

  lemma SpentForGood(l: Db, index: TxIndex, b: Block, h: Hash, op: OutPoint)
    requires ValidBlock(l, index, b) && Indexed(l, index) && Settled(l, index)
    requires h in index + BlockIndex(b, |b.txs|) && Spends((index + BlockIndex(b, |b.txs|))[h].tx, op)
    ensures op !in Run(l, b) && op.hash in index + BlockIndex(b, |b.txs|)
  {
    hide BlockIndex, RunTo, Indexed, NoDoubleSpend, NoSelfSpend, Funded;
    RunAt(l, index, b, |b.txs|, op);
    IndexAfter(index, b, h);
    if h in index && h !in Hashes(b, |b.txs|) {
      if CreatedBy(b, |b.txs|, op) {
        CreatedHash(b, |b.txs|, op);
      }
    } else {
      var j :| 0 <= j < |b.txs| && b.txs[j].hash == h && Spends(b.txs[j], op);
      SpentIsIndexed(l, index, b, j, op);
    }
  }

  lemma SpentIsIndexed(l: Db, index: TxIndex, b: Block, j: nat, op: OutPoint)
    requires Funded(l, b) && Indexed(l, index) && j < |b.txs| && Spends(b.txs[j], op)
    ensures op.hash in index + BlockIndex(b, |b.txs|)
  {
    hide BlockIndex;
    BlockIndexKeys(b, |b.txs|);
    if op in l {
      assert FoundAt(index, op, l[op]);
    } else {
      CreatedHash(b, j, op);
    }
  }

  /** Agreement carries over to the index after a block. */
  lemma AgreesAfter(index: TxIndex, a: Block, b: Block)
    requires DistinctHashes(a) && Agrees(index, b) && Alike(a, b)
    ensures Agrees(index + BlockIndex(a, |a.txs|), b)
  {
    hide BlockIndex, DistinctHashes;
    forall i | 0 <= i < |b.txs| && b.txs[i].hash in index + BlockIndex(a, |a.txs|)
      ensures (index + BlockIndex(a, |a.txs|))[b.txs[i].hash].tx == b.txs[i]
    {
      IndexAfter(index, a, b.txs[i].hash);
    }
  }

  /** A coinbase in the index after a block was there before, or is the block's own. */
  lemma CoinbaseAfter(index: TxIndex, a: Block, b: Block)
    requires Shaped(a) && Shaped(b) && Alike(a, b) && b.txs[0].hash in index + BlockIndex(a, |a.txs|)
    ensures b.txs[0].hash in index || a.txs[0] == b.txs[0]
  {
    hide BlockIndex, DistinctHashes, NoDoubleSpend, NoSelfSpend;
    IndexAfter(index, a, b.txs[0].hash);
    if b.txs[0].hash !in index {
      var j :| 0 <= j < |a.txs| && a.txs[j].hash == b.txs[0].hash;
      assert a.txs[j] == b.txs[0];
      if j > 0 { assert Ordinary(a.txs[j]); }
    }
  }
}
