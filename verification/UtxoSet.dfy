/** `core/chain/utxoset.go`: the working set of outputs with which a block is applied or reverted. */
module UtxoSets {
  import opened BigEndian
  import opened Ledger

  /** An output held in memory, with its two flags. */
  datatype Wrap = Wrap(entry: Entry, spent: bool, modified: bool)
  type UtxoMap = map<OutPoint, Wrap>

  function New(e: Entry): Wrap {
    Wrap(e, false, true)
  }

  function At<V>(m: map<OutPoint, V>, op: OutPoint): Option<V> {
    if op in m then Some(m[op]) else None
  }

  // ---- What each operation does to one output ----

  function SpendWrap(w: Option<Wrap>): Wrap {
    match w
    case None => Wrap(Entry(TxOut(0, Empty), 0), true, true)
    case Some(v) => if v.spent then v else v.(spent := true, modified := true)
  }

  function AddPoint(w: Option<Wrap>, tx: Tx, height: nat, op: OutPoint): Option<Wrap> {
    if Creates(tx, op) && w == None then Some(New(Entry(tx.outs[op.index], height))) else w
  }

  function ApplyPoint(w: Option<Wrap>, tx: Tx, height: nat, op: OutPoint): Option<Wrap> {
    var added := AddPoint(w, tx, height, op);
    if Spends(tx, op) then Some(SpendWrap(added)) else added
  }

  ghost function ApplyTo(w: Option<Wrap>, b: Block, n: nat, op: OutPoint): Option<Wrap>
    requires n <= |b.txs|
  {
    if n == 0 then w else ApplyPoint(ApplyTo(w, b, n - 1, op), b.txs[n - 1], b.height, op)
  }

  /** The output as the transaction index knows it. */
  function Restored(index: TxIndex, op: OutPoint): Option<Wrap> {
    if op.hash in index && op.index < |index[op.hash].tx.outs| && !index[op.hash].tx.outs[op.index].script.OpReturn?
    then Some(New(Entry(index[op.hash].tx.outs[op.index], index[op.hash].height)))
    else None
  }

  function RemovePoint(w: Option<Wrap>, tx: Tx, op: OutPoint): Option<Wrap> {
    if Creates(tx, op) then Some(SpendWrap(w)) else w
  }

  function RestorePoint(w: Option<Wrap>, index: TxIndex, op: OutPoint): Option<Wrap> {
    match w
    case Some(v) => Some(Wrap(v.entry, false, true))
    case None => Restored(index, op)
  }

  function RevertPoint(w: Option<Wrap>, tx: Tx, index: TxIndex, op: OutPoint): Option<Wrap> {
    var removed := RemovePoint(w, tx, op);
    if Spends(tx, op) && !IsContractType(op) then RestorePoint(removed, index, op) else removed
  }

  /** The output after the transactions from n on have been reverted, last first. */
  ghost function RevertTo(w: Option<Wrap>, b: Block, n: nat, index: TxIndex, op: OutPoint): Option<Wrap>
    requires n <= |b.txs|
    decreases |b.txs| - n
  {
    if n == |b.txs| then w else RevertPoint(RevertTo(w, b, n + 1, index, op), b.txs[n], index, op)
  }

  predicate Wanted(needContract: bool, op: OutPoint) {
    needContract || !IsContractType(op)
  }

  /** Some input at a position below n refers to a transaction at or before its own position. */
  ghost predicate Local(needContract: bool, b: Block, n: nat, op: OutPoint)
    requires n <= |b.txs|
  {
    Wanted(needContract, op) && exists i | 0 < i < n :: op in b.txs[i].ins && op.hash in Hashes(b, i + 1)
  }

  ghost predicate Remote(needContract: bool, b: Block, n: nat, op: OutPoint)
    requires n <= |b.txs|
  {
    Wanted(needContract, op) && exists i | 0 < i < n :: op in b.txs[i].ins && op.hash !in Hashes(b, i + 1)
  }

  ghost function Preloaded(needContract: bool, b: Block, n: nat, op: OutPoint): Option<Wrap>
    requires n <= |b.txs|
  {
    if Local(needContract, b, n, op) && CreatedBy(b, |b.txs|, op) then Some(New(EntryIn(b, op))) else None
  }

  function FetchPoint(w: Option<Wrap>, l: Db, op: OutPoint): Option<Wrap> {
    if op in l then Some(New(l[op])) else w
  }

  ghost function Loaded(needContract: bool, l: Db, b: Block, op: OutPoint): Option<Wrap> {
    var w := Preloaded(needContract, b, |b.txs|, op);
    if Remote(needContract, b, |b.txs|, op) then FetchPoint(w, l, op) else w
  }

  ghost function LoadedAll(needContract: bool, l: Db, b: Block, op: OutPoint): Option<Wrap> {
    var w := Loaded(needContract, l, b, op);
    if CreatedBy(b, |b.txs|, op) then FetchPoint(w, l, op) else w
  }

  function WritePoint(e: Option<Entry>, w: Option<Wrap>): Option<Entry> {
    if w == None || !w.value.modified then e else if w.value.spent then None else Some(w.value.entry)
  }

  predicate Unwritable(w: Wrap) {
    w.modified && (w.entry.out.script.OpReturn? || w.entry.out.script.Unreadable?)
  }

  /** Every output pays an address or carries data. */
  predicate Readable(tx: Tx) {
    forall k | 0 <= k < |tx.outs| :: tx.outs[k].script.Address? || tx.outs[k].script.OpReturn?
  }

  // ---- Apply refines the ledger, and revert undoes it ----

  /** While a block is applied an output is marked spent exactly from its spender on. */
  lemma {:induction false} ApplyToAt(w: Option<Wrap>, b: Block, n: nat, op: OutPoint)
    requires n <= |b.txs| && DistinctHashes(b)
    requires w.Some? ==> w.value.modified && !w.value.spent
    requires SpentBy(b, |b.txs|, op) ==> w.Some?
    ensures ApplyTo(w, b, n, op) ==
              if SpentBy(b, n, op) then Some(w.value.(spent := true))
              else if w.Some? then w
              else if CreatedBy(b, n, op) then Some(New(EntryIn(b, op)))
              else None
  {
    if n > 0 {
      ApplyToAt(w, b, n - 1, op);
      if Creates(b.txs[n - 1], op) {
        EntryOf(b, n - 1, op);
      }
    }
  }

  /** While a block is reverted an output is marked spent from its creator on, restored before that. */
  lemma {:induction false} RevertToAt(w: Option<Wrap>, l: Db, before: TxIndex, b: Block, n: nat, index: TxIndex, op: OutPoint)
    requires n <= |b.txs| && ValidBlock(l, before, b) && Indexed(l, before)
    requires w.Some? ==> w.value.modified && !w.value.spent
    ensures var r := RevertTo(w, b, n, index, op);
            if exists j | n <= j < |b.txs| :: Creates(b.txs[j], op)
            then r.Some? && r.value.spent && r.value.modified && (w.Some? ==> r.value.entry == w.value.entry)
            else if exists i | n <= i < |b.txs| :: Spends(b.txs[i], op) then r == RestorePoint(w, index, op)
            else r == w
    decreases |b.txs| - n
  {
    if n < |b.txs| {
      RevertToAt(w, l, before, b, n + 1, index, op);
      if exists j | n < j < |b.txs| :: Creates(b.txs[j], op) {
        var j :| n < j < |b.txs| && Creates(b.txs[j], op);
        if Spends(b.txs[n], op) {
          SpentAfterCreated(l, before, b, n, j, op);
        }
      } else if Spends(b.txs[n], op) {
        OrdinaryInput(l, before, b, n, op);
      }
    }
  }

  lemma OrdinaryInput(l: Db, index: TxIndex, b: Block, n: nat, op: OutPoint)
    requires ValidBlock(l, index, b) && n < |b.txs| && Spends(b.txs[n], op)
    ensures !IsContractType(op) && 0 < n && !Creates(b.txs[n], op)
  {
  }

  /** An input spends what an earlier transaction of the block made, or what the database holds. */
  lemma OriginOf(needContract: bool, l: Db, index: TxIndex, b: Block, i: nat, op: OutPoint)
    requires ValidBlock(l, index, b) && Indexed(l, index) && i < |b.txs| && Spends(b.txs[i], op)
    ensures CreatedBy(b, |b.txs|, op) ==> Local(needContract, b, |b.txs|, op) && !Remote(needContract, b, |b.txs|, op)
    ensures !CreatedBy(b, |b.txs|, op) ==> Remote(needContract, b, |b.txs|, op) && op in l
  {
    OrdinaryInput(l, index, b, i, op);
    if CreatedBy(b, |b.txs|, op) {
      var j :| 0 <= j < |b.txs| && Creates(b.txs[j], op);
      SpentAfterCreated(l, index, b, i, j, op);
      assert b.txs[j].hash in Hashes(b, i + 1);
      SpenderUnique(b, i, op);
    } else {
      assert op in l && FoundAt(index, op, l[op]);
      assert op.hash !in Hashes(b, i + 1);
    }
  }

  lemma SpenderUnique(b: Block, i: nat, op: OutPoint)
    requires NoDoubleSpend(b) && i < |b.txs| && op in b.txs[i].ins
    ensures forall k | 0 <= k < |b.txs| && op in b.txs[k].ins :: k == i
  {
    assert forall k | 0 <= k < i :: Disjoint(b.txs[k].ins, b.txs[i].ins);
    assert forall k | i < k < |b.txs| :: Disjoint(b.txs[i].ins, b.txs[k].ins);
  }

  lemma NotAsked(needContract: bool, index: TxIndex, b: Block, op: OutPoint)
    requires WellFormed(index, b) && !SpentBy(b, |b.txs|, op)
    ensures !Local(needContract, b, |b.txs|, op) && !Remote(needContract, b, |b.txs|, op)
  {
    assert forall i | 0 < i < |b.txs| && op in b.txs[i].ins :: Spends(b.txs[i], op);
  }

  /** What is loaded before a valid block is applied: exactly the outputs it spends, all unspent. */
  lemma LoadedValid(needContract: bool, l: Db, index: TxIndex, b: Block, op: OutPoint)
    requires ValidBlock(l, index, b) && Indexed(l, index)
    ensures Loaded(needContract, l, b, op) ==
              if !SpentBy(b, |b.txs|, op) then None
              else if CreatedBy(b, |b.txs|, op) then Some(New(EntryIn(b, op)))
              else Some(New(l[op]))
    ensures SpentBy(b, |b.txs|, op) && !CreatedBy(b, |b.txs|, op) ==> op in l
  {
    hide ValidBlock, Indexed;
    if SpentBy(b, |b.txs|, op) {
      var i :| 0 <= i < |b.txs| && Spends(b.txs[i], op);
      OriginOf(needContract, l, index, b, i, op);
    } else {
      assert WellFormed(index, b) by { Parts(l, index, b); }
      NotAsked(needContract, index, b, op);
    }
  }

  lemma Parts(l: Db, index: TxIndex, b: Block)
    requires ValidBlock(l, index, b)
    ensures WellFormed(index, b) && DistinctHashes(b)
  {
  }

  /** Load, apply and write is the sequential ledger. */
  lemma ApplyRefinesLedger(l: Db, index: TxIndex, b: Block, op: OutPoint)
    requires ValidBlock(l, index, b) && Indexed(l, index)
    ensures WritePoint(At(l, op), ApplyTo(Loaded(true, l, b, op), b, |b.txs|, op)) == At(Run(l, b), op)
  {
    hide ValidBlock, Indexed, RunTo, Loaded;
    Parts(l, index, b);
    LoadedValid(true, l, index, b, op);
    ApplyToAt(Loaded(true, l, b, op), b, |b.txs|, op);
    RunAt(l, index, b, |b.txs|, op);
    if CreatedBy(b, |b.txs|, op) {
      CreatedIsNew(l, index, b, op);
    }
  }

  /** Load, revert and write on the block's own result gives back what was there before. */
  lemma RevertRestores(l: Db, index: TxIndex, b: Block, op: OutPoint)
    requires ValidBlock(l, index, b) && Indexed(l, index)
    ensures var l' := Run(l, b);
            var index' := index + BlockIndex(b, |b.txs|);
            WritePoint(At(l', op), RevertTo(LoadedAll(false, l', b, op), b, 0, index', op)) == At(l, op)
  {
    hide ValidBlock, Indexed, RunTo, Loaded, BlockIndex, Restored;
    var l' := Run(l, b);
    var index' := index + BlockIndex(b, |b.txs|);
    LoadedAfter(l, index, b, op);
    var w := LoadedAll(false, l', b, op);
    RevertToAt(w, l, index, b, 0, index', op);
    RunAt(l, index, b, |b.txs|, op);
    if CreatedBy(b, |b.txs|, op) {
      CreatedIsNew(l, index, b, op);
    } else if SpentBy(b, |b.txs|, op) {
      LoadedValid(true, l, index, b, op);
      FoundAfter(l, index, b, op);
      RestoredFound(index', op, l[op]);
    }
  }

  lemma RestoredFound(index: TxIndex, op: OutPoint, e: Entry)
    requires FoundAt(index, op, e)
    ensures Restored(index, op) == Some(New(e))
  {
  }

  /** What is loaded before a block is reverted: exactly the outputs it made. */
  lemma LoadedAfter(l: Db, index: TxIndex, b: Block, op: OutPoint)
    requires ValidBlock(l, index, b) && Indexed(l, index)
    ensures LoadedAll(false, Run(l, b), b, op) ==
              if CreatedBy(b, |b.txs|, op) then Some(New(EntryIn(b, op))) else None
  {
    hide ValidBlock, Indexed, RunTo;
    Parts(l, index, b);
    RunAt(l, index, b, |b.txs|, op);
    if SpentBy(b, |b.txs|, op) {
      var i :| 0 <= i < |b.txs| && Spends(b.txs[i], op);
      OriginOf(false, l, index, b, i, op);
    } else {
      NotAsked(false, index, b, op);
    }
  }

  // ---- The working set ----

  class UtxoSet {
    var utxoMap: UtxoMap

    constructor ()
      ensures utxoMap == map[]
    {
      utxoMap := map[];
    }

    /** Adds one output; refuses an index out of range, a data output and an output already present. */
    method AddUtxo(tx: Tx, txOutIdx: nat, height: nat) returns (ok: bool)
      modifies this
      ensures ok <==> Creates(tx, OutPoint(tx.hash, txOutIdx)) && OutPoint(tx.hash, txOutIdx) !in old(utxoMap)
      ensures utxoMap == if ok then old(utxoMap)[OutPoint(tx.hash, txOutIdx) := New(Entry(tx.outs[txOutIdx], height))]
                         else old(utxoMap)
    {
      if txOutIdx >= |tx.outs| { return false; }
      var vout := tx.outs[txOutIdx];
      if vout.script.OpReturn? { return false; }
      var op := OutPoint(tx.hash, txOutIdx);
      if op in utxoMap { return false; }
      utxoMap := utxoMap[op := New(Entry(vout, height))];
      ok := true;
    }

    method SpendUtxo(op: OutPoint)
      modifies this
      ensures utxoMap == old(utxoMap)[op := SpendWrap(At(old(utxoMap), op))]
    {
      utxoMap := utxoMap[op := SpendWrap(At(utxoMap, op))];
    }

    /** Adds the outputs of a transaction, then marks its inputs spent. */
    method ApplyTx(tx: Tx, height: nat) returns (ok: bool)
      modifies this
      ensures ok <==> Readable(tx)
      ensures ok ==> forall op :: At(utxoMap, op) == ApplyPoint(At(old(utxoMap), op), tx, height, op)
    {
      ok := ApplyOutputs(tx, height);
      if !ok { return; }
      if IsCoinBase(tx) || IsInternalContract(tx) { return; }
      ghost var added := utxoMap;
      for k := 0 to |tx.ins|
        invariant forall op :: At(utxoMap, op) ==
                    if op in tx.ins[..k] then Some(SpendWrap(At(added, op))) else At(added, op)
      {
        SpendUtxo(tx.ins[k]);
      }
    }

    method ApplyOutputs(tx: Tx, height: nat) returns (ok: bool)
      modifies this
      ensures ok <==> Readable(tx)
      ensures ok ==> forall op :: At(utxoMap, op) == AddPoint(At(old(utxoMap), op), tx, height, op)
    {
      ghost var m := utxoMap;
      for k := 0 to |tx.outs|
        invariant forall i | 0 <= i < k :: tx.outs[i].script.Address? || tx.outs[i].script.OpReturn?
        invariant forall op :: At(utxoMap, op) ==
                    if op.index < k then AddPoint(At(m, op), tx, height, op) else At(m, op)
      {
        if !tx.outs[k].script.OpReturn? {
          if !tx.outs[k].script.Address? { return false; }
          var op := OutPoint(tx.hash, k);
          if op !in utxoMap {
            utxoMap := utxoMap[op := New(Entry(tx.outs[k], height))];
          }
        }
      }
      ok := true;
    }

    method ApplyBlock(b: Block) returns (ok: bool)
      modifies this
      ensures ok <==> forall i | 0 <= i < |b.txs| :: Readable(b.txs[i])
      ensures ok ==> forall op :: At(utxoMap, op) == ApplyTo(At(old(utxoMap), op), b, |b.txs|, op)
    {
      hide ApplyPoint;
      ghost var m := utxoMap;
      for i := 0 to |b.txs|
        invariant forall k | 0 <= k < i :: Readable(b.txs[k])
        invariant forall op :: At(utxoMap, op) == ApplyTo(At(m, op), b, i, op)
      {
        ok := ApplyTx(b.txs[i], b.height);
        if !ok { return; }
      }
      ok := true;
    }

    /** Marks the outputs of a transaction spent, then brings back its inputs; false where an input
        is neither in the set nor in the index. */
    method RevertTx(tx: Tx, index: TxIndex) returns (ok: bool)
      modifies this
      ensures ok ==> forall op :: At(utxoMap, op) == RevertPoint(At(old(utxoMap), op), tx, index, op)
      ensures ok <==> forall op | Restores(tx, op) :: Present(At(old(utxoMap), op), tx, op) || Known(index, op)
    {
      RemoveOutputs(tx);
      if IsCoinBase(tx) || IsInternalContract(tx) { return true; }
      ghost var m := utxoMap;
      for k := 0 to |tx.ins|
        invariant forall op :: At(utxoMap, op) ==
                    if op in tx.ins[..k] && !IsContractType(op) then RestorePoint(At(m, op), index, op) else At(m, op)
        invariant forall op | op in tx.ins[..k] && !IsContractType(op) :: At(m, op).Some? || Known(index, op)
      {
        var op := tx.ins[k];
        ghost var w := At(utxoMap, op);
        if !IsContractType(op) {
          if op in utxoMap {
            utxoMap := utxoMap[op := Wrap(utxoMap[op].entry, false, true)];
          } else {
            if op.hash !in index || op.index >= |index[op.hash].tx.outs| {
              assert Restores(tx, op) && !Known(index, op);
              return false;
            }
            var prevOut := index[op.hash].tx.outs[op.index];
            if !prevOut.script.OpReturn? {
              utxoMap := utxoMap[op := New(Entry(prevOut, index[op.hash].height))];
            }
          }
          assert At(utxoMap, op) == RestorePoint(w, index, op);
        }
      }
      ok := true;
    }

    method RemoveOutputs(tx: Tx)
      modifies this
      ensures forall op :: At(utxoMap, op) == RemovePoint(At(old(utxoMap), op), tx, op)
    {
      ghost var m := utxoMap;
      for k := 0 to |tx.outs|
        invariant forall op :: At(utxoMap, op) == if op.index < k then RemovePoint(At(m, op), tx, op) else At(m, op)
      {
        if !tx.outs[k].script.OpReturn? {
          SpendUtxo(OutPoint(tx.hash, k));
        }
      }
    }

    /** Reverts the transactions of a block, last first. */
    method RevertBlock(b: Block, index: TxIndex) returns (ok: bool)
      modifies this
      ensures ok ==> forall op :: At(utxoMap, op) == RevertTo(At(old(utxoMap), op), b, 0, index, op)
      ensures ok <==> forall i, op | 0 <= i < |b.txs| && Restores(b.txs[i], op) ::
                        Restorable(At(old(utxoMap), op), b, i, index, op)
    {
      hide RevertPoint, Restores, Restorable, Known;
      ghost var m := utxoMap;
      var txIdx := |b.txs|;
      while txIdx > 0
        invariant 0 <= txIdx <= |b.txs|
        invariant forall op :: At(utxoMap, op) == RevertTo(At(m, op), b, txIdx, index, op)
        invariant forall i, op | txIdx <= i < |b.txs| && Restores(b.txs[i], op) :: Restorable(At(m, op), b, i, index, op)
      {
        txIdx := txIdx - 1;
        forall op ensures Restorable(At(m, op), b, txIdx, index, op) <==>
                          Present(At(utxoMap, op), b.txs[txIdx], op) || Known(index, op) {
          RestorableAt(At(m, op), b, txIdx, index, op);
        }
        ok := RevertTx(b.txs[txIdx], index);
        if !ok { return; }
      }
      ok := true;
    }

    /** Loads what the block spends: outputs of the block itself, or of the database. */
    method LoadBlockUtxos(b: Block, needContract: bool, l: Db)
      requires utxoMap == map[] && DistinctHashes(b)
      modifies this
      ensures forall op :: At(utxoMap, op) == Loaded(needContract, l, b, op)
    {
      hide Preloaded, Remote;
      var txs := Positions(b);
      var outPointsToFetch: set<OutPoint> := {};
      NothingAsked(needContract, b);
      for i := 0 to |b.txs|
        invariant forall op :: At(utxoMap, op) == Preloaded(needContract, b, i, op)
        invariant forall op :: op in outPointsToFetch <==> Remote(needContract, b, i, op)
      {
        ghost var m, fetch := utxoMap, outPointsToFetch;
        if i > 0 {
          forall op | op in utxoMap ensures op.hash in Hashes(b, i + 1) {
            AskedStep(needContract, b, i, op);
            assert At(utxoMap, op).Some?;
          }
          outPointsToFetch := LoadInputs(b, i, txs, needContract, outPointsToFetch);
        }
        forall op
          ensures At(utxoMap, op) == Preloaded(needContract, b, i + 1, op)
          ensures op in outPointsToFetch <==> Remote(needContract, b, i + 1, op)
        {
          AskedStep(needContract, b, i, op);
        }
      }
      FetchUtxos(outPointsToFetch, l);
    }

    method Positions(b: Block) returns (txs: map<Hash, nat>)
      requires DistinctHashes(b)
      ensures txs.Keys == Hashes(b, |b.txs|)
      ensures forall j | 0 <= j < |b.txs| :: b.txs[j].hash in txs && txs[b.txs[j].hash] == j
    {
      txs := map[];
      for j := 0 to |b.txs|
        invariant txs.Keys == Hashes(b, j)
        invariant forall k | 0 <= k < j :: b.txs[k].hash in txs && txs[b.txs[k].hash] == k
      {
        txs := txs[b.txs[j].hash := j];
        assert Hashes(b, j + 1) == Hashes(b, j) + {b.txs[j].hash};
      }
    }

    /** The inputs of one transaction: added from the block, or noted for fetching. */
    method LoadInputs(b: Block, i: nat, txs: map<Hash, nat>, needContract: bool, fetch: set<OutPoint>)
      returns (fetch': set<OutPoint>)
      requires 0 < i < |b.txs| && DistinctHashes(b) && txs.Keys == Hashes(b, |b.txs|)
      requires forall j | 0 <= j < |b.txs| :: b.txs[j].hash in txs && txs[b.txs[j].hash] == j
      requires forall op | op in utxoMap :: op.hash in Hashes(b, i + 1)
      modifies this
      ensures forall op :: At(utxoMap, op) ==
                if op in b.txs[i].ins then LocalPoint(At(old(utxoMap), op), needContract, b, i, op)
                else At(old(utxoMap), op)
      ensures forall op :: op in fetch' <==>
                op in fetch || (op in b.txs[i].ins && Wanted(needContract, op) && op.hash !in Hashes(b, i + 1))
    {
      hide LocalPoint;
      ghost var m := utxoMap;
      var ins := b.txs[i].ins;
      fetch' := fetch;
      for k := 0 to |ins|
        invariant forall op | op in utxoMap :: op.hash in Hashes(b, i + 1)
        invariant forall op :: At(utxoMap, op) ==
                    if op in ins[..k] then LocalPoint(At(m, op), needContract, b, i, op) else At(m, op)
        invariant forall op :: op in fetch' <==>
                    op in fetch || (op in ins[..k] && Wanted(needContract, op) && op.hash !in Hashes(b, i + 1))
      {
        var op := ins[k];
        ghost var w := At(utxoMap, op);
        LocalPointFacts(needContract, b, i, op, At(m, op));
        if needContract || !IsContractType(op) {
          if op.hash in txs && i >= txs[op.hash] {
            var _ := AddUtxo(b.txs[txs[op.hash]], op.index, b.height);
          } else if op !in utxoMap {
            fetch' := fetch' + {op};
          }
        }
        assert op in fetch' <==> op in fetch || (Wanted(needContract, op) && op.hash !in Hashes(b, i + 1));
      }
      assert ins[..|ins|] == ins;
    }

    method FetchUtxos(outPoints: set<OutPoint>, l: Db)
      modifies this
      ensures forall op :: At(utxoMap, op) ==
                if op in outPoints then FetchPoint(At(old(utxoMap), op), l, op) else At(old(utxoMap), op)
    {
      ghost var m := utxoMap;
      var rest := outPoints;
      while rest != {}
        invariant rest <= outPoints
        invariant forall op :: At(utxoMap, op) ==
                    if op in outPoints - rest then FetchPoint(At(m, op), l, op) else At(m, op)
        decreases rest
      {
        var op :| op in rest;
        if op in l {
          utxoMap := utxoMap[op := New(l[op])];
        }
        rest := rest - {op};
      }
    }

    /** Loads what the block spends and what it made. */
    method LoadBlockAllUtxos(b: Block, needContract: bool, l: Db)
      requires utxoMap == map[] && DistinctHashes(b)
      modifies this
      ensures forall op :: At(utxoMap, op) == LoadedAll(needContract, l, b, op)
    {
      hide Loaded;
      LoadBlockUtxos(b, needContract, l);
      ghost var m := utxoMap;
      var outPointsToFetch: set<OutPoint> := {};
      for i := 0 to |b.txs|
        invariant utxoMap == m
        invariant forall op :: op in outPointsToFetch <==> CreatedBy(b, i, op)
      {
        outPointsToFetch := NoteOutputs(b.txs[i], outPointsToFetch);
      }
      FetchUtxos(outPointsToFetch, l);
    }

    method NoteOutputs(tx: Tx, fetch: set<OutPoint>) returns (fetch': set<OutPoint>)
      ensures forall op :: op in fetch' <==> op in fetch || Creates(tx, op)
    {
      fetch' := fetch;
      for k := 0 to |tx.outs|
        invariant forall op :: op in fetch' <==> op in fetch || (op.index < k && Creates(tx, op))
      {
        if !tx.outs[k].script.OpReturn? {
          fetch' := fetch' + {OutPoint(tx.hash, k)};
        }
      }
    }

    /** Writes every modified output to the database: spent ones are deleted. */
    method WriteUtxoSetToDB(l: Db) returns (r: Option<Db>)
      ensures r == None <==> exists op :: op in utxoMap && Unwritable(utxoMap[op])
      ensures r.Some? ==> forall op :: At(r.value, op) == WritePoint(At(l, op), At(utxoMap, op))
    {
      var l', rest := l, utxoMap.Keys;
      while rest != {}
        invariant rest <= utxoMap.Keys
        invariant forall op | op in utxoMap && op !in rest :: !Unwritable(utxoMap[op])
        invariant forall op :: At(l', op) == if op in rest then At(l, op) else WritePoint(At(l, op), At(utxoMap, op))
        decreases rest
      {
        var op :| op in rest;
        var w := utxoMap[op];
        if w.modified {
          if w.entry.out.script.OpReturn? || w.entry.out.script.Unreadable? {
            assert Unwritable(w);
            return None;
          }
          if w.spent {
            l' := l' - {op};
          } else {
            l' := l'[op := w.entry];
          }
        }
        rest := rest - {op};
      }
      r := Some(l');
    }
  }

  /** One input naming a transaction of the block at or before position i. */
  ghost function LocalPoint(w: Option<Wrap>, needContract: bool, b: Block, i: nat, op: OutPoint): Option<Wrap>
    requires i < |b.txs|
  {
    if w == None && Wanted(needContract, op) && op.hash in Hashes(b, i + 1) && CreatedBy(b, |b.txs|, op)
    then Some(New(EntryIn(b, op)))
    else w
  }

  lemma LocalPointFacts(needContract: bool, b: Block, i: nat, op: OutPoint, w: Option<Wrap>)
    requires i < |b.txs| && DistinctHashes(b)
    ensures !Wanted(needContract, op) || op.hash !in Hashes(b, i + 1) ==> LocalPoint(w, needContract, b, i, op) == w
    ensures LocalPoint(LocalPoint(w, needContract, b, i, op), needContract, b, i, op) ==
            LocalPoint(w, needContract, b, i, op)
    ensures forall j | 0 <= j < |b.txs| && b.txs[j].hash == op.hash && Wanted(needContract, op) ::
              (op.hash in Hashes(b, i + 1) <==> j <= i) &&
              (j <= i ==> LocalPoint(w, needContract, b, i, op) ==
                          if w == None && Creates(b.txs[j], op) then Some(New(Entry(b.txs[j].outs[op.index], b.height)))
                          else w)
  {
    forall j | 0 <= j < |b.txs| && b.txs[j].hash == op.hash && Creates(b.txs[j], op)
      ensures EntryIn(b, op) == Entry(b.txs[j].outs[op.index], b.height)
    {
      EntryOf(b, j, op);
    }
  }

  lemma NothingAsked(needContract: bool, b: Block)
    ensures forall op :: Preloaded(needContract, b, 0, op) == None && !Remote(needContract, b, 0, op)
  {
  }

  lemma AskedStep(needContract: bool, b: Block, i: nat, op: OutPoint)
    requires i < |b.txs|
    ensures Preloaded(needContract, b, i + 1, op) ==
              if 0 < i && op in b.txs[i].ins then LocalPoint(Preloaded(needContract, b, i, op), needContract, b, i, op)
              else Preloaded(needContract, b, i, op)
    ensures Remote(needContract, b, i + 1, op) <==>
              Remote(needContract, b, i, op) ||
              (0 < i && op in b.txs[i].ins && Wanted(needContract, op) && op.hash !in Hashes(b, i + 1))
    ensures Preloaded(needContract, b, i, op).Some? ==> op.hash in Hashes(b, i + 1)
  {
  }

  predicate Known(index: TxIndex, op: OutPoint) {
    op.hash in index && op.index < |index[op.hash].tx.outs|
  }

  /** Reverting the transaction brings the output back. */
  predicate Restores(tx: Tx, op: OutPoint) {
    Spends(tx, op) && !IsContractType(op)
  }

  /** The output is in the set, or is one of the transaction's own. */
  predicate Present(w: Option<Wrap>, tx: Tx, op: OutPoint) {
    w.Some? || Creates(tx, op)
  }

  /** When the transaction at i is reverted, the output is in the set or can be read from the index. */
  ghost predicate Restorable(w: Option<Wrap>, b: Block, i: nat, index: TxIndex, op: OutPoint)
    requires i < |b.txs|
  {
    w.Some? || (exists j | i <= j < |b.txs| :: Creates(b.txs[j], op)) || Known(index, op)
  }

  lemma RestorableAt(w: Option<Wrap>, b: Block, i: nat, index: TxIndex, op: OutPoint)
    requires i < |b.txs|
    ensures Restorable(w, b, i, index, op) <==>
            Present(RevertTo(w, b, i + 1, index, op), b.txs[i], op) || Known(index, op)
  {
    hide Creates, RevertTo, Known;
    RevertedSome(w, b, i + 1, index, op);
  }

  lemma {:induction false} RevertedSome(w: Option<Wrap>, b: Block, n: nat, index: TxIndex, op: OutPoint)
    requires n <= |b.txs|
    ensures w.Some? || (exists j | n <= j < |b.txs| :: Creates(b.txs[j], op)) ==> RevertTo(w, b, n, index, op).Some?
    ensures RevertTo(w, b, n, index, op).Some? ==>
              w.Some? || (exists j | n <= j < |b.txs| :: Creates(b.txs[j], op)) || Known(index, op)
    decreases |b.txs| - n
  {
    if n < |b.txs| {
      hide Creates;
      RevertedSome(w, b, n + 1, index, op);
    }
  }

  // ---- Connecting and disconnecting a block ----

  /** What the write of an applied block makes of the database. */
  lemma ApplyAndWrite(l: Db, index: TxIndex, b: Block, m: UtxoMap)
    requires ValidBlock(l, index, b) && Indexed(l, index) && Payable(l)
    requires forall i | 0 <= i < |b.txs| :: Readable(b.txs[i])
    requires forall op :: At(m, op) == ApplyTo(Loaded(true, l, b, op), b, |b.txs|, op)
    ensures forall op | op in m :: !Unwritable(m[op])
    ensures forall op :: WritePoint(At(l, op), At(m, op)) == At(Run(l, b), op)
  {
    hide ValidBlock, Indexed, Loaded, Run, Payable;
    forall op
      ensures op in m ==> !Unwritable(m[op])
      ensures WritePoint(At(l, op), At(m, op)) == At(Run(l, b), op)
    {
      assert At(m, op) == ApplyTo(Loaded(true, l, b, op), b, |b.txs|, op);
      ApplyWritable(l, index, b, op);
      ApplyRefinesLedger(l, index, b, op);
    }
  }

  /** Load, revert and write: the database is again what it was before the block. */
  method DisconnectUtxos(l': Db, index': TxIndex, b: Block, ghost l: Db, ghost index: TxIndex)
    returns (r: Option<Db>)
    requires ValidBlock(l, index, b) && Indexed(l, index) && Payable(l)
    requires forall i | 0 <= i < |b.txs| :: Readable(b.txs[i])
    requires l' == Run(l, b) && index' == index + BlockIndex(b, |b.txs|)
    ensures r == Some(l)
  {
    hide ValidBlock, Indexed, LoadedAll, Run, BlockIndex, Payable;
    Parts(l, index, b);
    var utxoSet := new UtxoSet();
    utxoSet.LoadBlockAllUtxos(b, false, l');
    AllKnown(l, index, b);
    var ok := utxoSet.RevertBlock(b, index');
    ghost var m := utxoSet.utxoMap;
    forall op ensures op in m ==> !Unwritable(m[op])
      ensures WritePoint(At(l', op), At(m, op)) == At(l, op)
    {
      assert At(m, op) == RevertTo(LoadedAll(false, l', b, op), b, 0, index', op);
      RevertWritable(l, index, b, op);
      RevertRestores(l, index, b, op);
    }
    r := utxoSet.WriteUtxoSetToDB(l');
    SameDb(r.value, l);
  }

  /** Every unspent output pays an address. */
  ghost predicate Payable(l: Db) {
    forall op | op in l :: l[op].out.script.Address?
  }

  lemma SameDb(l: Db, l': Db)
    requires forall op :: At(l, op) == At(l', op)
    ensures l == l'
  {
    assert forall op | op in l :: At(l, op) == At(l', op);
    assert forall op | op in l' :: At(l, op) == At(l', op);
  }

  lemma CreatedPayable(b: Block, op: OutPoint)
    requires forall i | 0 <= i < |b.txs| :: Readable(b.txs[i])
    requires CreatedBy(b, |b.txs|, op)
    ensures EntryIn(b, op).out.script.Address?
  {
  }

  lemma RunPayable(l: Db, index: TxIndex, b: Block)
    requires ValidBlock(l, index, b) && Indexed(l, index) && Payable(l)
    requires forall i | 0 <= i < |b.txs| :: Readable(b.txs[i])
    ensures Payable(Run(l, b))
  {
    hide ValidBlock, Indexed, RunTo;
    forall op | op in Run(l, b) ensures Run(l, b)[op].out.script.Address? {
      RunAt(l, index, b, |b.txs|, op);
      if CreatedBy(b, |b.txs|, op) {
        CreatedPayable(b, op);
      }
    }
  }

  lemma ApplyWritable(l: Db, index: TxIndex, b: Block, op: OutPoint)
    requires ValidBlock(l, index, b) && Indexed(l, index) && Payable(l)
    requires forall i | 0 <= i < |b.txs| :: Readable(b.txs[i])
    ensures var w := ApplyTo(Loaded(true, l, b, op), b, |b.txs|, op); w.Some? ==> !Unwritable(w.value)
  {
    hide ValidBlock, Indexed, Loaded;
    Parts(l, index, b);
    LoadedValid(true, l, index, b, op);
    ApplyToAt(Loaded(true, l, b, op), b, |b.txs|, op);
    if CreatedBy(b, |b.txs|, op) {
      CreatedPayable(b, op);
    }
  }

  lemma RevertWritable(l: Db, index: TxIndex, b: Block, op: OutPoint)
    requires ValidBlock(l, index, b) && Indexed(l, index) && Payable(l)
    requires forall i | 0 <= i < |b.txs| :: Readable(b.txs[i])
    ensures var w := RevertTo(LoadedAll(false, Run(l, b), b, op), b, 0, index + BlockIndex(b, |b.txs|), op);
            w.Some? ==> !Unwritable(w.value)
  {
    hide ValidBlock, Indexed, RunTo, LoadedAll, BlockIndex, Restored;
    var index' := index + BlockIndex(b, |b.txs|);
    LoadedAfter(l, index, b, op);
    RevertToAt(LoadedAll(false, Run(l, b), b, op), l, index, b, 0, index', op);
    if CreatedBy(b, |b.txs|, op) {
      CreatedPayable(b, op);
    } else if SpentBy(b, |b.txs|, op) {
      LoadedValid(true, l, index, b, op);
      FoundAfter(l, index, b, op);
      RestoredFound(index', op, l[op]);
    }
  }

  lemma AllKnown(l: Db, index: TxIndex, b: Block)
    requires ValidBlock(l, index, b) && Indexed(l, index)
    ensures forall i, op | 0 <= i < |b.txs| && Spends(b.txs[i], op) :: Known(index + BlockIndex(b, |b.txs|), op)
  {
    hide ValidBlock, Indexed, BlockIndex;
    forall i, op | 0 <= i < |b.txs| && Spends(b.txs[i], op) ensures Known(index + BlockIndex(b, |b.txs|), op) {
      OriginOf(true, l, index, b, i, op);
      FoundAfter(l, index, b, op);
    }
  }
}
