/** Amount checks of a block and the conservation of value they give. */
module Supply {
  import opened BigEndian
  import opened Collections
  import opened Ledger
  import opened UtxoSets
  import UtxoCodec

  const TRANSFER_FEE: nat := 50 * 21000
  const IN_OUT_PER_EXTRA_FEE: nat := 16
  const TOTAL_SUPPLY: nat := UtxoCodec.TOTAL_SUPPLY
  const MAX_TXS_ROUGH_SIZE: nat := 4 * 1024 * 1024

  function ExtraFee(tx: Tx): nat {
    (|tx.ins| + |tx.outs|) / IN_OUT_PER_EXTRA_FEE * TRANSFER_FEE
  }

  // ---- Sums ----

  ghost function Total(l: Db): nat
    decreases |l|
  {
    if l == map[] then 0 else
      var op :| op in l;
      l[op].out.value + Total(l - {op})
  }

  ghost function OutSum(tx: Tx, n: nat): nat
    requires n <= |tx.outs|
  {
    if n == 0 then 0 else OutSum(tx, n - 1) + tx.outs[n - 1].value
  }

  /** The value a transaction puts into data outputs, which nobody can spend. */
  ghost function DataSum(tx: Tx, n: nat): nat
    requires n <= |tx.outs|
  {
    if n == 0 then 0
    else DataSum(tx, n - 1) + if tx.outs[n - 1].script.OpReturn? then tx.outs[n - 1].value else 0
  }

  /** What an output of the block or the database is worth. */
  ghost function ValueOf(l: Db, b: Block, op: OutPoint): nat {
    if CreatedBy(b, |b.txs|, op) then EntryIn(b, op).out.value else if op in l then l[op].out.value else 0
  }

  ghost function InSum(l: Db, b: Block, ins: seq<OutPoint>, n: nat): nat
    requires n <= |ins|
  {
    if n == 0 then 0 else InSum(l, b, ins, n - 1) + ValueOf(l, b, ins[n - 1])
  }

  ghost function TxIn(l: Db, b: Block, tx: Tx): nat {
    if IsCoinBase(tx) || IsInternalContract(tx) then 0 else InSum(l, b, tx.ins, |tx.ins|)
  }

  ghost function TxOutTotal(tx: Tx): nat {
    OutSum(tx, |tx.outs|)
  }

  ghost function BlockData(b: Block, n: nat): nat
    requires n <= |b.txs|
  {
    if n == 0 then 0 else BlockData(b, n - 1) + DataSum(b.txs[n - 1], |b.txs[n - 1].outs|)
  }

  /** What the inputs of the first n transactions exceed their outputs by. */
  ghost function Surplus(l: Db, b: Block, n: nat): int
    requires n <= |b.txs|
  {
    if n == 0 then 0 else Surplus(l, b, n - 1) + TxIn(l, b, b.txs[n - 1]) - TxOutTotal(b.txs[n - 1])
  }

  lemma {:induction false} TotalRemove(l: Db, op: OutPoint)
    requires op in l
    ensures Total(l) == l[op].out.value + Total(l - {op})
    decreases |l|
  {
    var x :| x in l && Total(l) == l[x].out.value + Total(l - {x});
    if x != op {
      TotalRemove(l - {x}, op);
      TotalRemove(l - {op}, x);
      assert (l - {x}) - {op} == (l - {op}) - {x};
    }
  }

  lemma TotalInsert(l: Db, op: OutPoint, e: Entry)
    requires op !in l
    ensures Total(l[op := e]) == Total(l) + e.out.value
  {
    TotalRemove(l[op := e], op);
    assert l[op := e] - {op} == l;
  }

  /** Spending distinct inputs takes exactly their worth out of the database. */
  lemma {:induction false} TotalSpend(l: Db, b: Block, l': Db, ins: seq<OutPoint>, n: nat)
    requires n <= |ins| && Distinct(ins)
    requires forall op | op in ins :: op in l' && l'[op].out.value == ValueOf(l, b, op)
    ensures Total(l' - Elements(ins[..n])) + InSum(l, b, ins, n) == Total(l')
  {
    hide ValueOf, Total;
    if n == 0 {
      assert l' - Elements(ins[..n]) == l';
    } else {
      TotalSpend(l, b, l', ins, n - 1);
      var rest := l' - Elements(ins[..n - 1]);
      TotalRemove(rest, ins[n - 1]);
      assert rest - {ins[n - 1]} == l' - Elements(ins[..n]);
    }
  }

  ghost function OutsTo(tx: Tx, height: nat, n: nat): Db
    requires n <= |tx.outs|
  {
    map op | op in OutSet(tx) && op.index < n :: Entry(tx.outs[op.index], height)
  }

  lemma OutsToStep(tx: Tx, height: nat, n: nat)
    requires 0 < n <= |tx.outs|
    ensures OutsTo(tx, height, n) ==
              if tx.outs[n - 1].script.OpReturn? then OutsTo(tx, height, n - 1)
              else OutsTo(tx, height, n - 1)[OutPoint(tx.hash, n - 1) := Entry(tx.outs[n - 1], height)]
    ensures OutPoint(tx.hash, n - 1) !in OutsTo(tx, height, n - 1)
    ensures OutsTo(tx, height, |tx.outs|) == Outs(tx, height)
    ensures !tx.outs[n - 1].script.OpReturn? ==> OutPoint(tx.hash, n - 1) in OutSet(tx)
  {
    var op := OutPoint(tx.hash, n - 1);
    assert op in OutSet(tx) <==> !tx.outs[n - 1].script.OpReturn?;
    assert forall o | o in OutSet(tx) && o.index == n - 1 :: o == op;
  }

  /** Adding outputs puts in their worth, less what goes into data outputs. */
  lemma {:induction false} TotalAdd(l: Db, tx: Tx, height: nat, n: nat)
    requires n <= |tx.outs| && forall op | op in OutSet(tx) :: op !in l
    ensures Total(l + OutsTo(tx, height, n)) + DataSum(tx, n) == Total(l) + OutSum(tx, n)
  {
    hide OutSet, Total;
    if n == 0 {
      assert l + OutsTo(tx, height, n) == l;
    } else {
      hide OutsTo;
      TotalAdd(l, tx, height, n - 1);
      OutsToStep(tx, height, n);
      var made := OutsTo(tx, height, n - 1);
      if !tx.outs[n - 1].script.OpReturn? {
        var op, e := OutPoint(tx.hash, n - 1), Entry(tx.outs[n - 1], height);
        TotalInsert(l + made, op, e);
        assert l + made[op := e] == (l + made)[op := e];
      }
    }
  }

  lemma OutsAll(tx: Tx, height: nat)
    ensures OutsTo(tx, height, |tx.outs|) == Outs(tx, height)
  {
  }

  /** One transaction of a valid block moves its inputs' worth into its outputs, its data and its fee. */
  lemma TotalStep(l: Db, index: TxIndex, b: Block, n: nat)
    requires ValidBlock(l, index, b) && Indexed(l, index) && n < |b.txs|
    ensures Total(RunTo(l, b, n + 1)) + TxIn(l, b, b.txs[n]) + DataSum(b.txs[n], |b.txs[n].outs|) ==
            Total(RunTo(l, b, n)) + TxOutTotal(b.txs[n])
  {
    hide ValidBlock, Indexed, Total, Outs, OutSet;
    var tx, before := b.txs[n], RunTo(l, b, n);
    assert Total(before - InSet(tx)) + TxIn(l, b, tx) == Total(before) by {
      TotalInputs(l, index, b, n);
    }
    NewOutputs(l, index, b, n);
    TotalAdd(before - InSet(tx), tx, b.height, |tx.outs|);
    OutsAll(tx, b.height);
  }

  lemma TotalInputs(l: Db, index: TxIndex, b: Block, n: nat)
    requires ValidBlock(l, index, b) && Indexed(l, index) && n < |b.txs|
    ensures Total(RunTo(l, b, n) - InSet(b.txs[n])) + TxIn(l, b, b.txs[n]) == Total(RunTo(l, b, n))
  {
    hide Indexed, Total, RunTo, Funded, ValueOf;
    var tx, before := b.txs[n], RunTo(l, b, n);
    if IsCoinBase(tx) || IsInternalContract(tx) {
      assert before - InSet(tx) == before;
    } else {
      forall op | op in tx.ins ensures op in before && before[op].out.value == ValueOf(l, b, op) {
        assert Spends(tx, op);
        InputWorth(l, index, b, n, op);
      }
      TotalSpend(l, b, before, tx.ins, |tx.ins|);
      assert tx.ins[..|tx.ins|] == tx.ins;
    }
  }

  lemma InputWorth(l: Db, index: TxIndex, b: Block, n: nat, op: OutPoint)
    requires ValidBlock(l, index, b) && Indexed(l, index) && n < |b.txs| && Spends(b.txs[n], op)
    ensures op in RunTo(l, b, n) && RunTo(l, b, n)[op].out.value == ValueOf(l, b, op)
  {
    hide ValidBlock, Indexed, RunTo;
    InputsPresent(l, index, b, n, op);
    RunAt(l, index, b, n, op);
    if !CreatedBy(b, |b.txs|, op) && CreatedBy(b, n, op) {
      CreatedHash(b, n, op);
    }
  }

  lemma NewOutputs(l: Db, index: TxIndex, b: Block, n: nat)
    requires ValidBlock(l, index, b) && Indexed(l, index) && n < |b.txs|
    ensures forall op | op in OutSet(b.txs[n]) :: op !in RunTo(l, b, n) - InSet(b.txs[n])
  {
    hide Indexed, RunTo, Funded, NoDoubleSpend;
    forall op | op in OutSet(b.txs[n]) ensures op !in RunTo(l, b, n) {
      assert Creates(b.txs[n], op);
      CreatedIsNew(l, index, b, op);
      RunAt(l, index, b, n, op);
    }
  }

  /** Over the whole block: what is left is what was there, less the surplus and the data outputs. */
  lemma {:induction false} TotalRun(l: Db, index: TxIndex, b: Block, n: nat)
    requires ValidBlock(l, index, b) && Indexed(l, index) && n <= |b.txs|
    ensures Total(RunTo(l, b, n)) + BlockData(b, n) == Total(l) - Surplus(l, b, n)
  {
    hide ValidBlock, Indexed, Total, TxIn, TxOutTotal, DataSum, RunTo;
    if n == 0 {
      RunNone(l, b);
    } else {
      TotalRun(l, index, b, n - 1);
      TotalStep(l, index, b, n - 1);
    }
  }

  lemma RunNone(l: Db, b: Block)
    ensures RunTo(l, b, 0) == l
  {
  }

  // ---- The checks ----

  function FeeOf(tx: Tx): nat {
    TRANSFER_FEE + ExtraFee(tx)
  }

  predicate Unfunded(tx: Tx) {
    IsCoinBase(tx) || IsInternalContract(tx)
  }

  ghost function FeeSum(b: Block, n: nat): nat
    requires n <= |b.txs|
  {
    if n == 0 then 0 else FeeSum(b, n - 1) + if Unfunded(b.txs[n - 1]) then 0 else FeeOf(b.txs[n - 1])
  }

  /** Amounts are 64-bit words. */
  predicate WordSized(outs: seq<TxOut>) {
    forall k | 0 <= k < |outs| :: outs[k].value < TWO_64
  }

  /** The wrapping sum of the outputs is checked exactly. */
  method ValidateOutputs(tx: Tx) returns (ok: bool)
    requires WordSized(tx.outs)
    ensures ok <==> TxOutTotal(tx) <= TOTAL_SUPPLY
  {
    var totalValue := 0;
    for k := 0 to |tx.outs|
      invariant totalValue == OutSum(tx, k) <= TOTAL_SUPPLY
    {
      OutSumGrows(tx, k + 1, |tx.outs|);
      var value := tx.outs[k].value;
      if value > TOTAL_SUPPLY { return false; }
      totalValue := (totalValue + value) % TWO_64;
      if totalValue < value { return false; }
      if totalValue > TOTAL_SUPPLY { return false; }
    }
    ok := true;
  }

  lemma {:induction false} OutSumGrows(tx: Tx, m: nat, n: nat)
    requires m <= n <= |tx.outs|
    ensures OutSum(tx, m) <= OutSum(tx, n)
  {
    if m < n {
      OutSumGrows(tx, m, n - 1);
    }
  }

  function Worth(m: UtxoMap, op: OutPoint): nat {
    if op in m then m[op].entry.out.value else 0
  }

  ghost function Amount(m: UtxoMap, ins: seq<OutPoint>, n: nat): nat
    requires n <= |ins|
  {
    if n == 0 then 0 else Amount(m, ins, n - 1) + Worth(m, ins[n - 1])
  }

  ghost predicate Covered(m: UtxoMap, tx: Tx) {
    (forall op | op in tx.ins :: op in m && !m[op].spent) &&
    Amount(m, tx.ins, |tx.ins|) <= TOTAL_SUPPLY && TxOutTotal(tx) <= Amount(m, tx.ins, |tx.ins|)
  }

  /** The fee of a transaction: what its inputs exceed its outputs by. */
  method ValidateTxInputs(m: UtxoMap, tx: Tx) returns (fee: Option<nat>)
    requires TxOutTotal(tx) <= TOTAL_SUPPLY
    ensures Unfunded(tx) ==> fee == Some(0)
    ensures !Unfunded(tx) ==>
              fee == if Covered(m, tx) then Some(Amount(m, tx.ins, |tx.ins|) - TxOutTotal(tx)) else None
  {
    if Unfunded(tx) { return Some(0); }
    var totalInputAmount := 0;
    for k := 0 to |tx.ins|
      invariant totalInputAmount == Amount(m, tx.ins, k) <= TOTAL_SUPPLY
      invariant forall op | op in tx.ins[..k] :: op in m && !m[op].spent
    {
      AmountGrows(m, tx.ins, k + 1, |tx.ins|);
      var op := tx.ins[k];
      if op !in m || m[op].spent { return None; }
      var utxoAmount := m[op].entry.out.value;
      if utxoAmount > TOTAL_SUPPLY { return None; }
      var lastAmount := totalInputAmount;
      totalInputAmount := (totalInputAmount + utxoAmount) % TWO_64;
      if totalInputAmount < lastAmount || totalInputAmount > TOTAL_SUPPLY { return None; }
    }
    var totalOutputAmount := 0;
    for k := 0 to |tx.outs|
      invariant totalOutputAmount == OutSum(tx, k)
    {
      OutSumGrows(tx, k + 1, |tx.outs|);
      totalOutputAmount := (totalOutputAmount + tx.outs[k].value) % TWO_64;
    }
    if totalInputAmount < totalOutputAmount { return None; }
    fee := Some(totalInputAmount - totalOutputAmount);
  }

  lemma {:induction false} AmountGrows(m: UtxoMap, ins: seq<OutPoint>, i: nat, n: nat)
    requires i <= n <= |ins|
    ensures Amount(m, ins, i) <= Amount(m, ins, n)
  {
    if i < n {
      AmountGrows(m, ins, i, n - 1);
    }
  }

  /** A transaction pays the fixed fee for its size. */
  ghost predicate PaysFee(m: UtxoMap, tx: Tx) {
    Unfunded(tx) || (Covered(m, tx) && Amount(m, tx.ins, |tx.ins|) == TxOutTotal(tx) + FeeOf(tx))
  }

  method ValidateBlockInputs(m: UtxoMap, b: Block) returns (totalFees: Option<nat>)
    requires forall i | 0 <= i < |b.txs| :: TxOutTotal(b.txs[i]) <= TOTAL_SUPPLY
    ensures totalFees.Some? <==> (forall i | 0 <= i < |b.txs| :: PaysFee(m, b.txs[i])) && FeeSum(b, |b.txs|) < TWO_64
    ensures totalFees.Some? ==> totalFees.value == FeeSum(b, |b.txs|)
  {
    hide TxOutTotal, Amount, ExtraFee;
    var total := 0;
    for i := 0 to |b.txs|
      invariant total == FeeSum(b, i) < TWO_64
      invariant forall k | 0 <= k < i :: PaysFee(m, b.txs[k])
    {
      FeeSumGrows(b, i + 1, |b.txs|);
      var tx := b.txs[i];
      if !Unfunded(tx) {
        var txFee := ValidateTxInputs(m, tx);
        if txFee == None { return None; }
        if txFee.value != FeeOf(tx) { return None; }
        AmountBound(m, tx);
        var sum := AddChecked(total, txFee.value);
        if sum == None { return None; }
        total := sum.value;
      }
    }
    totalFees := Some(total);
  }

  /** A 64-bit addition that notices when it wraps. */
  method AddChecked(last: nat, amount: nat) returns (r: Option<nat>)
    requires last < TWO_64 && amount < TWO_64
    ensures r == if last + amount < TWO_64 then Some(last + amount) else None
  {
    var sum := (last + amount) % TWO_64;
    if sum < last { return None; }
    r := Some(sum);
  }

  lemma AmountBound(m: UtxoMap, tx: Tx)
    requires Covered(m, tx)
    ensures Amount(m, tx.ins, |tx.ins|) - TxOutTotal(tx) < TWO_64
  {
  }

  lemma {:induction false} FeeSumGrows(b: Block, m: nat, n: nat)
    requires m <= n <= |b.txs|
    ensures FeeSum(b, m) <= FeeSum(b, n)
  {
    if m < n {
      FeeSumGrows(b, m, n - 1);
    }
  }

  /** The coinbase pays the reward and the fees, modulo 64 bits. */
  method CheckCoinbase(tx: Tx, reward: nat, fees: nat) returns (ok: bool)
    requires TxOutTotal(tx) <= TOTAL_SUPPLY
    ensures ok <==> TxOutTotal(tx) == (reward + fees) % TWO_64
  {
    var totalCoinbaseOutput := 0;
    for k := 0 to |tx.outs|
      invariant totalCoinbaseOutput == OutSum(tx, k)
    {
      OutSumGrows(tx, k + 1, |tx.outs|);
      totalCoinbaseOutput := (totalCoinbaseOutput + tx.outs[k].value) % TWO_64;
    }
    ok := totalCoinbaseOutput == (reward + fees) % TWO_64;
  }

  // ---- Conservation ----

  /** The amounts of a block as the checks require them. */
  ghost predicate Balanced(l: Db, b: Block, reward: nat) {
    |b.txs| > 0 && FeeSum(b, |b.txs|) < TWO_64 &&
    TxOutTotal(b.txs[0]) == (reward + FeeSum(b, |b.txs|)) % TWO_64 &&
    forall i | 0 < i < |b.txs| :: Pays(l, b, i)
  }

  ghost predicate Pays(l: Db, b: Block, i: nat)
    requires i < |b.txs|
  {
    TxIn(l, b, b.txs[i]) == TxOutTotal(b.txs[i]) + FeeOf(b.txs[i]) <= TOTAL_SUPPLY
  }

  lemma {:induction false} SurplusIsFees(l: Db, index: TxIndex, b: Block, reward: nat, n: nat)
    requires WellFormed(index, b) && Balanced(l, b, reward) && n <= |b.txs|
    ensures Surplus(l, b, n) == FeeSum(b, n) - if n == 0 then 0 else TxOutTotal(b.txs[0])
  {
    if n > 1 {
      hide TxIn, TxOutTotal, ExtraFee, DistinctHashes, NoDoubleSpend, NoSelfSpend, Fresh;
      SurplusIsFees(l, index, b, reward, n - 1);
      assert Ordinary(b.txs[n - 1]) && Pays(l, b, n - 1);
    }
  }

  /** The total of unspent outputs grows by the reward, less what went into data outputs, exactly
      when reward and fees fit 64 bits. */
  lemma Conservation(l: Db, index: TxIndex, b: Block, reward: nat)
    requires ValidBlock(l, index, b) && Indexed(l, index) && Balanced(l, b, reward)
    ensures Total(Run(l, b)) + BlockData(b, |b.txs|) == Total(l) + reward <==> reward + FeeSum(b, |b.txs|) < TWO_64
  {
    hide Indexed, Total, RunTo, TxIn, TxOutTotal, WellFormed, Funded, Pays, FeeSum, BlockData;
    TotalRun(l, index, b, |b.txs|);
    SurplusIsFees(l, index, b, reward, |b.txs|);
    if reward + FeeSum(b, |b.txs|) < TWO_64 {
      assert (reward + FeeSum(b, |b.txs|)) % TWO_64 == reward + FeeSum(b, |b.txs|);
    } else {
      assert (reward + FeeSum(b, |b.txs|)) % TWO_64 < reward + FeeSum(b, |b.txs|);
    }
  }

  /** What a transaction takes of the size limit at least. */
  function RoughSize(tx: Tx): nat {
    16 + 40 * |tx.ins| + 8 * |tx.outs|
  }

  ghost function RoughSum(b: Block, n: nat): nat
    requires n <= |b.txs|
  {
    if n == 0 then 0 else RoughSum(b, n - 1) + RoughSize(b.txs[n - 1])
  }

  lemma {:induction false} FeesBySize(b: Block, n: nat)
    requires n <= |b.txs|
    ensures 16 * FeeSum(b, n) <= TRANSFER_FEE * RoughSum(b, n)
  {
    if n > 0 {
      FeesBySize(b, n - 1);
      FeeBySize(b.txs[n - 1]);
      MulSplit(RoughSum(b, n - 1), RoughSize(b.txs[n - 1]));
    }
  }

  lemma MulSplit(x: nat, y: nat)
    ensures TRANSFER_FEE * (x + y) == TRANSFER_FEE * x + TRANSFER_FEE * y
  {
  }

  lemma FeeBySize(tx: Tx)
    ensures 16 * FeeOf(tx) <= TRANSFER_FEE * RoughSize(tx)
  {
    var n := |tx.ins| + |tx.outs|;
    assert 16 * (n / 16) <= n;
  }

  /** The size limit keeps every block inside 64 bits, so value is conserved. */
  lemma ConservationWithinLimits(l: Db, index: TxIndex, b: Block, reward: nat)
    requires ValidBlock(l, index, b) && Indexed(l, index) && Balanced(l, b, reward)
    requires RoughSum(b, |b.txs|) <= MAX_TXS_ROUGH_SIZE && reward < TWO_63
    ensures Total(Run(l, b)) + BlockData(b, |b.txs|) == Total(l) + reward
  {
    hide ValidBlock, Indexed, Balanced, Total, Run, BlockData, FeeSum, RoughSum;
    Conservation(l, index, b, reward);
    FeesBySize(b, |b.txs|);
  }

  // ---- The checks and the application together ----

  ghost predicate Accepted(l: Db, b: Block, reward: nat) {
    Funded(l, b) && Balanced(l, b, reward) && forall i | 0 <= i < |b.txs| :: Readable(b.txs[i])
  }

  /** The amounts read from the loaded set are those of the ledger. */
  lemma {:induction false} AmountIsInSum(l: Db, b: Block, m: UtxoMap, ins: seq<OutPoint>, n: nat)
    requires n <= |ins| && forall op | op in ins :: Worth(m, op) == ValueOf(l, b, op)
    ensures Amount(m, ins, n) == InSum(l, b, ins, n)
  {
    hide Worth, ValueOf;
    if n > 0 {
      AmountIsInSum(l, b, m, ins, n - 1);
    }
  }

  /** Finding every input in the loaded set is being funded. */
  lemma FoundIsFunded(l: Db, b: Block)
    requires Shaped(b)
    requires forall i, op | 0 <= i < |b.txs| && Spends(b.txs[i], op) :: Loaded(true, l, b, op).Some?
    ensures Funded(l, b)
  {
    hide NoDoubleSpend;
    forall i, op | 0 <= i < |b.txs| && Spends(b.txs[i], op) ensures op in l || CreatedBy(b, i, op) {
      assert Loaded(true, l, b, op).Some?;
      if op !in l {
        SpenderUnique(b, i, op);
        var j :| 0 <= j < |b.txs| && Creates(b.txs[j], op);
        assert op.hash in Hashes(b, i + 1);
        var k :| 0 <= k < i + 1 && b.txs[k].hash == op.hash;
        assert k == j;
      }
    }
  }

  ghost predicate IsLoaded(m: UtxoMap, l: Db, b: Block) {
    forall op :: At(m, op) == Loaded(true, l, b, op)
  }

  lemma LoadedInputs(l: Db, index: TxIndex, b: Block, m: UtxoMap, i: nat)
    requires ValidBlock(l, index, b) && Indexed(l, index) && IsLoaded(m, l, b) && 0 < i < |b.txs|
    ensures !Unfunded(b.txs[i])
    ensures forall op | op in b.txs[i].ins :: op in m && !m[op].spent
    ensures Amount(m, b.txs[i].ins, |b.txs[i].ins|) == TxIn(l, b, b.txs[i])
  {
    hide Indexed, Funded, Loaded, Fresh, NoDoubleSpend, NoSelfSpend, DistinctHashes;
    var tx := b.txs[i];
    assert Ordinary(tx);
    forall op | op in tx.ins ensures op in m && !m[op].spent && Worth(m, op) == ValueOf(l, b, op) {
      assert Spends(tx, op) && At(m, op) == Loaded(true, l, b, op);
      LoadedValid(true, l, index, b, op);
    }
    AmountIsInSum(l, b, m, tx.ins, |tx.ins|);
  }

  /** The checks on the loaded set are the ledger's own conditions. */
  lemma ChecksMean(l: Db, index: TxIndex, b: Block, m: UtxoMap)
    requires Shaped(b) && (Funded(l, b) ==> Fresh(index, b)) && Indexed(l, index) && IsLoaded(m, l, b)
    ensures (forall i | 0 <= i < |b.txs| :: PaysFee(m, b.txs[i])) <==>
            Funded(l, b) && forall i | 0 < i < |b.txs| :: Pays(l, b, i)
  {
    hide Indexed, Loaded, Funded, TxIn, TxOutTotal, Amount, FeeOf, DistinctHashes, NoDoubleSpend, NoSelfSpend, Fresh;
    if forall i | 0 <= i < |b.txs| :: PaysFee(m, b.txs[i]) {
      forall i, op | 0 <= i < |b.txs| && Spends(b.txs[i], op) ensures Loaded(true, l, b, op).Some? {
        assert PaysFee(m, b.txs[i]) && At(m, op) == Loaded(true, l, b, op);
      }
      FoundIsFunded(l, b);
    }
    if Funded(l, b) {
      forall i | 0 < i < |b.txs| ensures PaysFee(m, b.txs[i]) <==> Pays(l, b, i) {
        LoadedInputs(l, index, b, m, i);
      }
    }
  }

  /** Load, check, apply and write: a block is accepted exactly when the ledger's conditions hold, and
      the database becomes the ledger after the block. */
  method ExecuteBlock(l: Db, index: TxIndex, b: Block, reward: nat) returns (r: Option<Db>)
    requires Shaped(b) && (Funded(l, b) ==> Fresh(index, b)) && Indexed(l, index) && Payable(l)
    requires forall i | 0 <= i < |b.txs| :: TxOutTotal(b.txs[i]) <= TOTAL_SUPPLY
    ensures r.Some? <==> Accepted(l, b, reward)
    ensures r.Some? ==> r.value == Run(l, b) && Payable(r.value)
  {
    hide Indexed, Loaded, Funded, Run, TxOutTotal, FeeSum, Payable, NoDoubleSpend, NoSelfSpend, Fresh, Pays, PaysFee;
    var utxoSet := new UtxoSet();
    utxoSet.LoadBlockUtxos(b, true, l);
    ghost var m := utxoSet.utxoMap;
    ChecksMean(l, index, b, m);
    var fees := ValidateBlockInputs(utxoSet.utxoMap, b);
    if fees == None { return None; }
    var ok := utxoSet.ApplyBlock(b);
    if !ok { return None; }
    ok := CheckCoinbase(b.txs[0], reward, fees.value);
    if !ok { return None; }
    ApplyAndWrite(l, index, b, utxoSet.utxoMap);
    r := utxoSet.WriteUtxoSetToDB(l);
    SameDb(r.value, Run(l, b));
    RunPayable(l, index, b);
  }
}
