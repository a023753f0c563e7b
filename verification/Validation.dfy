/** `core/chain/validate.go`: the checks on a block that need no chain. */
module Validation {
  import opened BigEndian
  import opened Collections
  import opened Ledger
  import opened Supply
  import Freshness

  const MAX_VIN_IN_TX: nat := 256
  const MAX_VOUT_IN_TX: nat := 256

  predicate IsNull(op: OutPoint) {
    op == OutPoint(ZERO_HASH, MAX_UINT32)
  }

  ghost predicate TxChecked(tx: Tx) {
    0 < |tx.ins| <= MAX_VIN_IN_TX && 0 < |tx.outs| <= MAX_VOUT_IN_TX && TxOutTotal(tx) <= TOTAL_SUPPLY &&
    (Unfunded(tx) || forall op | op in tx.ins :: !IsNull(op))
  }

  ghost function SizeSum(size: Tx -> nat, b: Block, n: nat): nat
    requires n <= |b.txs|
  {
    if n == 0 then 0 else SizeSum(size, b, n - 1) + size(b.txs[n - 1])
  }

  /** One coinbase, which comes first; within the size limit; every transaction in order by itself; and no
      output named by two inputs of the block. */
  ghost predicate Checked(size: Tx -> nat, b: Block) {
    OneCoinbase(b) && SizeSum(size, b, |b.txs|) <= MAX_TXS_ROUGH_SIZE &&
    (forall i | 0 <= i < |b.txs| :: TxChecked(b.txs[i])) && NoDoubleSpend(b)
  }

  method ValidateTransactionPreliminary(tx: Tx) returns (ok: bool)
    requires WordSized(tx.outs)
    ensures ok <==> TxChecked(tx)
  {
    hide TxOutTotal;
    if |tx.ins| == 0 || |tx.outs| == 0 { return false; }
    if |tx.ins| > MAX_VIN_IN_TX || |tx.outs| > MAX_VOUT_IN_TX { return false; }
    ok := ValidateOutputs(tx);
    if !ok || Unfunded(tx) { return; }
    for k := 0 to |tx.ins|
      invariant forall op | op in tx.ins[..k] :: !IsNull(op)
    {
      if IsNull(tx.ins[k]) { return false; }
    }
  }

  // ---- The outpoints already named in a block ----

  ghost function Named(b: Block, n: nat): set<OutPoint>
    requires n <= |b.txs|
  {
    set i, op | 0 <= i < n && op in b.txs[i].ins :: op
  }

  ghost predicate Single(b: Block, n: nat)
    requires n <= |b.txs|
  {
    (forall i, j | 0 <= i < j < n :: Disjoint(b.txs[i].ins, b.txs[j].ins)) &&
    forall i | 0 <= i < n :: Distinct(b.txs[i].ins)
  }

  lemma NamedStep(b: Block, n: nat)
    requires n < |b.txs|
    ensures Named(b, n + 1) == Named(b, n) + set op | op in b.txs[n].ins
    ensures Single(b, n + 1) <==>
              Single(b, n) && Distinct(b.txs[n].ins) && forall op | op in b.txs[n].ins :: op !in Named(b, n)
  {
    hide Distinct;
    if Single(b, n + 1) {
      forall op | op in b.txs[n].ins ensures op !in Named(b, n) {
        assert forall i | 0 <= i < n :: Disjoint(b.txs[i].ins, b.txs[n].ins);
      }
    }
    if Single(b, n) && Distinct(b.txs[n].ins) && forall op | op in b.txs[n].ins :: op !in Named(b, n) {
      forall i, j | 0 <= i < j < n + 1 ensures Disjoint(b.txs[i].ins, b.txs[j].ins) {
        if j == n {
          assert forall op | op in b.txs[i].ins :: op in Named(b, n);
        }
      }
    }
  }

  lemma {:induction false} SingleLess(b: Block, m: nat, n: nat)
    requires m <= n <= |b.txs| && Single(b, n)
    ensures Single(b, m)
  {
  }

  lemma {:induction false} SizeGrows(size: Tx -> nat, b: Block, m: nat, n: nat)
    requires m <= n <= |b.txs|
    ensures SizeSum(size, b, m) <= SizeSum(size, b, n)
  {
    if m < n {
      SizeGrows(size, b, m, n - 1);
    }
  }

  /** The inner loop: every outpoint is new to those seen so far. */
  method SeeInputs(existing: set<OutPoint>, ins: seq<OutPoint>) returns (ok: bool, existing': set<OutPoint>)
    ensures ok <==> Distinct(ins) && forall op | op in ins :: op !in existing
    ensures ok ==> existing' == existing + set op | op in ins
  {
    existing' := existing;
    for k := 0 to |ins|
      invariant existing' == existing + set op | op in ins[..k]
      invariant Distinct(ins[..k]) && forall op | op in ins[..k] :: op !in existing
    {
      assert ins[..k + 1] == ins[..k] + [ins[k]];
      if ins[k] in existing' {
        Repeated(existing, ins, k);
        return false, existing';
      }
      existing' := existing' + {ins[k]};
    }
    assert ins[..|ins|] == ins;
    ok := true;
  }

  lemma Repeated(existing: set<OutPoint>, ins: seq<OutPoint>, k: nat)
    requires k < |ins| && (ins[k] in existing || ins[k] in ins[..k])
    ensures !(Distinct(ins) && forall op | op in ins :: op !in existing)
  {
    if ins[k] in ins[..k] {
      var i :| 0 <= i < k && ins[i] == ins[k];
    }
  }

  ghost predicate OneCoinbase(b: Block) {
    |b.txs| > 0 && IsCoinBase(b.txs[0]) && forall i | 0 < i < |b.txs| :: !IsCoinBase(b.txs[i])
  }

  method FirstIsCoinbase(b: Block) returns (ok: bool)
    ensures ok <==> OneCoinbase(b)
  {
    hide IsCoinBase;
    if |b.txs| == 0 { return false; }
    if !IsCoinBase(b.txs[0]) { return false; }
    for i := 1 to |b.txs|
      invariant forall k | 0 < k < i :: !IsCoinBase(b.txs[k])
    {
      if IsCoinBase(b.txs[i]) { return false; }
    }
    ok := true;
  }

  /** `validateBlock` passes exactly the checked blocks. */
  method ValidateBlock(b: Block, size: Tx -> nat) returns (ok: bool)
    requires forall i | 0 <= i < |b.txs| :: WordSized(b.txs[i].outs)
    ensures ok <==> Checked(size, b)
  {
    hide TxChecked, WordSized, Named, Single, Distinct, OneCoinbase, NoDoubleSpend;
    ok := FirstIsCoinbase(b);
    if !ok { return; }
    var existing: set<OutPoint> := {};
    var total := 0;
    NoneNamed(b);
    for i := 0 to |b.txs|
      invariant total == SizeSum(size, b, i) <= MAX_TXS_ROUGH_SIZE
      invariant existing == Named(b, i) && Single(b, i)
      invariant forall k | 0 <= k < i :: TxChecked(b.txs[k])
    {
      SizeGrows(size, b, i + 1, |b.txs|);
      NamedStep(b, i);
      SingleAll(b, i + 1);
      total := total + size(b.txs[i]);
      if total > MAX_TXS_ROUGH_SIZE { return false; }
      ok := ValidateTransactionPreliminary(b.txs[i]);
      if !ok { return false; }
      ok, existing := SeeInputs(existing, b.txs[i].ins);
      if !ok { return false; }
    }
    SingleAll(b, |b.txs|);
    ok := true;
  }

  lemma NoneNamed(b: Block)
    ensures Named(b, 0) == {} && Single(b, 0)
  {
  }

  lemma SingleAll(b: Block, m: nat)
    requires m <= |b.txs|
    ensures Single(b, |b.txs|) <==> NoDoubleSpend(b)
    ensures NoDoubleSpend(b) ==> Single(b, m)
  {
    if NoDoubleSpend(b) {
      SingleLess(b, m, |b.txs|);
    }
  }

  // ---- What the chain takes from the checks ----

  /** What block validation and collision-free hashing establish of a block. */
  ghost predicate Structured(b: Block) {
    Shaped(b) && (forall i | 0 <= i < |b.txs| :: TxChecked(b.txs[i])) && RoughSum(b, |b.txs|) <= MAX_TXS_ROUGH_SIZE
  }

  lemma {:induction false} RoughIsLess(size: Tx -> nat, b: Block, n: nat)
    requires n <= |b.txs| && forall i | 0 <= i < |b.txs| :: RoughSize(b.txs[i]) <= size(b.txs[i])
    ensures RoughSum(b, n) <= SizeSum(size, b, n)
  {
    if n > 0 {
      RoughIsLess(size, b, n - 1);
    }
  }

  /** A validated block without contract transactions is structured: equal hashes would mean equal
      transactions, and the second would name the outputs of the first again. */
  lemma ValidatedIsStructured(size: Tx -> nat, b: Block)
    requires Checked(size, b) && forall i | 0 <= i < |b.txs| :: RoughSize(b.txs[i]) <= size(b.txs[i])
    requires forall i | 0 < i < |b.txs| :: IsCoinBase(b.txs[i]) || Ordinary(b.txs[i])
    requires Freshness.Alike(b, b) && NoSelfSpend(b)
    ensures Structured(b)
  {
    hide NoDoubleSpend, NoSelfSpend, Ordinary, RoughSum, SizeSum, TxOutTotal, DistinctHashes;
    RoughIsLess(size, b, |b.txs|);
    HashesDistinct(b);
  }
}
