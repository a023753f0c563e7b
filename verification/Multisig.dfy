/** `script/stack.go` and the multi-signature branch of `execOp` in `script/script.go`. */
module Multisig {
  import opened BigEndian

  type Operand = seq<byte>

  /** `Operand.int`: the unsigned reading, if it is an `int64`. */
  function IntOf(o: Operand): (r: Option<nat>) {
    if ToNat(o) < TWO_63 then Some(ToNat(o)) else None
  }

  const TRUE: Operand := [1]
  const FALSE: Operand := [0]

  datatype Error = InvalidStackOperation | NotAnInt | SignatureVerifyFail

  // ---- which signatures are enough -----------------------------------------------------------

  /** The scan: the first key is given to the first signature if it verifies it, else passed over. */
  predicate Scan(verify: (Operand, Operand) -> bool, sigs: seq<Operand>, keys: seq<Operand>)
    decreases keys
  {
    if sigs == [] then true
    else if |sigs| > |keys| then false
    else if verify(sigs[0], keys[0]) then Scan(verify, sigs[1..], keys[1..])
    else Scan(verify, sigs, keys[1..])
  }

  /** `f` sends the signatures, in order, to keys that verify them. */
  ghost predicate Assigns(verify: (Operand, Operand) -> bool, sigs: seq<Operand>, keys: seq<Operand>, f: seq<nat>) {
    |f| == |sigs| &&
    (forall i | 0 <= i < |f| :: f[i] < |keys| && verify(sigs[i], keys[f[i]])) &&
    forall i, j | 0 <= i < j < |f| :: f[i] < f[j]
  }

  /** What is left to assign after the first key. */
  function Left(verify: (Operand, Operand) -> bool, sigs: seq<Operand>, keys: seq<Operand>): (r: seq<Operand>)
    requires sigs != [] && keys != []
  {
    if verify(sigs[0], keys[0]) then sigs[1..] else sigs
  }

  ghost predicate Assignable(verify: (Operand, Operand) -> bool, sigs: seq<Operand>, keys: seq<Operand>) {
    exists f: seq<nat> :: Assigns(verify, sigs, keys, f)
  }

  /** The greedy scan finds an order-preserving assignment exactly when there is one. */
  lemma {:induction false} ScanLaw(verify: (Operand, Operand) -> bool, sigs: seq<Operand>, keys: seq<Operand>)
    ensures Scan(verify, sigs, keys) <==> Assignable(verify, sigs, keys)
    decreases keys
  {
    if sigs == [] {
      assert Assigns(verify, sigs, keys, []);
    } else if |sigs| > |keys| {
      forall f: seq<nat> | Assigns(verify, sigs, keys, f)
        ensures false
      {
        Spread(f, |f| - 1);
      }
    } else {
      var left := Left(verify, sigs, keys);
      ScanLaw(verify, left, keys[1..]);
      if f: seq<nat> :| Assigns(verify, left, keys[1..], f) {
        Later(verify, sigs, keys, f);
      }
      if f: seq<nat> :| Assigns(verify, sigs, keys, f) {
        Earlier(verify, sigs, keys, f);
      }
    }
  }

  /** An increasing assignment reaches at least index `i` at place `i`. */
  lemma {:induction false} Spread(f: seq<nat>, i: nat)
    requires i < |f| && forall i, j | 0 <= i < j < |f| :: f[i] < f[j]
    ensures i <= f[i]
    decreases i
  {
    if i > 0 { Spread(f, i - 1); }
  }

  ghost function Up(f: seq<nat>): (g: seq<nat>) {
    seq(|f|, i requires 0 <= i < |f| => f[i] + 1)
  }

  /** An assignment of what is left after the first key gives one of everything. */
  lemma Later(verify: (Operand, Operand) -> bool, sigs: seq<Operand>, keys: seq<Operand>, f: seq<nat>)
    requires sigs != [] && keys != []
    requires Assigns(verify, Left(verify, sigs, keys), keys[1..], f)
    ensures Assignable(verify, sigs, keys)
  {
    var up, left := Up(f), Left(verify, sigs, keys);
    forall i | 0 <= i < |up|
      ensures up[i] < |keys| && verify(left[i], keys[up[i]])
    {
      assert keys[up[i]] == keys[1..][f[i]];
    }
    if verify(sigs[0], keys[0]) {
      Consed(verify, sigs, keys, up);
    } else {
      assert Assigns(verify, sigs, keys, up);
    }
  }

  lemma Consed(verify: (Operand, Operand) -> bool, sigs: seq<Operand>, keys: seq<Operand>, up: seq<nat>)
    requires sigs != [] && keys != [] && verify(sigs[0], keys[0])
    requires Assigns(verify, sigs[1..], keys, up) && forall i | 0 <= i < |up| :: 0 < up[i]
    ensures Assignable(verify, sigs, keys)
  {
    var g: seq<nat> := [0] + up;
    forall i | 0 <= i < |g|
      ensures g[i] < |keys| && verify(sigs[i], keys[g[i]])
    {
      if i > 0 { assert sigs[i] == sigs[1..][i - 1]; }
    }
    assert Assigns(verify, sigs, keys, g);
  }

  /** Taking the first key for the first signature whenever it verifies never loses an assignment. */
  lemma Earlier(verify: (Operand, Operand) -> bool, sigs: seq<Operand>, keys: seq<Operand>, f: seq<nat>)
    requires sigs != [] && keys != [] && Assigns(verify, sigs, keys, f)
    ensures Assignable(verify, Left(verify, sigs, keys), keys[1..])
  {
    var from := if verify(sigs[0], keys[0]) then 1 else 0;
    var t := f[from..];
    forall i | 0 <= i < |t|
      ensures 1 <= t[i]
    {
      assert t[i] == f[i + from];
      if i + from > 0 { assert f[0] < f[i + from]; }
    }
    var g: seq<nat> := seq(|t|, i requires 0 <= i < |t| => t[i] - 1);
    assert forall i | 0 <= i < |g| :: keys[1..][g[i]] == keys[f[i + from]];
    assert sigs[from..] == Left(verify, sigs, keys);
    assert Assigns(verify, sigs[from..], keys[1..], g);
  }

  // ---- the stack -----------------------------------------------------------------------------

  function Top(stk: seq<Operand>, n: int): (o: Operand) {
    if n <= 0 || n > |stk| then [] else stk[|stk| - n]
  }

  /** The `n` operands from the `i`-th downwards. */
  ghost function Down(stk: seq<Operand>, i: nat, n: nat): (os: seq<Operand>) {
    seq(n, j requires 0 <= j < n => Top(stk, i + j))
  }

  /** What the operation finds: `n` keys under a count, then `m` signatures under a count. */
  ghost predicate Holds(stk: seq<Operand>, n: nat, m: nat) {
    1 <= |stk| && IntOf(Top(stk, 1)) == Some(n) && n + 2 <= |stk| && IntOf(Top(stk, n + 2)) == Some(m) &&
    m <= n && n + m + 2 <= |stk|
  }

  /** What the operation leaves. */
  ghost function Checked(verify: (Operand, Operand) -> bool, stk: seq<Operand>, n: nat, m: nat): (r: seq<Operand>)
    requires Holds(stk, n, m)
  {
    stk[..|stk| - (n + m + 2)] + [if Assignable(verify, Down(stk, n + 3, m), Down(stk, 2, n)) then TRUE else FALSE]
  }

  /** The key counts from which the index of the signature count wraps around. */
  ghost predicate Overflows(stk: seq<Operand>) {
    1 <= |stk| && TWO_63 - 2 <= ToNat(Top(stk, 1)) < TWO_63
  }

  /** A sum of two machine integers. */
  function Wrap(x: int): (w: int)
    requires 0 - TWO_63 <= x < TWO_64 + TWO_63
  {
    if x < TWO_63 then x else x - TWO_64
  }

  /** A stack that is a key count of 2^63 - 1 alone counts as verified, without a key or a signature. */
  lemma CountAloneOverflows()
    ensures var stk := [ToBytes(TWO_63 - 1, 8)];
            Overflows(stk) && forall n: nat, m: nat :: !Holds(stk, n, m)
  {
    hide ToBytes, ToNat;
    ToNatToBytes(TWO_63 - 1, 8);
    EightBytes();
  }

  lemma EightBytes()
    ensures Pow256(8) == TWO_64
  {
    assert Pow256(4) == 0x1_0000_0000;
  }

  class Stack {
    var stk: seq<Operand>

    constructor ()
      ensures stk == []
    {
      stk := [];
    }

    method Push(o: Operand)
      modifies this
      ensures stk == old(stk) + [o]
    {
      stk := stk + [o];
    }

    /** Popping an empty stack returns nil and leaves it empty. */
    method Pop() returns (o: Operand)
      modifies this
      ensures old(stk) == [] ==> stk == [] && o == []
      ensures old(stk) != [] ==> old(stk) == stk + [o]
    {
      if |stk| == 0 { return []; }
      o := stk[|stk| - 1];
      stk := stk[..|stk| - 1];
    }

    /** `topN`, counting from 1; nil when out of range. */
    function TopN(n: int): (o: Operand)
      reads this
    {
      Top(stk, n)
    }

    /** OP_CHECKMULTISIG: on success exactly the keys, the signatures and the two counts are replaced
        by whether the signatures can be assigned to the keys in order. From a key count of 2^63 - 2 on the
        index wraps: nothing is taken off the stack and the answer is true. */
    method CheckMultisig(verify: (Operand, Operand) -> bool) returns (r: Option<Error>)
      requires |stk| < TWO_63 / 2
      modifies this
      ensures r == None <==> Overflows(old(stk)) || exists n: nat, m: nat :: Holds(old(stk), n, m)
      ensures r.Some? ==> stk == old(stk)
      ensures Overflows(old(stk)) ==> stk == old(stk) + [TRUE]
      ensures forall n: nat, m: nat | Holds(old(stk), n, m) :: stk == Checked(verify, old(stk), n, m)
    {
      hide ToNat, Scan, Assignable;
      var n, m, sigIdx, i;
      r, n, m, sigIdx, i := ReadCounts();
      if r.Some? { return; }
      var verified := ScanStack(verify, n, sigIdx, m);
      ScanLaw(verify, Down(stk, n + 3, m), Down(stk, 2, n));
      PopOperands(i);
      Push(if verified then TRUE else FALSE);
    }

    /** The two counts, and the indices of the first signature and past the last one. */
    method ReadCounts() returns (r: Option<Error>, n: nat, m: nat, sigIdx: int, i: int)
      requires |stk| < TWO_63 / 2
      ensures r == None <==> Overflows(stk) || exists n: nat, m: nat :: Holds(stk, n, m)
      ensures r == None && !Overflows(stk) ==> Holds(stk, n, m) && sigIdx == n + 3 && i == n + m + 3
      ensures r == None && Overflows(stk) ==> m == 0 && i < 0
    {
      hide ToNat;
      n, m, sigIdx, i := 0, 0, 0, 0;
      if |stk| < 1 { return Some(InvalidStackOperation), n, m, sigIdx, i; }
      var pubKeyCount := IntOf(TopN(1));
      if pubKeyCount == None { return Some(NotAnInt), n, m, sigIdx, i; }
      n := pubKeyCount.value;
      i := Wrap(2 + n);
      if |stk| < i { return Some(InvalidStackOperation), n, m, sigIdx, i; }
      NilIsZero();
      var sigCount := IntOf(TopN(i));
      if sigCount == None { return Some(NotAnInt), n, m, sigIdx, i; }
      m := sigCount.value;
      if m > n { return Some(SignatureVerifyFail), n, m, sigIdx, i; }
      sigIdx := Wrap(i + 1);
      i := Wrap(sigIdx + m);
      if |stk| < i - 1 { return Some(InvalidStackOperation), n, m, sigIdx, i; }
      assert !Overflows(stk) ==> Holds(stk, n, m);
      r := None;
    }

    method PopOperands(end: int)
      requires end - 1 <= |stk|
      modifies this
      ensures stk == old(stk)[..|old(stk)| - if end > 1 then end - 1 else 0]
    {
      var i := end;
      while i > 1
        invariant end > 1 ==> 1 <= i <= end && stk == old(stk)[..|old(stk)| - (end - i)]
        invariant end <= 1 ==> i == end && stk == old(stk)
      {
        var _ := Pop();
        i := i - 1;
      }
    }

    /** The loop of the operation over stack positions. */
    method ScanStack(verify: (Operand, Operand) -> bool, n: nat, first: int, m: nat) returns (verified: bool)
      requires m <= n && (m > 0 ==> first == n + 3 && n + m + 2 <= |stk|)
      ensures verified == Scan(verify, Down(stk, n + 3, m), Down(stk, 2, n))
      ensures m == 0 ==> verified
    {
      verified := true;
      if m == 0 {
        assert Down(stk, n + 3, m) == [];
        return;
      }
      var pubKeyIdx, pubKeyCount, sigIdx, sigCount := 2, n, first, m;
      while verified && sigCount > 0
        invariant pubKeyIdx + pubKeyCount == n + 2 && sigIdx + sigCount == n + m + 3
        invariant 0 <= sigCount && 0 <= pubKeyCount && 2 <= pubKeyIdx && n + 3 <= sigIdx
        invariant verified <==> sigCount <= pubKeyCount
        invariant Scan(verify, Down(stk, n + 3, m), Down(stk, 2, n)) ==
                  Scan(verify, Down(stk, sigIdx, sigCount), Down(stk, pubKeyIdx, pubKeyCount))
        decreases pubKeyCount
      {
        var signature, pubKey := TopN(sigIdx), TopN(pubKeyIdx);
        ghost var sigs, keys := Down(stk, sigIdx, sigCount), Down(stk, pubKeyIdx, pubKeyCount);
        assert sigs[0] == signature && keys[0] == pubKey;
        assert sigs[1..] == Down(stk, sigIdx + 1, sigCount - 1) && keys[1..] == Down(stk, pubKeyIdx + 1, pubKeyCount - 1);
        if verify(signature, pubKey) {
          sigIdx, sigCount := sigIdx + 1, sigCount - 1;
        }
        pubKeyIdx, pubKeyCount := pubKeyIdx + 1, pubKeyCount - 1;
        if sigCount > pubKeyCount { verified := false; }
      }
    }
  }

  lemma NilIsZero()
    ensures ToNat([]) == 0
  {
  }
}
