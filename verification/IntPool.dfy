/** `vm/intpool.go`, `vm/stack.go` and the arithmetic of `vm/instructions.go`: integers updated in place. */
module IntPool {
  import opened BigEndian
  import opened Collections
  import opened Words

  const POOL_LIMIT: nat := 256

  datatype Arith =
    | Add | Sub | Mul | Div | SDiv | Mod | SMod | Exp | SignExtend | Lt | Gt | Slt | Sgt | Eq | And | Or | Xor
    | ByteOf | Shl | Shr | Sar | Not | IsZero | AddMod | MulMod

  function Arity(op: Arith): nat {
    if op.Not? || op.IsZero? then 1 else if op.AddMod? || op.MulMod? then 3 else 2
  }

  function Flag(b: bool): nat {
    if b then 1 else 0
  }

  // ---- The pure machine ----

  type word = x: int | 0 <= x < TWO_256

  function BitOf(op: Arith, x: nat, y: nat): nat {
    Flag(if op.And? then x == 1 && y == 1 else if op.Or? then x == 1 || y == 1 else x != y)
  }

  /** Combines the low n bits of two numbers. */
  function Bits(op: Arith, x: nat, y: nat, n: nat): nat {
    if n == 0 then 0 else BitOf(op, x % 2, y % 2) + 2 * Bits(op, x / 2, y / 2, n - 1)
  }

  lemma {:induction false} BitsBound(op: Arith, x: nat, y: nat, n: nat)
    ensures Bits(op, x, y, n) < Pow2(n)
  {
    if n > 0 {
      BitsBound(op, x / 2, y / 2, n - 1);
    }
  }

  function Bitwise(op: Arith, x: word, y: word): word {
    BitsBound(op, x, y, 256);
    Pow2At256();
    Bits(op, x, y, 256)
  }

  function Unary(op: Arith, x: word): word
    requires Arity(op) == 1
  {
    if op.Not? then TWO_256 - 1 - x else Flag(x == 0)
  }

  /** The result for the top item x and the item y below it. */
  function Binary(op: Arith, x: word, y: word): word
    requires Arity(op) == 2
  {
    match op
    case Add => U256(x + y)
    case Sub => U256(x - y)
    case Mul => U256(x * y)
    case Div => if y == 0 then 0 else Quotient(x, y)
    case SDiv => if y == 0 then 0 else U256(Quot(S256(x), S256(y)))
    case Mod => if y == 0 then 0 else x % y
    case SMod => if y == 0 then 0 else U256(Rem(S256(x), S256(y)))
    case Exp => U256(Pow(x, y))
    case SignExtend => if x < 31 then U256(SignedLow(y, 8 * x + 8)) else y
    case Lt => Flag(x < y)
    case Gt => Flag(x > y)
    case Slt => Flag(S256(x) < S256(y))
    case Sgt => Flag(S256(x) > S256(y))
    case Eq => Flag(x == y)
    case And | Or | Xor => Bitwise(op, x, y)
    case ByteOf => ByteAt(y, x)
    case Shl => U256(y * Pow2(x))
    case Shr => Quotient(y, Pow2(x))
    case Sar => U256(S256(y) / Pow2(x))
  }

  function Quotient(x: word, y: nat): word
    requires y > 0
  {
    QuotientBound(x, y);
    x / y
  }

  lemma QuotientBound(x: nat, y: nat)
    requires y > 0
    ensures 0 <= x / y <= x
  {
    DivMod(x, y);
    if x / y > x {
      MulGap1(y, x / y);
    }
  }

  lemma MulGap1(y: nat, q: nat)
    requires y > 0
    ensures y * q >= q
  {
  }

  function Ternary(op: Arith, x: word, y: word, z: word): word
    requires Arity(op) == 3
  {
    if z == 0 then 0 else if op.AddMod? then (x + y) % z else (x * y) % z
  }

  /** What an instruction does to a stack, top last. */
  function Eval(op: Arith, s: seq<word>): seq<word>
    requires Arity(op) <= |s|
  {
    var n := |s|;
    if Arity(op) == 1 then s[..n - 1] + [Unary(op, s[n - 1])]
    else if Arity(op) == 2 then s[..n - 2] + [Binary(op, s[n - 1], s[n - 2])]
    else s[..n - 3] + [Ternary(op, s[n - 1], s[n - 2], s[n - 3])]
  }

  // ---- The objects ----

  class BigInt {
    var v: int

    constructor (v: int)
      ensures this.v == v
    {
      this.v := v;
    }
  }

  /** No object is held twice, on stacks or in the pool. */
  ghost predicate Separate(pool: seq<BigInt>, live: seq<BigInt>) {
    Distinct(pool) && Distinct(live) && forall i | 0 <= i < |live| :: live[i] !in pool
  }

  ghost predicate AllWords(s: seq<BigInt>)
    reads s
  {
    forall i | 0 <= i < |s| :: 0 <= s[i].v < TWO_256
  }

  /** The numbers on a stack. */
  ghost function Values(s: seq<BigInt>): (r: seq<word>)
    requires AllWords(s)
    reads s
    ensures |r| == |s| && forall i | 0 <= i < |s| :: r[i] == s[i].v
  {
    if s == [] then [] else Values(s[..|s| - 1]) + [s[|s| - 1].v]
  }

  /** The integers on a stack show these numbers. */
  ghost predicate Shows(s: seq<BigInt>, t: seq<word>)
    reads s
  {
    |s| == |t| && forall i | 0 <= i < |s| :: s[i].v == t[i]
  }

  lemma ShowsValues(s: seq<BigInt>, t: seq<word>)
    requires Shows(s, t)
    ensures AllWords(s) && Values(s) == t
  {
    hide Values;
  }

  lemma ValuesShow(s: seq<BigInt>)
    requires AllWords(s)
    ensures Shows(s, Values(s))
  {
    hide Values;
  }

  /** Each frame's stack starts at or above its caller's. */
  ghost predicate Nested(bases: seq<nat>, base: nat) {
    (forall i, j | 0 <= i < j < |bases| :: bases[i] <= bases[j]) && forall i | 0 <= i < |bases| :: bases[i] <= base
  }

  /** The stacks of all running frames share one pool. The stack of the innermost frame is the part of
      `live` from `base` on; below it are the stacks of its callers, with the arguments of their calls. */
  class Interpreter {
    var pool: seq<BigInt>
    var live: seq<BigInt>
    var base: nat
    var bases: seq<nat>

    ghost predicate Valid()
      reads this, live
    {
      Separate(pool, live) && AllWords(live) && base <= |live| && Nested(bases, base)
    }

    /** Takes an integer from the pool; its value is arbitrary. */
    method Get() returns (x: BigInt)
      requires Separate(pool, live)
      modifies `pool
      ensures Separate(pool, live) && x !in pool && x !in live
      ensures x in old(pool) || fresh(x)
      ensures forall y | y in pool :: y in old(pool)
    {
      if |pool| > 0 {
        x := pool[|pool| - 1];
        pool := pool[..|pool| - 1];
      } else {
        x := new BigInt(0);
      }
    }

    /** Returns an integer to the pool unless the pool is full. */
    method Put(x: BigInt)
      requires Separate(pool, live) && x !in pool && x !in live
      modifies `pool
      ensures Separate(pool, live)
      ensures pool == old(pool) || pool == old(pool) + [x]
    {
      if |pool| > POOL_LIMIT { return; }
      pool := pool + [x];
    }

    method Pop() returns (x: BigInt)
      requires Separate(pool, live) && base < |live|
      modifies `live
      ensures Separate(pool, live) && x !in live && x !in pool
      ensures x == old(live)[|old(live)| - 1] && live == old(live)[..|old(live)| - 1]
    {
      x := live[|live| - 1];
      live := live[..|live| - 1];
    }

    /** Pops the integer that shows the last of the numbers. */
    method Take(ghost t: seq<word>) returns (x: BigInt)
      requires Separate(pool, live) && base < |live| && Shows(live, t)
      modifies `live
      ensures Separate(pool, live) && x !in live && x !in pool && Shows(live, t[..|t| - 1]) && x.v == t[|t| - 1]
      ensures x == old(live)[|old(live)| - 1] && live == old(live)[..|old(live)| - 1]
    {
      hide Separate;
      x := Pop();
    }

    /** Pushes an integer that shows a number. */
    method Give(x: BigInt, ghost t: seq<word>, ghost r: word)
      requires Separate(pool, live) && x !in pool && x !in live && Shows(live, t) && x.v == r
      modifies `live
      ensures Separate(pool, live) && Shows(live, t + [r]) && live == old(live) + [x]
    {
      hide Separate;
      Push(x);
    }

    method Push(x: BigInt)
      requires Separate(pool, live) && x !in pool && x !in live
      modifies `live
      ensures Separate(pool, live) && live == old(live) + [x]
    {
      live := live + [x];
    }

    /** One integer is popped and the one below it takes the result. */
    method Below(op: Arith)
      requires Valid() && base + 2 <= |live| && IsBelow(op)
      modifies this, live
      ensures Valid() && base == old(base) && bases == old(bases)
      ensures Values(live) == Eval(op, old(Values(live)))
    {
      hide Binary, Values, Separate, IsBelow, Eval, Arity;
      ghost var s := Values(live);
      Apart(pool, live);
      Kinds(op);
      assert Eval(op, s) == s[..|s| - 2] + [Binary(op, s[|s| - 1], s[|s| - 2])] by { EvalBinary(op, s); }
      var x := Pop();
      var y := live[|live| - 1];
      Compute(op, x, y);
      Put(x);
      Replaced(live, s, 2, Binary(op, s[|s| - 1], s[|s| - 2]));
    }

    /** Two integers are popped and the first takes the result. */
    method Top(op: Arith)
      requires Valid() && base + 2 <= |live| && IsTop(op)
      modifies this, live
      ensures Valid() && base == old(base) && bases == old(bases)
      ensures Values(live) == Eval(op, old(Values(live)))
    {
      hide Binary, Values, Separate, IsTop, Eval, Arity, Shows, AllWords;
      ghost var s, n := Values(live), |live|;
      ValuesShow(live);
      Apart(pool, live);
      Kinds(op);
      EvalBinary(op, s);
      var x := Take(s);
      var y := Take(s[..n - 1]);
      ComputeTop(op, x, y);
      Give(x, s[..n - 1][..n - 2], Binary(op, s[n - 1], s[n - 2]));
      Put(y);
      Finish2(live, s, Binary(op, s[n - 1], s[n - 2]));
    }

    /** One integer is updated where it stands. */
    method InPlace(op: Arith)
      requires Valid() && base + 1 <= |live| && Arity(op) == 1
      modifies this, live
      ensures Valid() && base == old(base) && bases == old(bases)
      ensures Values(live) == Eval(op, old(Values(live)))
    {
      hide Values, Separate;
      ghost var s := Values(live);
      Apart(pool, live);
      var x := live[|live| - 1];
      if op.Not? {
        x.v := -x.v - 1;
        x.v := U256(x.v);
      } else if x.v > 0 {
        x.v := 0;
      } else {
        x.v := 1;
      }
      Replaced(live, s, 1, Unary(op, s[|s| - 1]));
    }

    /** Three integers are popped and the first takes the result. */
    method Modular(op: Arith)
      requires Valid() && base + 3 <= |live| && Arity(op) == 3
      modifies this, live
      ensures Valid() && base == old(base) && bases == old(bases)
      ensures Values(live) == Eval(op, old(Values(live)))
    {
      hide Values, Separate, Ternary, Eval, Arity, Shows, AllWords;
      ghost var s, n := Values(live), |live|;
      ValuesShow(live);
      Apart(pool, live);
      EvalTernary(op, s);
      var x := Take(s);
      var y := Take(s[..n - 1]);
      var z := Take(s[..n - 1][..n - 2]);
      ComputeModular(op, x, y, z);
      Give(x, s[..n - 1][..n - 2][..n - 3], Ternary(op, s[n - 1], s[n - 2], s[n - 3]));
      Put(y);
      Put(z);
      Finish3(live, s, Ternary(op, s[n - 1], s[n - 2], s[n - 3]));
    }

    /** Pops a word as a signed integer: the same object, or a new one where the sign bit is set. */
    method TakeSigned(ghost t: seq<word>) returns (x: BigInt)
      requires Separate(pool, live) && base < |live| && Shows(live, t)
      modifies `live
      ensures Separate(pool, live) && live == old(live)[..|old(live)| - 1] && Shows(live, t[..|t| - 1])
      ensures x !in live && x !in pool && x.v == S256(t[|t| - 1])
      ensures x == old(live)[|old(live)| - 1] || fresh(x)
    {
      hide Separate, S256;
      ghost var w: word := t[|t| - 1];
      x := Take(t);
      x := SignedOf(x);
    }

    /** Two integers are read as signed ones, which may be new objects; the result is an integer of the
        pool. */
    method Signed(op: Arith)
      requires Valid() && base + 2 <= |live| && (op.SDiv? || op.SMod?)
      modifies this, live, pool
      ensures Valid() && base == old(base) && bases == old(bases)
      ensures Values(live) == Eval(op, old(Values(live)))
    {
      hide Values, Separate, Binary, Eval, Arity, S256, Shows, AllWords;
      ghost var s, n := Values(live), |live|;
      ValuesShow(live);
      EvalBinary(op, s);
      Apart(pool, live);
      var x := TakeSigned(s);
      var y := TakeSigned(s[..n - 1]);
      SignedResult(op, x, y, s[n - 1], s[n - 2], s[..n - 1][..n - 2]);
      Finish2(live, s, Binary(op, s[n - 1], s[n - 2]));
    }

    method SignedResult(op: Arith, x: BigInt, y: BigInt, ghost a: word, ghost b: word, ghost t: seq<word>)
      requires Separate(pool, live) && Shows(live, t) && (op.SDiv? || op.SMod?)
      requires x != y && x !in live && x !in pool && y !in live && y !in pool && x.v == S256(a) && y.v == S256(b)
      modifies `pool, `live, pool, x, y
      ensures Separate(pool, live) && Shows(live, t + [Binary(op, a, b)]) && |live| == |old(live)| + 1
    {
      hide Separate, Binary, S256, Shows;
      Apart(pool, live);
      var res := Get();
      res.v := 0;
      ComputeSigned(op, x, y, res, a, b);
      Give(res, t, Binary(op, a, b));
      Put(x);
      Put(y);
    }

    /** Small cases reuse the base; otherwise the result is new and the base goes to the pool. */
    method ExpOp()
      requires Valid() && base + 2 <= |live|
      modifies this, live
      ensures Valid() && base == old(base) && bases == old(bases)
      ensures Values(live) == Eval(Exp, old(Values(live)))
    {
      hide Values, Separate, Binary, Eval, Arity, Shows, AllWords;
      ghost var s, n := Values(live), |live|;
      ValuesShow(live);
      EvalBinary(Exp, s);
      Apart(pool, live);
      var b := Take(s);
      var exponent := Take(s[..n - 1]);
      var result := Raise(b, exponent);
      Give(result, s[..n - 1][..n - 2], Binary(Exp, s[n - 1], s[n - 2]));
      if result != b {
        Put(b);
      }
      Put(exponent);
      Finish2(live, s, Binary(Exp, s[n - 1], s[n - 2]));
    }

    /** The integer that held the position serves as the mask. */
    method SignExtendOp()
      requires Valid() && base + 2 <= |live|
      modifies this, live
      ensures Valid() && base == old(base) && bases == old(bases)
      ensures Values(live) == Eval(SignExtend, old(Values(live)))
    {
      hide Values, Separate, Binary, Eval, Arity, Shows, AllWords;
      ghost var s, n := Values(live), |live|;
      ValuesShow(live);
      EvalBinary(SignExtend, s);
      Apart(pool, live);
      var back := Take(s);
      if back.v < 31 {
        var num := Take(s[..n - 1]);
        Extend(back, num);
        Give(num, s[..n - 1][..n - 2], Binary(SignExtend, s[n - 1], s[n - 2]));
      } else {
        Unextended(s[n - 1], s[n - 2]);
        assert s[..n - 1] == s[..n - 1][..n - 2] + [s[n - 2]];
      }
      Put(back);
      Finish2(live, s, Binary(SignExtend, s[n - 1], s[n - 2]));
    }

    /** An arithmetic shift of a word read as signed. */
    method SarOp()
      requires Valid() && base + 2 <= |live|
      modifies this, live
      ensures Valid() && base == old(base) && bases == old(bases)
      ensures Values(live) == Eval(Sar, old(Values(live)))
    {
      hide Values, Separate, Binary, Eval, Arity, S256, Shows, AllWords;
      ghost var s, n := Values(live), |live|;
      ValuesShow(live);
      EvalBinary(Sar, s);
      Apart(pool, live);
      var shift := Take(s);
      var value := TakeSigned(s[..n - 1]);
      ShiftSigned(shift, value, s[n - 2]);
      Give(value, s[..n - 1][..n - 2], Binary(Sar, s[n - 1], s[n - 2]));
      Put(shift);
      Finish2(live, s, Binary(Sar, s[n - 1], s[n - 2]));
    }

    /** The arithmetic instructions compute what the pure machine computes, in every frame. */
    method Execute(op: Arith)
      requires Valid() && base + Arity(op) <= |live|
      modifies this, live, pool
      ensures Valid() && base == old(base) && bases == old(bases)
      ensures Values(live) == Eval(op, old(Values(live)))
    {
      hide Values, Separate, Eval;
      if Arity(op) == 1 {
        InPlace(op);
      } else if Arity(op) == 3 {
        Modular(op);
      } else if op.SDiv? || op.SMod? {
        Signed(op);
      } else if op.Exp? {
        ExpOp();
      } else if op.SignExtend? {
        SignExtendOp();
      } else if op.Sar? {
        SarOp();
      } else if IsTop(op) {
        Top(op);
      } else {
        Below(op);
      }
    }

    method Drop()
      requires Valid() && base < |live|
      modifies this
      ensures Valid() && base == old(base) && bases == old(bases)
      ensures Values(live) == old(Values(live))[..|old(live)| - 1]
    {
      hide Values, Separate;
      Apart(pool, live);
      var x := Pop();
      Put(x);
    }

    /** Pushes a number, in an integer of the pool. */
    method PushValue(v: word)
      requires Valid()
      modifies this, pool
      ensures Valid() && base == old(base) && bases == old(bases)
      ensures Values(live) == old(Values(live)) + [v]
    {
      hide Values, Separate;
      ghost var s := Values(live);
      Apart(pool, live);
      var x := Get();
      x.v := v;
      Push(x);
      assert Values(live) == s + [v];
    }

    /** Copies the n-th number from the top; the copy is another integer. */
    method Dup(n: nat)
      requires Valid() && 1 <= n && base + n <= |live|
      modifies this, pool
      ensures Valid() && base == old(base) && bases == old(bases)
      ensures Values(live) == old(Values(live)) + [old(Values(live))[|old(live)| - n]]
    {
      hide Values, Separate;
      PushValue(live[|live| - n].v);
    }

    /** Exchanges the top with the n-th item from it, without touching the integers. */
    method Swap(n: nat)
      requires Valid() && 2 <= n && base + n <= |live|
      modifies `live
      ensures Valid() && base == old(base) && bases == old(bases)
      ensures var s := old(Values(live));
              Values(live) == s[|s| - n := s[|s| - 1]][|s| - 1 := s[|s| - n]]
    {
      hide Values;
      var top, i := |live| - 1, |live| - n;
      ghost var s := Values(live);
      live := live[i := live[top]][top := live[i]];
      assert Values(live) == s[i := s[top]][top := s[i]];
    }

    /** A nested run starts with an empty stack of its own. */
    method Enter()
      requires Valid()
      modifies `base, `bases
      ensures Valid() && base == |live| && bases == old(bases) + [old(base)]
    {
      bases := bases + [base];
      base := |live|;
    }

    /** A call returns its gas argument to the pool before the nested run; the other arguments stay
        with the caller until the result is there. */
    method EnterCall()
      requires Valid() && base < |live|
      modifies this
      ensures Valid() && base == |live| && bases == old(bases) + [old(base)]
      ensures Values(live) == old(Values(live))[..|old(live)| - 1]
    {
      hide Values, Separate;
      Drop();
      Enter();
    }

    /** A finished run gives its integers to the pool, and its caller's stack is as it was. */
    method Leave()
      requires Valid() && |bases| > 0
      modifies this
      ensures Valid() && base == old(bases)[|old(bases)| - 1] && bases == old(bases)[..|old(bases)| - 1]
      ensures live == old(live)[..old(base)] && Values(live) == old(Values(live))[..old(base)]
    {
      hide Values, Separate;
      var items := live[base..];
      CutOff(pool, live, base);
      live := live[..base];
      PutAll(items);
      base := bases[|bases| - 1];
      bases := bases[..|bases| - 1];
    }

    /** The arguments a finished call still holds are replaced by its result, and go to the pool. */
    method CallResult(n: nat, v: word)
      requires Valid() && base + n <= |live|
      modifies this, pool
      ensures Valid() && base == old(base) && bases == old(bases)
      ensures Values(live) == old(Values(live))[..|old(live)| - n] + [v]
    {
      hide Values, Separate;
      ghost var s := Values(live);
      var k := |live| - n;
      var args := live[k..];
      CutOff(pool, live, k);
      live := live[..k];
      var res := Get();
      res.v := v;
      Push(res);
      MayPut(pool, live, args);
      PutAll(args);
      assert Values(live) == s[..k] + [v];
    }

    method PutAll(items: seq<BigInt>)
      requires Separate(pool, live) && Separate(pool + items, live)
      modifies `pool
      ensures Separate(pool, live) && (pool == old(pool) || pool == old(pool) + items)
    {
      hide Separate;
      if |pool| > POOL_LIMIT { return; }
      ghost var before := pool;
      for i := 0 to |items|
        invariant pool == before + items[..i]
      {
        pool := pool + [items[i]];
      }
      assert items[..|items|] == items;
    }
  }

  /** The upper part of the stacks may go to the pool. */
  lemma CutOff(pool: seq<BigInt>, live: seq<BigInt>, k: nat)
    requires Separate(pool, live) && k <= |live|
    ensures Separate(pool, live[..k]) && Separate(pool + live[k..], live[..k])
    ensures Distinct(live[k..]) && forall x | x in live[k..] :: x !in pool && x !in live[..k]
  {
  }

  lemma MayPut(pool: seq<BigInt>, live: seq<BigInt>, items: seq<BigInt>)
    requires Separate(pool, live) && Distinct(items) && forall x | x in items :: x !in pool && x !in live
    ensures Separate(pool + items, live)
  {
    var all := pool + items;
    forall i, j | 0 <= i < j < |all| ensures all[i] != all[j] {
      var n := |pool|;
      if j < n {
        assert pool[i] != pool[j];
      } else if i < n {
        assert pool[i] in pool && items[j - n] in items;
      } else {
        assert items[i - n] != items[j - n];
      }
    }
  }

  lemma Unextended(x: word, y: word)
    requires x >= 31
    ensures Binary(SignExtend, x, y) == y
  {
  }

  method Raise(b: BigInt, exponent: BigInt) returns (result: BigInt)
    requires b != exponent && 0 <= b.v < TWO_256 && 0 <= exponent.v < TWO_256
    modifies b
    ensures result == b || fresh(result)
    ensures 0 <= result.v < TWO_256 && result.v == Binary(Exp, old(b.v), exponent.v)
  {
    hide U256, Pow;
    PowCases(b.v, exponent.v);
    if exponent.v < 1 {
      b.v := 1;
      return b;
    }
    if b.v == 0 {
      b.v := 0;
      return b;
    }
    if exponent.v == 1 { return b; }
    result := MathExp(b, exponent);
  }

  method ShiftSigned(shift: BigInt, value: BigInt, ghost a: word)
    requires shift != value && 0 <= shift.v < TWO_256 && value.v == S256(a)
    modifies value
    ensures 0 <= value.v < TWO_256 && value.v == Binary(Sar, shift.v, a)
  {
    hide U256, Pow2, S256;
    if shift.v >= 256 {
      ShrLarge(a, shift.v);
      value.v := if value.v >= 0 then 0 else -1;
    } else {
      value.v := value.v / Pow2(shift.v);
    }
    value.v := U256(value.v);
  }

  lemma PowCases(x: nat, n: nat)
    requires x < TWO_256
    ensures n == 0 ==> U256(Pow(x, n)) == 1
    ensures x == 0 && n > 0 ==> U256(Pow(x, n)) == 0
    ensures n == 1 ==> U256(Pow(x, n)) == x
  {
    if n == 1 {
      assert Pow(x, 1) == x * Pow(x, 0) == x;
    }
  }

  /** Sets or clears the bits of a number from the sign bit on; the position's integer becomes the mask. */
  method Extend(back: BigInt, num: BigInt)
    requires back != num && 0 <= back.v < 31 && 0 <= num.v < TWO_256
    modifies back, num
    ensures 0 <= num.v < TWO_256 && num.v == Binary(SignExtend, old(back.v), old(num.v))
  {
    hide U256, Pow2, SignedLow;
    var bit := back.v * 8 + 7;
    SignExtension(num.v, bit);
    var sign := num.v / Pow2(bit) % 2;
    back.v := Pow2(bit);
    back.v := back.v - 1;
    if sign > 0 {
      back.v := -back.v - 1;
      num.v := num.v % Pow2(bit) + back.v;
    } else {
      num.v := num.v % Pow2(bit);
    }
    num.v := U256(num.v);
  }

  /** A word as a signed integer: the same object, or a new one where the sign bit is set. */
  method SignedOf(x: BigInt) returns (r: BigInt)
    requires 0 <= x.v < TWO_256
    ensures r.v == S256(x.v) && (r == x || fresh(r))
  {
    if x.v < TWO_255 { return x; }
    r := new BigInt(x.v - TWO_256);
  }

  method ComputeSigned(op: Arith, x: BigInt, y: BigInt, res: BigInt, ghost a: word, ghost b: word)
    requires x != y && x != res && y != res && res.v == 0 && (op.SDiv? || op.SMod?)
    requires x.v == S256(a) && y.v == S256(b)
    modifies x, y, res
    ensures 0 <= res.v < TWO_256 && res.v == Binary(op, a, b)
  {
    hide U256;
    if op.SDiv? {
      if y.v == 0 || x.v == 0 {
        ZeroQuot(a, b);
        return;
      }
      var negative := (x.v < 0) != (y.v < 0);
      x.v := Abs(x.v);
      y.v := Abs(y.v);
      res.v := x.v / y.v;
      if negative {
        res.v := -res.v;
      }
    } else {
      if y.v == 0 {
        return;
      }
      var negative := x.v < 0;
      x.v := Abs(x.v);
      y.v := Abs(y.v);
      res.v := x.v % y.v;
      if negative {
        res.v := -res.v;
      }
    }
    res.v := U256(res.v);
  }

  lemma ZeroQuot(a: word, b: word)
    requires a == 0 || b == 0
    ensures Binary(SDiv, a, b) == 0
  {
  }

  method ComputeModular(op: Arith, x: BigInt, y: BigInt, z: BigInt)
    requires x != y && x != z && 0 <= x.v < TWO_256 && 0 <= y.v < TWO_256 && 0 <= z.v < TWO_256 && Arity(op) == 3
    modifies x
    ensures 0 <= x.v < TWO_256 && x.v == Ternary(op, old(x.v), y.v, z.v)
  {
    hide U256, Ternary;
    TernaryLaw(op, x.v, y.v, z.v);
    if z.v > 0 {
      if op.AddMod? {
        x.v := x.v + y.v;
      } else {
        x.v := x.v * y.v;
      }
      Reduced(x.v, z.v);
      x.v := x.v % z.v;
      x.v := U256(x.v);
    } else {
      x.v := 0;
    }
  }

  /** A remainder of a word is a word. */
  lemma Reduced(n: int, z: word)
    requires z > 0
    ensures 0 <= n % z < z && U256(n % z) == n % z
  {
    SmallWord(n % z);
  }

  lemma TernaryLaw(op: Arith, x: word, y: word, z: word)
    requires Arity(op) == 3
    ensures z == 0 ==> Ternary(op, x, y, z) == 0
    ensures z > 0 && op.AddMod? ==> Ternary(op, x, y, z) == (x + y) % z
    ensures z > 0 && !op.AddMod? ==> Ternary(op, x, y, z) == (x * y) % z
  {
  }

  lemma EvalTernary(op: Arith, s: seq<word>)
    requires Arity(op) == 3 && |s| >= 3
    ensures Eval(op, s) == s[..|s| - 3] + [Ternary(op, s[|s| - 1], s[|s| - 2], s[|s| - 3])]
  {
  }

  lemma Apart(pool: seq<BigInt>, live: seq<BigInt>)
    requires Separate(pool, live)
    ensures forall i, j | 0 <= i < j < |live| :: live[i] != live[j]
    ensures forall i | 0 <= i < |live| :: live[i] !in pool
  {
  }

  lemma Kinds(op: Arith)
    ensures IsTop(op) || IsBelow(op) ==> !op.Not? && !op.IsZero? && !op.AddMod? && !op.MulMod? && Arity(op) == 2
  {
  }

  lemma EvalBinary(op: Arith, s: seq<word>)
    requires !op.Not? && !op.IsZero? && !op.AddMod? && !op.MulMod? && |s| >= 2
    ensures Arity(op) == 2 && Eval(op, s) == s[..|s| - 2] + [Binary(op, s[|s| - 1], s[|s| - 2])]
  {
  }

  lemma Finish2(live: seq<BigInt>, s: seq<word>, r: word)
    requires |s| >= 2 && Shows(live, s[..|s| - 1][..|s| - 2] + [r])
    ensures AllWords(live) && Values(live) == s[..|s| - 2] + [r]
  {
    hide Values, Shows;
    assert s[..|s| - 1][..|s| - 2] == s[..|s| - 2];
    ShowsValues(live, s[..|s| - 2] + [r]);
  }

  lemma Finish3(live: seq<BigInt>, s: seq<word>, r: word)
    requires |s| >= 3 && Shows(live, s[..|s| - 1][..|s| - 2][..|s| - 3] + [r])
    ensures AllWords(live) && Values(live) == s[..|s| - 3] + [r]
  {
    hide Values, Shows;
    assert s[..|s| - 1][..|s| - 2][..|s| - 3] == s[..|s| - 3];
    ShowsValues(live, s[..|s| - 3] + [r]);
  }

  /** The top k numbers have been replaced by one. */
  lemma Replaced(live: seq<BigInt>, s: seq<word>, k: nat, r: word)
    requires AllWords(live) && 1 <= k <= |s| && |live| == |s| - k + 1
    requires forall i | 0 <= i < |live| - 1 :: live[i].v == s[i]
    requires live[|live| - 1].v == r
    ensures Values(live) == s[..|s| - k] + [r]
  {
    hide Values;
  }

  method ComputeTop(op: Arith, x: BigInt, y: BigInt)
    requires x != y && 0 <= x.v < TWO_256 && 0 <= y.v < TWO_256 && IsTop(op)
    modifies x
    ensures 0 <= x.v < TWO_256 && x.v == Binary(op, old(x.v), y.v)
  {
    if op.Mul? {
      x.v := x.v * y.v;
      x.v := U256(x.v);
    } else if op.And? {
      x.v := Bitwise(And, x.v, y.v);
    } else if y.v == 0 {
      x.v := 0;
    } else {
      x.v := x.v % y.v;
      x.v := U256(x.v);
    }
  }

  predicate IsTop(op: Arith) {
    op.Mul? || op.Mod? || op.And?
  }

  predicate IsBelow(op: Arith) {
    op.Add? || op.Sub? || op.Div? || op.Lt? || op.Gt? || op.Slt? || op.Sgt? || op.Eq? || op.Or? || op.Xor? ||
    op.ByteOf? || op.Shl? || op.Shr?
  }

  /** Computes a result into the second operand. */
  method Compute(op: Arith, x: BigInt, y: BigInt)
    requires x != y && 0 <= x.v < TWO_256 && 0 <= y.v < TWO_256 && IsBelow(op)
    modifies y
    ensures 0 <= y.v < TWO_256 && y.v == Binary(op, x.v, old(y.v))
  {
    if op.Add? || op.Sub? || op.Div? {
      ComputeArith(op, x, y);
    } else if op.Lt? || op.Gt? || op.Slt? || op.Sgt? || op.Eq? {
      ComputeCompare(op, x, y);
    } else {
      ComputeBits(op, x, y);
    }
  }

  method ComputeArith(op: Arith, x: BigInt, y: BigInt)
    requires x != y && 0 <= x.v < TWO_256 && 0 <= y.v < TWO_256 && (op.Add? || op.Sub? || op.Div?)
    modifies y
    ensures y.v == Binary(op, x.v, old(y.v))
  {
    hide U256, Binary, Quotient;
    ArithLaw(op, x.v, y.v);
    if op.Add? {
      y.v := x.v + y.v;
      y.v := U256(y.v);
    } else if op.Sub? {
      y.v := x.v - y.v;
      y.v := U256(y.v);
    } else if y.v != 0 {
      y.v := x.v / y.v;
      y.v := U256(y.v);
    } else {
      y.v := 0;
    }
  }

  lemma ArithLaw(op: Arith, x: word, y: word)
    requires op.Add? || op.Sub? || op.Div?
    ensures op.Add? ==> Binary(op, x, y) == U256(x + y)
    ensures op.Sub? ==> Binary(op, x, y) == U256(x - y)
    ensures op.Div? && y == 0 ==> Binary(op, x, y) == 0
    ensures op.Div? && y != 0 ==> Binary(op, x, y) == U256(x / y)
  {
    hide U256;
    if op.Div? && y != 0 {
      QuotientBound(x, y);
      SmallWord(x / y);
    }
  }

  method ComputeCompare(op: Arith, x: BigInt, y: BigInt)
    requires x != y && 0 <= x.v < TWO_256 && 0 <= y.v < TWO_256
    requires op.Lt? || op.Gt? || op.Slt? || op.Sgt? || op.Eq?
    modifies y
    ensures y.v == Binary(op, x.v, old(y.v))
  {
    if op.Lt? {
      y.v := if x.v < y.v then 1 else 0;
    } else if op.Gt? {
      y.v := if x.v > y.v then 1 else 0;
    } else if op.Eq? {
      y.v := if x.v == y.v then 1 else 0;
    } else {
      var xHigh, yHigh := x.v >= TWO_255, y.v >= TWO_255;
      if xHigh && !yHigh {
        y.v := if op.Slt? then 1 else 0;
      } else if !xHigh && yHigh {
        y.v := if op.Slt? then 0 else 1;
      } else if op.Slt? {
        y.v := if x.v < y.v then 1 else 0;
      } else {
        y.v := if x.v > y.v then 1 else 0;
      }
    }
  }

  method ComputeBits(op: Arith, x: BigInt, y: BigInt)
    requires x != y && 0 <= x.v < TWO_256 && 0 <= y.v < TWO_256
    requires op.Or? || op.Xor? || op.ByteOf? || op.Shl? || op.Shr?
    modifies y
    ensures y.v == Binary(op, x.v, old(y.v))
  {
    if op.Or? || op.Xor? {
      hide Bitwise;
      y.v := Bitwise(op, x.v, y.v);
    } else if op.ByteOf? {
      y.v := ByteAt(y.v, x.v);
    } else {
      hide Binary;
      y.v := Shifted(op, x.v, y.v);
    }
  }

  /** The n-th byte of a word, the most significant first. */
  function ByteAt(val: word, n: nat): word {
    if n < 32 then val / Pow256(31 - n) % 256 else 0
  }

  method Shifted(op: Arith, shift: word, value: word) returns (r: word)
    requires op.Shl? || op.Shr?
    ensures r == Binary(op, shift, value)
  {
    hide Pow2, U256;
    if shift >= 256 {
      ShlLarge(value, shift);
      ShrLarge(value, shift);
      return 0;
    }
    if op.Shl? {
      return U256(value * Pow2(shift));
    }
    QuotientBound(value, Pow2(shift));
    SmallWord(value / Pow2(shift));
    return U256(value / Pow2(shift));
  }

  lemma SmallWord(x: nat)
    requires x < TWO_256
    ensures U256(x) == x
  {
  }

  // ---- Exponentiation by squaring ----

  /** The result is a new integer; the base is used up on the way. */
  method MathExp(base: BigInt, exponent: BigInt) returns (result: BigInt)
    requires base != exponent && 0 <= base.v < TWO_256 && 0 <= exponent.v < TWO_256
    modifies base
    ensures fresh(result) && result.v == U256(Pow(old(base.v), exponent.v))
  {
    hide U256, Pow, Rest;
    result := new BigInt(1);
    var bits := exponent.v;
    while bits > 0
      invariant 0 <= result.v < TWO_256 && 0 <= base.v && 0 <= bits
      invariant U256(result.v * Pow(base.v, bits)) == U256(Pow(old(base.v), old(exponent.v)))
    {
      RestFirst(bits);
      ExpWord(result, base, bits % TWO_64, bits / TWO_64);
      bits := bits / TWO_64;
    }
    PowZero(base.v);
    SmallWord(result.v);
  }

  lemma PowZero(x: nat)
    ensures Pow(x, 0) == 1
  {
  }

  /** What is left of an exponent: the rest of a word, and the words above it. */
  ghost function Rest(p: nat, high: nat, rest: nat): nat {
    p * high + rest
  }

  lemma RestStep(p: nat, high: nat, rest: nat)
    ensures Rest(2 * p, high, rest) == 2 * Rest(p, high, rest / 2) + rest % 2
  {
  }

  lemma RestLast(high: nat)
    ensures Rest(1, high, 0) == high && Pow2(0) == 1
  {
  }

  lemma RestFirst(bits: nat)
    ensures Rest(TWO_64, bits / TWO_64, bits % TWO_64) == bits
  {
  }

  /** The 64 bits of one word of the exponent. */
  method ExpWord(result: BigInt, base: BigInt, word: nat, ghost high: nat)
    requires result != base && 0 <= result.v < TWO_256 && 0 <= base.v && word < TWO_64
    modifies result, base
    ensures 0 <= result.v < TWO_256 && 0 <= base.v
    ensures U256(result.v * Pow(base.v, high)) == U256(old(result.v) * Pow(old(base.v), Rest(TWO_64, high, word)))
  {
    hide U256, Pow, Pow2, Rest;
    Pow2At64();
    var rest: nat := word;
    ghost var target := U256(result.v * Pow(base.v, Rest(TWO_64, high, word)));
    for i := 0 to 64
      invariant 0 <= result.v < TWO_256 && 0 <= base.v && rest < Pow2(64 - i)
      invariant U256(result.v * Pow(base.v, Rest(Pow2(64 - i), high, rest))) == target
    {
      Pow2Step(64 - i);
      RestStep(Pow2(63 - i), high, rest);
      ExpStep(result.v, base.v, Rest(Pow2(63 - i), high, rest / 2), rest % 2);
      if rest % 2 == 1 {
        result.v := result.v * base.v;
        result.v := U256(result.v);
      }
      base.v := base.v * base.v;
      base.v := U256(base.v);
      rest := rest / 2;
    }
    RestLast(high);
  }
}
