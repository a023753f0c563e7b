/** Contract ABI types and values, and what `core/abi` says about their layout. */
module AbiTypes {
  import opened BigEndian

  /** The types `NewType` can build. `bits` is the declared width of an integer type. */
  datatype Type =
    | IntTy(signed: bool, bits: nat)
    | BoolTy
    | AddressTy
    | FixedBytesTy(width: nat)
    | FunctionTy
    | StringTy
    | BytesTy
    | SliceTy(elem: Type)
    | ArrayTy(elem: Type, size: nat)
    | TupleTy(elems: seq<Type>)

  /** A Go value as reflection sees it. Addresses, strings and byte strings are `BytesVal`;
      slices, arrays and structs are `ListVal`. */
  datatype Value =
    | IntVal(n: int)
    | BoolVal(b: bool)
    | BytesVal(bytes: seq<byte>)
    | ListVal(items: seq<Value>)

  /** Bytes the Go integer kind occupies; every width but 8, 16, 32, 64 is a `big.Int`. */
  function KindBytes(bits: nat): (k: nat)
    ensures 1 <= k <= 32
  {
    if bits == 8 then 1 else if bits == 16 then 2 else if bits == 32 then 4
    else if bits == 64 then 8 else 32
  }

  /** `n` is a value of a `k`-byte two's complement or unsigned integer. */
  predicate InRange(signed: bool, k: nat, n: int) {
    if signed then 0 <= 2 * n + Pow256(k) < 2 * Pow256(k) else 0 <= n < Pow256(k)
  }

  predicate RequiresLengthPrefix(t: Type) {
    t.StringTy? || t.BytesTy? || t.SliceTy?
  }

  predicate IsDynamic(t: Type)
    decreases t
  {
    match t
    case TupleTy(es) => exists i | 0 <= i < |es| :: IsDynamic(es[i])
    case ArrayTy(e, _) => IsDynamic(e)
    case _ => t.StringTy? || t.BytesTy? || t.SliceTy?
  }

  /** `getTypeSize`: an array whose element is not itself an array counts 32 bytes per element. */
  function TypeSize(t: Type): (size: nat)
    decreases t, 1
  {
    if t.ArrayTy? && !IsDynamic(t.elem) then
      if t.elem.ArrayTy? then t.size * TypeSize(t.elem) else t.size * 32
    else if t.TupleTy? && !IsDynamic(t) then SumSizes(t.elems)
    else 32
  }

  function SumSizes(ts: seq<Type>): (size: nat)
    decreases ts, 0
  {
    if ts == [] then 0 else TypeSize(ts[0]) + SumSizes(ts[1..])
  }

  /** The bytes a static type really takes in an encoding; 32 for the reference of a dynamic one. */
  function RealSize(t: Type): (size: nat)
    decreases t, 1
  {
    if t.ArrayTy? && !IsDynamic(t) then t.size * RealSize(t.elem)
    else if t.TupleTy? && !IsDynamic(t) then SumRealSizes(t.elems)
    else if t.FixedBytesTy? && t.width > 32 then t.width
    else 32
  }

  function SumRealSizes(ts: seq<Type>): (size: nat)
    decreases ts, 0
  {
    if ts == [] then 0 else RealSize(ts[0]) + SumRealSizes(ts[1..])
  }

  /** No zero-length arrays in place, no empty tuples, and fixed byte strings of at most a word. */
  predicate Positive(t: Type)
    decreases t
  {
    match t
    case ArrayTy(e, n) => (0 < n || IsDynamic(e)) && Positive(e)
    case SliceTy(e) => Positive(e)
    case TupleTy(es) => es != [] && forall i | 0 <= i < |es| :: Positive(es[i])
    case FixedBytesTy(n) => n <= 32
    case _ => true
  }

  /** A static tuple occupying a single word: one field, itself of one word. */
  predicate OneWord(t: Type)
    decreases t
  {
    match t
    case TupleTy(es) => |es| == 1 && OneWord(es[0])
    case ArrayTy(e, n) => n == 1 && OneWord(e)
    case _ => true
  }

  /** Within the in-place part of `t`, every fixed array of static tuples is one of one-word tuples. */
  predicate Flat(t: Type)
    decreases t
  {
    if IsDynamic(t) then true
    else match t
      case ArrayTy(e, _) => if e.TupleTy? then OneWord(e) else Flat(e)
      case TupleTy(es) => forall i | 0 <= i < |es| :: Flat(es[i])
      case _ => true
  }

  /** `getTypeSize` gives what the type really takes. */
  predicate Measured(t: Type) {
    TypeSize(t) == RealSize(t)
  }

  /** Each item of the list starts where the sizes before it say, and so do the tails: only the last item
      may be counted short, and only where there are no tails. */
  predicate Aligned(ts: seq<Type>) {
    (forall i | 0 <= i < |ts| - 1 :: Measured(ts[i])) &&
    (ts == [] || Measured(ts[|ts| - 1]) || forall i | 0 <= i < |ts| :: !IsDynamic(ts[i]))
  }

  /** The lists within the type are aligned, below references too. */
  predicate Laid(t: Type)
    decreases t
  {
    match t
    case ArrayTy(e, n) => n == 0 || (Laid(e) && (n == 1 || Measured(e)))
    case SliceTy(e) => Laid(e) && Measured(e)
    case TupleTy(es) => (forall i | 0 <= i < |es| :: Laid(es[i])) && Aligned(es)
    case _ => true
  }

  predicate LaidAll(ts: seq<Type>) {
    Aligned(ts) && forall i | 0 <= i < |ts| :: Laid(ts[i])
  }

  lemma RepeatLaid(t: Type, n: nat)
    requires n == 0 || (Laid(t) && (n == 1 || Measured(t)))
    ensures LaidAll(Repeat(t, n))
  {
    hide Laid;
    if n == 1 && !Measured(t) {
      assert !IsDynamic(Repeat(t, n)[0]);
    }
  }

  function Repeat<T>(x: T, n: nat): (s: seq<T>)
    ensures |s| == n && forall i | 0 <= i < n :: s[i] == x
  {
    seq(n, _ => x)
  }

  lemma {:induction false} RealSizePositive(t: Type)
    requires Positive(t)
    ensures 32 <= RealSize(t)
    ensures !IsDynamic(t) ==> (RealSize(t) == 32 <==> OneWord(t))
    decreases t, 1
  {
    if t.ArrayTy? && !IsDynamic(t) {
      RealSizePositive(t.elem);
      if t.size > 1 { MulGap(RealSize(t.elem), 1, t.size); }
    } else if t.TupleTy? && !IsDynamic(t) {
      SumRealPositive(t.elems);
      RealSizePositive(t.elems[0]);
    }
  }

  lemma {:induction false} SumRealPositive(ts: seq<Type>)
    requires forall i | 0 <= i < |ts| :: Positive(ts[i])
    ensures 32 * |ts| <= SumRealSizes(ts)
    decreases ts, 0
  {
    if ts != [] {
      RealSizePositive(ts[0]);
      SumRealPositive(ts[1..]);
    }
  }

  /** `getTypeSize` never counts too much, and it counts right exactly on `Flat` types. */
  lemma {:induction false} TypeSizeLaw(t: Type)
    requires Positive(t)
    ensures TypeSize(t) <= RealSize(t)
    ensures Measured(t) <==> Flat(t)
    decreases t, 1
  {
    if t.ArrayTy? && !IsDynamic(t) {
      RealSizePositive(t.elem);
      if t.elem.ArrayTy? {
        TypeSizeLaw(t.elem);
        MulOrder(t.size, TypeSize(t.elem), RealSize(t.elem));
      } else {
        MulOrder(t.size, 32, RealSize(t.elem));
      }
    } else if t.TupleTy? && !IsDynamic(t) {
      TupleLaw(t);
    }
  }

  lemma TupleLaw(t: Type)
    requires Positive(t) && t.TupleTy? && !IsDynamic(t)
    ensures TypeSize(t) <= RealSize(t)
    ensures Measured(t) <==> Flat(t)
    decreases t, 0, |t.elems| + 1
  {
    hide Positive, Measured;
    PartsPositive(t);
    SumSizesLaw(t.elems);
    assert Measured(t) <==> SumSizes(t.elems) == SumRealSizes(t.elems) by { TupleMeasured(t); }
  }

  lemma TupleMeasured(t: Type)
    requires t.TupleTy? && !IsDynamic(t)
    ensures Measured(t) <==> SumSizes(t.elems) == SumRealSizes(t.elems)
  {
  }

  lemma PartsPositive(t: Type)
    requires Positive(t) && t.TupleTy?
    ensures forall i | 0 <= i < |t.elems| :: Positive(t.elems[i])
  {
  }

  lemma {:induction false} SumSizesLaw(ts: seq<Type>)
    requires forall i | 0 <= i < |ts| :: Positive(ts[i])
    ensures SumSizes(ts) <= SumRealSizes(ts)
    ensures SumSizes(ts) == SumRealSizes(ts) <==> forall i | 0 <= i < |ts| :: Measured(ts[i])
    ensures forall i | 0 <= i < |ts| :: Measured(ts[i]) <==> Flat(ts[i])
    decreases ts, 0
  {
    hide Positive, Flat, TypeSize, RealSize;
    if ts != [] {
      TypeSizeLaw(ts[0]);
      SumSizesLaw(ts[1..]);
      assert forall i | 0 <= i < |ts[1..]| :: ts[1..][i] == ts[i + 1];
      assert forall i | 1 <= i < |ts| :: ts[i] == ts[1..][i - 1];
    }
  }

  /** A dynamic type has a head of one word, its reference. */
  lemma DynamicHead(t: Type)
    requires IsDynamic(t)
    ensures TypeSize(t) == 32 && RealSize(t) == 32 && Measured(t)
  {
  }

  lemma {:induction false} MeasuredSums(ts: seq<Type>)
    requires forall i | 0 <= i < |ts| :: Measured(ts[i])
    ensures SumSizes(ts) == SumRealSizes(ts)
  {
    hide TypeSize, RealSize;
    if ts != [] {
      assert Measured(ts[0]);
      MeasuredSums(ts[1..]);
    }
  }

  lemma MulOrder(n: nat, a: nat, b: nat)
    requires 0 < n && a <= b
    ensures n * a <= n * b
    ensures n * a == n * b <==> a == b
  {
    if a < b { MulGap(n, a, b); }
  }

  /** Sizes are whole words, so the decoder's division by 32 loses nothing. */
  lemma {:induction false} TypeSizeWords(t: Type)
    ensures TypeSize(t) % 32 == 0
    decreases t, 1
  {
    if t.ArrayTy? && !IsDynamic(t.elem) {
      if t.elem.ArrayTy? {
        TypeSizeWords(t.elem);
        WordsTimes(t.size, TypeSize(t.elem));
      }
    } else if t.TupleTy? && !IsDynamic(t) {
      SumSizesWords(t.elems);
    }
  }

  lemma {:induction false} SumSizesWords(ts: seq<Type>)
    ensures SumSizes(ts) % 32 == 0
    decreases ts, 0
  {
    if ts != [] {
      TypeSizeWords(ts[0]);
      SumSizesWords(ts[1..]);
      WordsAdd(TypeSize(ts[0]), SumSizes(ts[1..]));
    }
  }

  lemma WordsTimes(n: nat, a: nat)
    requires a % 32 == 0
    ensures n * a % 32 == 0
  {
    var w := a / 32;
    assert n * (32 * w) == 32 * (n * w);
  }

  lemma WordsAdd(a: nat, b: nat)
    requires a % 32 == 0 && b % 32 == 0
    ensures (a + b) % 32 == 0
  {
  }

  lemma {:induction false} SumSizesRepeat(t: Type, n: nat)
    ensures SumSizes(Repeat(t, n)) == n * TypeSize(t)
    decreases n
  {
    if n > 0 {
      assert Repeat(t, n)[1..] == Repeat(t, n - 1);
      SumSizesRepeat(t, n - 1);
      assert n * TypeSize(t) == (n - 1) * TypeSize(t) + TypeSize(t);
    }
  }

  lemma {:induction false} SumRealRepeat(t: Type, n: nat)
    ensures SumRealSizes(Repeat(t, n)) == n * RealSize(t)
    decreases n
  {
    if n > 0 {
      assert Repeat(t, n)[1..] == Repeat(t, n - 1);
      SumRealRepeat(t, n - 1);
      assert n * RealSize(t) == (n - 1) * RealSize(t) + RealSize(t);
    }
  }
}
