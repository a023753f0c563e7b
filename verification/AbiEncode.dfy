/** The packing half of `core/abi`: what `Type.pack` and `Arguments.Pack` write. */
module AbiEncode {
  import opened BigEndian
  import opened AbiTypes

  /** `packNum`: a number as a 32-byte word, truncated to 256 bits. */
  function Word(n: int): (b: seq<byte>)
    ensures |b| == 32
  {
    ToBytes(n % Pow256(32), 32)
  }

  function Zeros(k: nat): (b: seq<byte>)
    ensures |b| == k
  {
    seq(k, _ => 0)
  }

  function RightPad(b: seq<byte>, k: nat): (r: seq<byte>)
    ensures b <= r && |r| == if k <= |b| then |b| else k
  {
    if k <= |b| then b else b + Zeros(k - |b|)
  }

  function LeftPad(b: seq<byte>, k: nat): (r: seq<byte>)
    ensures |r| == if k <= |b| then |b| else k
    ensures r[|r| - |b|..] == b
  {
    if k <= |b| then b else Zeros(k - |b|) + b
  }

  /** The values `pack` turns into bytes for type `t`. An empty list of fixed arrays is not among
      them: the type check looks at its first element and panics. Lengths are machine integers. */
  predicate Packable(t: Type, v: Value)
    decreases v
  {
    match t
    case IntTy(signed, bits) =>
      v.IntVal? && (bits in {8, 16, 32, 64} ==> InRange(signed, KindBytes(bits), v.n))
    case BoolTy => v.BoolVal?
    case AddressTy => v.BytesVal? && |v.bytes| == 20
    case FixedBytesTy(n) => v.BytesVal? && |v.bytes| == n
    case FunctionTy => v.BytesVal? && |v.bytes| == 24
    case StringTy => v.BytesVal?
    case BytesTy => v.BytesVal?
    case SliceTy(e) =>
      v.ListVal? && |v.items| < TWO_63 && (e.ArrayTy? ==> v.items != []) &&
      forall i | 0 <= i < |v.items| :: Packable(e, v.items[i])
    case ArrayTy(e, n) =>
      v.ListVal? && |v.items| == n && (e.ArrayTy? ==> v.items != []) &&
      forall i | 0 <= i < |v.items| :: Packable(e, v.items[i])
    case TupleTy(es) =>
      v.ListVal? && |v.items| == |es| &&
      forall i | 0 <= i < |v.items| :: Packable(es[i], v.items[i])
  }

  predicate IsList(t: Type) {
    t.SliceTy? || t.ArrayTy? || t.TupleTy?
  }

  /** The types of the `n` parts of a list value. */
  function PartTypes(t: Type, n: nat): (ts: seq<Type>)
    requires IsList(t)
  {
    if t.TupleTy? then t.elems else Repeat(t.elem, n)
  }

  predicate AllPackable(ts: seq<Type>, vs: seq<Value>) {
    |ts| == |vs| && forall i | 0 <= i < |vs| :: Packable(ts[i], vs[i])
  }

  /** A list item on its way into the list's layout. */
  datatype Part = Part(dyn: bool, enc: seq<byte>)

  /** The encoding of the Solidity Contract ABI Specification, "Formal Specification of the
      Encoding", with head sizes as `getTypeSize` gives them. */
  function Encode(t: Type, v: Value): (b: seq<byte>)
    requires Packable(t, v)
    decreases v, 1
  {
    match t
    case IntTy(_, _) => Word(v.n)
    case BoolTy => Word(if v.b then 1 else 0)
    case AddressTy => LeftPad(v.bytes, 32)
    case FixedBytesTy(_) => RightPad(v.bytes, 32)
    case FunctionTy => RightPad(v.bytes, 32)
    case StringTy => EncodeBytes(v.bytes)
    case BytesTy => EncodeBytes(v.bytes)
    case SliceTy(_) => Word(|v.items|) + EncodeAll(PartTypes(t, |v.items|), v.items)
    case _ => EncodeAll(PartTypes(t, |v.items|), v.items)
  }

  function EncodeBytes(b: seq<byte>): (r: seq<byte>) {
    Word(|b|) + RightPad(b, (|b| + 31) / 32 * 32)
  }

  function EncodeAll(ts: seq<Type>, vs: seq<Value>): (b: seq<byte>)
    requires AllPackable(ts, vs)
    decreases vs, 1
  {
    Heads(Parts(ts, vs), SumSizes(ts)) + Tails(Parts(ts, vs))
  }

  function Parts(ts: seq<Type>, vs: seq<Value>): (ps: seq<Part>)
    requires AllPackable(ts, vs)
    ensures |ps| == |vs|
    decreases vs, 0
  {
    seq(|vs|, i requires 0 <= i < |vs| => Part(IsDynamic(ts[i]), Encode(ts[i], vs[i])))
  }

  /** The head part when the first tail will be placed at `offset`. */
  function Heads(ps: seq<Part>, offset: nat): (b: seq<byte>) {
    if ps == [] then []
    else if ps[0].dyn then Word(offset) + Heads(ps[1..], offset + |ps[0].enc|)
    else ps[0].enc + Heads(ps[1..], offset)
  }

  function Tails(ps: seq<Part>): (b: seq<byte>) {
    if ps == [] then []
    else (if ps[0].dyn then ps[0].enc else []) + Tails(ps[1..])
  }

  lemma {:induction false} HeadsSnoc(ps: seq<Part>, p: Part, offset: nat)
    ensures Heads(ps + [p], offset) ==
            Heads(ps, offset) + if p.dyn then Word(offset + |Tails(ps)|) else p.enc
    decreases ps
  {
    hide Word;
    if ps != [] {
      var q := ps[0];
      var next := if q.dyn then offset + |q.enc| else offset;
      assert (ps + [p])[1..] == ps[1..] + [p];
      HeadsSnoc(ps[1..], p, next);
    }
  }

  lemma {:induction false} TailsSnoc(ps: seq<Part>, p: Part)
    ensures Tails(ps + [p]) == Tails(ps) + if p.dyn then p.enc else []
    decreases ps
  {
    if ps != [] {
      assert (ps + [p])[1..] == ps[1..] + [p];
      TailsSnoc(ps[1..], p);
    }
  }

  // ---- lengths -------------------------------------------------------------------------

  /** A static value takes `RealSize` bytes whatever it is. */
  lemma {:induction false} StaticLength(t: Type, v: Value)
    requires Packable(t, v) && !IsDynamic(t)
    ensures |Encode(t, v)| == RealSize(t)
    decreases v, 1
  {
    if IsList(t) {
      var ts := PartTypes(t, |v.items|);
      HeadsLength(ts, v.items, SumSizes(ts));
      StaticTails(Parts(ts, v.items));
      if t.ArrayTy? { SumRealRepeat(t.elem, t.size); }
    }
  }

  lemma {:induction false} HeadsLength(ts: seq<Type>, vs: seq<Value>, offset: nat)
    requires AllPackable(ts, vs)
    ensures |Heads(Parts(ts, vs), offset)| == SumRealSizes(ts)
    decreases vs, 0
  {
    hide Packable, Encode, IsDynamic, RealSize, Word;
    if vs != [] {
      var ps := Parts(ts, vs);
      assert ps[1..] == Parts(ts[1..], vs[1..]);
      HeadsLength(ts[1..], vs[1..], if ps[0].dyn then offset + |ps[0].enc| else offset);
      if ps[0].dyn {
        DynamicHead(ts[0]);
      } else {
        StaticLength(ts[0], vs[0]);
      }
    }
  }

  lemma {:induction false} StaticTails(ps: seq<Part>)
    requires forall i | 0 <= i < |ps| :: !ps[i].dyn
    ensures Tails(ps) == []
  {
    if ps != [] { StaticTails(ps[1..]); }
  }

  /** The head part is as long as `getTypeSize` says exactly when every type is `Measured`. */
  lemma HeadLengthLaw(ts: seq<Type>, vs: seq<Value>)
    requires AllPackable(ts, vs) && forall i | 0 <= i < |ts| :: Positive(ts[i])
    ensures |Heads(Parts(ts, vs), SumSizes(ts))| == SumSizes(ts) <==>
            forall i | 0 <= i < |ts| :: Measured(ts[i])
  {
    HeadsLength(ts, vs, SumSizes(ts));
    SumSizesLaw(ts);
  }

  // ---- the packing loops -----------------------------------------------------------------

  /** `typeCheck` with `sliceTypeCheck`; false stands for an error and for the panic. */
  predicate TypeCheck(t: Type, v: Value)
    decreases v
  {
    match t
    case SliceTy(e) => v.ListVal? && |v.items| < TWO_63 && ElemCheck(e, v)
    case ArrayTy(e, n) => v.ListVal? && |v.items| == n && ElemCheck(e, v)
    case TupleTy(es) => v.ListVal?
    case IntTy(_, bits) => Packable(t, v)
    case _ => Packable(t, v)
  }

  predicate ElemCheck(e: Type, v: Value)
    requires v.ListVal?
    decreases v, 0
  {
    if e.SliceTy? then v.items == [] || TypeCheck(e, v.items[0])
    else if e.ArrayTy? then v.items != [] && TypeCheck(e, v.items[0])
    else true
  }

  lemma {:induction false} PackableChecks(t: Type, v: Value)
    requires Packable(t, v)
    ensures TypeCheck(t, v)
    decreases v
  {
    if (t.SliceTy? || t.ArrayTy?) && v.items != [] {
      PackableChecks(t.elem, v.items[0]);
    }
  }

  lemma ListPackable(t: Type, v: Value)
    requires IsList(t) && TypeCheck(t, v)
    ensures Packable(t, v) <==> AllPackable(PartTypes(t, |v.items|), v.items)
  {
  }

  /** `Type.pack`: succeeds exactly on packable values and then returns their encoding. */
  method Pack(t: Type, v: Value) returns (r: Option<seq<byte>>)
    ensures r == if Packable(t, v) then Some(Encode(t, v)) else None
    decreases v, 1
  {
    if !TypeCheck(t, v) {
      if Packable(t, v) { PackableChecks(t, v); }
      r := None;
    } else if IsList(t) {
      ListPackable(t, v);
      r := PackList(t, v);
    } else {
      r := Some(Encode(t, v));
    }
  }

  method PackList(t: Type, v: Value) returns (r: Option<seq<byte>>)
    requires IsList(t) && v.ListVal?
    requires Packable(t, v) <==> AllPackable(PartTypes(t, |v.items|), v.items)
    ensures r == if Packable(t, v) then Some(Encode(t, v)) else None
    decreases v, 0
  {
    var ts := PartTypes(t, |v.items|);
    if |ts| != |v.items| { return None; }
    r := PackAll(ts, v.items);
    if t.SliceTy? && r.Some? {
      r := Some(Word(|v.items|) + r.value);
    }
  }

  method HeadSize(ts: seq<Type>) returns (size: nat)
    ensures size == SumSizes(ts)
  {
    size := 0;
    for i := 0 to |ts|
      invariant size + SumSizes(ts[i..]) == SumSizes(ts)
    {
      assert ts[i..][1..] == ts[i + 1..];
      size := size + TypeSize(ts[i]);
    }
  }

  /** The offset-carrying loop shared by slices, arrays, tuples and `Arguments.Pack`. */
  method PackAll(ts: seq<Type>, vs: seq<Value>) returns (r: Option<seq<byte>>)
    requires |ts| == |vs|
    ensures r == if AllPackable(ts, vs) then Some(EncodeAll(ts, vs)) else None
    decreases vs, 0
  {
    hide Packable, Encode, IsDynamic, SumSizes, Word;
    var offset: nat := HeadSize(ts);
    var ret, tail: seq<byte> := [], [];
    ghost var ps: seq<Part> := [];
    for i := 0 to |vs|
      invariant |ps| == i && forall j | 0 <= j < i ::
                  Packable(ts[j], vs[j]) && ps[j] == Part(IsDynamic(ts[j]), Encode(ts[j], vs[j]))
      invariant ret == Heads(ps, SumSizes(ts)) && tail == Tails(ps)
      invariant offset == SumSizes(ts) + |tail|
    {
      var packed := Pack(ts[i], vs[i]);
      if packed == None { return None; }
      ghost var p := Part(IsDynamic(ts[i]), packed.value);
      HeadsSnoc(ps, p, SumSizes(ts));
      TailsSnoc(ps, p);
      ps := ps + [p];
      if IsDynamic(ts[i]) {
        ret := ret + Word(offset);
        offset := offset + |packed.value|;
        tail := tail + packed.value;
      } else {
        ret := ret + packed.value;
      }
    }
    assert ps == Parts(ts, vs);
    return Some(ret + tail);
  }
}
