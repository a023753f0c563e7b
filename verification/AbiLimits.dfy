/** Where unpacking does not undo packing: types that `getTypeSize` counts short, and empty ones. */
module AbiLimits {
  import opened BigEndian
  import opened AbiTypes
  import opened AbiEncode
  import opened AbiDecode
  import opened AbiRoundTrip

  // ---- whatever the arguments are ---------------------------------------------------------------

  const UINT256: Type := IntTy(false, 256)

  /** Packing and unpacking give the arguments back, with integers reduced to their kinds. */
  ghost predicate Survives(ts: seq<Type>, vs: seq<Value>)
    requires AllPackable(ts, vs)
  {
    UnpackValues(ts, EncodeAll(ts, vs)) == Some(NormalAll(ts, vs))
  }

  /** A decoded list ends with what stands at the computed position of its last item. */
  lemma {:induction false} DecodeLast(whole: Type, ts: seq<Type>, t: Type, out: seq<byte>, start: nat)
    requires forall i | 0 <= i < |ts| :: ts[i] < whole
    requires t < whole
    ensures var r := DecodeAll(whole, ts + [t], out, start);
            r.Some? ==> |r.value| == |ts| + 1 &&
                        Decode(t, out, start + SumSizes(ts)) == Some(r.value[|ts|])
    decreases ts
  {
    hide Decode, TypeSize;
    if ts != [] {
      assert (ts + [t])[1..] == ts[1..] + [t];
      DecodeLast(whole, ts[1..], t, out, start + TypeSize(ts[0]));
    }
  }

  /** Where `getTypeSize` counts short, a trailing `uint256` is read out of the arguments before it,
      so some value of it does not come back, whatever those arguments are. */
  lemma MismeasuredFails(ts: seq<Type>, vs: seq<Value>) returns (n: nat)
    requires AllPackable(ts, vs) && AllPositive(ts)
    requires exists i | 0 <= i < |ts| :: !Measured(ts[i])
    ensures Packable(UINT256, IntVal(n)) && Representable(UINT256, IntVal(n))
    ensures AllPackable(ts + [UINT256], vs + [IntVal(n)]) && !Survives(ts + [UINT256], vs + [IntVal(n)])
    ensures UnpackValues(ts + [UINT256], EncodeAll(ts + [UINT256], vs + [IntVal(n)])) != Some(vs + [IntVal(n)])
  {
    hide Packable, Positive, Measured, Encode, Word, Heads, Decode, DecodeAll, Parts, EncodeAll, Representable,
      SumSizes, SumRealSizes, ToNat, Pow256, Normal;
    var S := SumSizes(ts) + 32;
    var heads := Heads(Parts(ts, vs), S);
    SumSizesLaw(ts);
    HeadsLength(ts, vs, S);
    HeadGap(ts);
    var word := heads[SumSizes(ts)..SumSizes(ts) + 32];
    n := if ToNat(word) == 0 then 1 else 0;
    assert Packable(UINT256, IntVal(n)) && Representable(UINT256, IntVal(n)) by { BigWord(n); }
    var ts', vs' := ts + [UINT256], vs + [IntVal(n)];
    TrailingHeads(ts, vs, n);
    var out := EncodeAll(ts', vs');
    assert out[SumSizes(ts)..SumSizes(ts) + 32] == word;
    PartsBelow(ts, UINT256);
    DecodeLast(TupleTy(ts'), ts, UINT256, out, 0);
    ReadBig(out, SumSizes(ts));
    assert Normal(UINT256, IntVal(n)) == IntVal(n) by { NormalLaw(UINT256, IntVal(n)); }
    assert NormalAll(ts', vs')[|ts|] == IntVal(n);
  }

  lemma PartsBelow(ts: seq<Type>, t: Type)
    ensures t < TupleTy(ts + [t]) && forall i | 0 <= i < |ts| :: ts[i] < TupleTy(ts + [t])
  {
    var ts' := ts + [t];
    assert ts'[|ts|] == t;
    assert forall i | 0 <= i < |ts| :: ts[i] == ts'[i];
  }

  lemma HeadGap(ts: seq<Type>)
    requires AllPositive(ts) && SumSizes(ts) < SumRealSizes(ts)
    ensures SumSizes(ts) + 32 <= SumRealSizes(ts)
  {
    SumSizesWords(ts);
    SumRealWords(ts);
  }

  lemma BigWord(n: nat)
    requires n <= 1
    ensures Packable(UINT256, IntVal(n)) && Representable(UINT256, IntVal(n))
  {
    MulGap(256, 0, Pow256(31));
  }

  lemma ReadBig(out: seq<byte>, index: nat)
    requires index + 32 <= |out|
    ensures Decode(UINT256, out, index) == Some(IntVal(ToNat(out[index..index + 32])))
  {
    var word := out[index..index + 32];
    assert word[0..] == word;
  }

  /** A trailing word leaves the heads before it alone, but for moving their tails by 32. */
  lemma TrailingHeads(ts: seq<Type>, vs: seq<Value>, n: nat)
    requires AllPackable(ts, vs) && Packable(UINT256, IntVal(n))
    ensures AllPackable(ts + [UINT256], vs + [IntVal(n)])
    ensures Heads(Parts(ts, vs), SumSizes(ts) + 32) <= EncodeAll(ts + [UINT256], vs + [IntVal(n)])
  {
    hide Packable, Encode, Word, TypeSize, IsDynamic;
    var ts', vs' := ts + [UINT256], vs + [IntVal(n)];
    var p := Part(IsDynamic(UINT256), Encode(UINT256, IntVal(n)));
    assert Parts(ts', vs') == Parts(ts, vs) + [p];
    SumSizesSnoc(ts, UINT256);
    assert TypeSize(UINT256) == 32 by { OtherSizes(UINT256); }
    HeadsSnoc(Parts(ts, vs), p, SumSizes(ts'));
  }

  lemma {:induction false} SumSizesSnoc(ts: seq<Type>, t: Type)
    ensures SumSizes(ts + [t]) == SumSizes(ts) + TypeSize(t)
  {
    hide TypeSize;
    if ts != [] {
      assert (ts + [t])[1..] == ts[1..] + [t];
      SumSizesSnoc(ts[1..], t);
    }
  }

  lemma {:induction false} RealSizeWords(t: Type)
    requires Positive(t)
    ensures RealSize(t) % 32 == 0
    decreases t, 1
  {
    if t.ArrayTy? && !IsDynamic(t) {
      RealSizeWords(t.elem);
      WordsTimes(t.size, RealSize(t.elem));
    } else if t.TupleTy? && !IsDynamic(t) {
      hide Positive;
      PartsPositive(t);
      SumRealWords(t.elems);
    }
  }

  lemma {:induction false} SumRealWords(ts: seq<Type>)
    requires AllPositive(ts)
    ensures SumRealSizes(ts) % 32 == 0
    decreases ts, 0
  {
    hide Positive, RealSize;
    if ts != [] {
      RealSizeWords(ts[0]);
      SumRealWords(ts[1..]);
      WordsAdd(RealSize(ts[0]), SumRealSizes(ts[1..]));
    }
  }

  // ---- sample values ----------------------------------------------------------------------------

  /** Every array and tuple has parts and every fixed byte string has bytes, so that each type has
      different values. */
  predicate Full(t: Type)
    decreases t
  {
    match t
    case ArrayTy(e, n) => 0 < n && Full(e)
    case SliceTy(e) => Full(e)
    case TupleTy(es) => es != [] && forall i | 0 <= i < |es| :: Full(es[i])
    case FixedBytesTy(n) => 0 < n <= 32
    case _ => true
  }

  predicate FullAll(ts: seq<Type>) {
    forall i | 0 <= i < |ts| :: Full(ts[i])
  }

  lemma {:induction false} FullPositive(t: Type)
    requires Full(t)
    ensures Positive(t)
    decreases t
  {
    if t.ArrayTy? || t.SliceTy? {
      FullPositive(t.elem);
    } else if t.TupleTy? {
      forall i | 0 <= i < |t.elems| ensures Positive(t.elems[i]) {
        FullPositive(t.elems[i]);
      }
    }
  }

  function Fill(n: nat, high: bool): (b: seq<byte>)
    ensures |b| == n
  {
    seq(n, _ => if high then 1 else 0)
  }

  /** A value with zeros, or ones, throughout; slices and byte strings have length two. */
  function Sample(t: Type, high: bool): (v: Value)
    decreases t
  {
    match t
    case IntTy(_, _) => IntVal(if high then 1 else 0)
    case BoolTy => BoolVal(high)
    case AddressTy => BytesVal(Fill(20, high))
    case FixedBytesTy(n) => BytesVal(Fill(n, high))
    case FunctionTy => BytesVal(Fill(24, high))
    case StringTy => BytesVal(Fill(2, high))
    case BytesTy => BytesVal(Fill(2, high))
    case SliceTy(e) => ListVal(Repeat(Sample(e, high), 2))
    case ArrayTy(e, n) => ListVal(Repeat(Sample(e, high), n))
    case TupleTy(es) => ListVal(seq(|es|, i requires 0 <= i < |es| => Sample(es[i], high)))
  }

  function SampleAll(ts: seq<Type>, high: bool): (vs: seq<Value>)
    ensures |vs| == |ts| && forall i | 0 <= i < |ts| :: vs[i] == Sample(ts[i], high)
  {
    seq(|ts|, i requires 0 <= i < |ts| => Sample(ts[i], high))
  }

  /** The parts of a sample are samples of the parts. */
  function SampleParts(t: Type): (ts: seq<Type>)
    requires IsList(t)
  {
    PartTypes(t, if t.ArrayTy? then t.size else 2)
  }

  lemma SampleList(t: Type, high: bool)
    requires IsList(t)
    ensures Sample(t, high) == ListVal(SampleAll(SampleParts(t), high))
    ensures forall i | 0 <= i < |SampleParts(t)| :: SampleParts(t)[i] < t
    ensures Full(t) ==> SampleParts(t) != [] && FullAll(SampleParts(t))
  {
    assert Sample(t, high).items == SampleAll(SampleParts(t), high);
  }

  lemma {:induction false} SamplePackable(t: Type, high: bool)
    requires Full(t)
    ensures Packable(t, Sample(t, high))
    decreases t
  {
    if IsList(t) {
      var ts := SampleParts(t);
      SampleList(t, high);
      forall i | 0 <= i < |ts| ensures Packable(ts[i], Sample(ts[i], high)) {
        SamplePackable(ts[i], high);
      }
    } else if t.IntTy? {
      SmallInRange(t.signed, KindBytes(t.bits), if high then 1 else 0);
    }
  }

  lemma SmallInRange(signed: bool, k: nat, n: nat)
    requires 1 <= k && n <= 1
    ensures InRange(signed, k, n)
  {
    assert Pow256(k) >= 256 by { MulGap(256, 0, Pow256(k - 1)); }
  }

  lemma SampleAllPackable(ts: seq<Type>, high: bool)
    requires FullAll(ts)
    ensures AllPackable(ts, SampleAll(ts, high))
  {
    hide Full, Packable, Sample;
    forall i | 0 <= i < |ts| ensures Packable(ts[i], Sample(ts[i], high)) {
      SamplePackable(ts[i], high);
    }
  }

  /** The two samples of a type do not come back as the same value. */
  lemma {:induction false} SamplesDiffer(t: Type)
    requires Full(t)
    ensures Packable(t, Sample(t, false)) && Packable(t, Sample(t, true))
    ensures Normal(t, Sample(t, false)) != Normal(t, Sample(t, true))
    decreases t
  {
    SamplePackable(t, false);
    SamplePackable(t, true);
    if IsList(t) {
      var ts := SampleParts(t);
      SampleList(t, false);
      SampleList(t, true);
      SamplesDiffer(ts[0]);
      NormalList(t, Sample(t, false));
      NormalList(t, Sample(t, true));
      assert NormalAll(ts, SampleAll(ts, false))[0] != NormalAll(ts, SampleAll(ts, true))[0];
    } else if t.IntTy? {
      CanonLaw(t.signed, KindBytes(t.bits), 0);
      CanonLaw(t.signed, KindBytes(t.bits), 1);
      SmallInRange(t.signed, KindBytes(t.bits), 0);
      SmallInRange(t.signed, KindBytes(t.bits), 1);
    } else if !t.BoolTy? {
      assert Sample(t, false).bytes[0] != Sample(t, true).bytes[0];
    }
  }

  // ---- where the parts of a block stand -----------------------------------------------------------

  lemma {:induction false} HeadsSplit(ps: seq<Part>, k: nat, offset: nat)
    requires k <= |ps|
    ensures Heads(ps, offset) == Heads(ps[..k], offset) + Heads(ps[k..], offset + |Tails(ps[..k])|)
    decreases k
  {
    hide Word;
    if k == 0 {
      assert ps[0..] == ps && ps[..0] == [];
    } else {
      var next := if ps[0].dyn then offset + |ps[0].enc| else offset;
      HeadsSplit(ps[1..], k - 1, next);
      assert ps[..k][1..] == ps[1..][..k - 1] && ps[1..][k - 1..] == ps[k..] && ps[..k][0] == ps[0];
      Grouped(if ps[0].dyn then Word(offset) else ps[0].enc, Heads(ps[1..][..k - 1], next),
              Heads(ps[k..], offset + |Tails(ps[..k])|));
    }
  }

  lemma Grouped(a: seq<byte>, b: seq<byte>, c: seq<byte>)
    ensures a + (b + c) == (a + b) + c
  {
  }

  lemma {:induction false} TailsSplit(ps: seq<Part>, k: nat)
    requires k <= |ps|
    ensures Tails(ps) == Tails(ps[..k]) + Tails(ps[k..])
    decreases k
  {
    if k == 0 {
      assert ps[0..] == ps && ps[..0] == [];
    } else {
      TailsSplit(ps[1..], k - 1);
      assert ps[..k][1..] == ps[1..][..k - 1] && ps[1..][k - 1..] == ps[k..] && ps[..k][0] == ps[0];
    }
  }

  /** Replacing one part by another of the same length changes the block at that part only. */
  lemma SwapPart(ps: seq<Part>, k: nat, enc: seq<byte>, offset: nat) returns (a: seq<byte>, b: seq<byte>)
    requires k < |ps| && |enc| == |ps[k].enc|
    ensures Heads(ps, offset) + Tails(ps) == a + ps[k].enc + b
    ensures var ps' := ps[k := Part(ps[k].dyn, enc)]; Heads(ps', offset) + Tails(ps') == a + enc + b
    ensures |a| == if ps[k].dyn then |Heads(ps, offset)| + |Tails(ps[..k])| else |Heads(ps[..k], offset)|
  {
    hide Word, Heads, Tails;
    var ps' := ps[k := Part(ps[k].dyn, enc)];
    AroundPart(ps, k, offset);
    AroundPart(ps', k, offset);
    assert ps'[..k] == ps[..k] && ps'[k + 1..] == ps[k + 1..];
    var before, tails, next := Heads(ps[..k], offset), Tails(ps[..k]), offset + |Tails(ps[..k])|;
    if ps[k].dyn {
      var head := Word(next) + Heads(ps[k + 1..], next + |enc|);
      a, b := before + head + tails, Tails(ps[k + 1..]);
      SwapDyn(before, head, tails, ps[k].enc, b);
      SwapDyn(before, head, tails, enc, b);
    } else {
      var rest := Heads(ps[k + 1..], next);
      a, b := before, rest + (tails + Tails(ps[k + 1..]));
      SwapStatic(before, ps[k].enc, rest, tails, Tails(ps[k + 1..]));
      SwapStatic(before, enc, rest, tails, Tails(ps[k + 1..]));
    }
  }

  /** A block around one of its parts. */
  lemma AroundPart(ps: seq<Part>, k: nat, offset: nat)
    requires k < |ps|
    ensures var p, next := ps[k], offset + |Tails(ps[..k])|;
            Heads(ps, offset) == Heads(ps[..k], offset) +
              (if p.dyn then Word(next) + Heads(ps[k + 1..], next + |p.enc|) else p.enc + Heads(ps[k + 1..], next)) &&
            Tails(ps) == Tails(ps[..k]) + ((if p.dyn then p.enc else []) + Tails(ps[k + 1..]))
  {
    hide Word;
    HeadsSplit(ps, k, offset);
    TailsSplit(ps, k);
    assert ps[k..][1..] == ps[k + 1..] && ps[k..][0] == ps[k];
  }

  lemma SwapDyn(h: seq<byte>, r: seq<byte>, t: seq<byte>, e: seq<byte>, u: seq<byte>)
    ensures (h + r) + (t + (e + u)) == (h + r + t) + e + u
  {
  }

  lemma SwapStatic(h: seq<byte>, e: seq<byte>, r: seq<byte>, t: seq<byte>, u: seq<byte>)
    ensures (h + (e + r)) + (t + ([] + u)) == h + e + (r + (t + u))
  {
    assert [] + u == u;
  }

  lemma {:induction false} SameLength(ps: seq<Part>, qs: seq<Part>, offset: nat, offset': nat)
    requires |ps| == |qs| && forall i | 0 <= i < |ps| :: ps[i].dyn == qs[i].dyn && |ps[i].enc| == |qs[i].enc|
    ensures |Heads(ps, offset)| == |Heads(qs, offset')| && |Tails(ps)| == |Tails(qs)|
    decreases |ps|
  {
    hide Word;
    if ps != [] {
      SameLength(ps[1..], qs[1..], if ps[0].dyn then offset + |ps[0].enc| else offset,
                 if qs[0].dyn then offset' + |qs[0].enc| else offset');
    }
  }

  /** The two samples of a type take the same room. */
  lemma {:induction false} SampleLength(t: Type)
    requires Full(t)
    ensures Packable(t, Sample(t, false)) && Packable(t, Sample(t, true))
    ensures |Encode(t, Sample(t, false))| == |Encode(t, Sample(t, true))|
    decreases t
  {
    hide Full, Packable, Encode, EncodeAll, Sample, IsDynamic;
    SamplePackable(t, false);
    SamplePackable(t, true);
    if !IsList(t) {
      LeafLength(t);
    } else {
      SampleRoom(t, false);
      SampleRoom(t, true);
      var ts := SampleParts(t);
      SampleList(t, false);
      forall i | 0 <= i < |ts| ensures |Encode(ts[i], Sample(ts[i], false))| == |Encode(ts[i], Sample(ts[i], true))| {
        SampleLength(ts[i]);
      }
      SampleRooms(ts);
    }
  }

  lemma LeafLength(t: Type)
    requires Full(t) && !IsList(t) && Packable(t, Sample(t, false)) && Packable(t, Sample(t, true))
    ensures |Encode(t, Sample(t, false))| == |Encode(t, Sample(t, true))|
  {
    hide Word, Full;
  }

  lemma SampleRoom(t: Type, high: bool)
    requires Full(t) && IsList(t) && Packable(t, Sample(t, high))
    ensures AllPackable(SampleParts(t), SampleAll(SampleParts(t), high))
    ensures |Encode(t, Sample(t, high))| ==
            |EncodeAll(SampleParts(t), SampleAll(SampleParts(t), high))| + if t.SliceTy? then 32 else 0
  {
    hide Full, Sample, EncodeAll, Packable;
    SampleList(t, high);
    SampleAllPackable(SampleParts(t), high);
    assert PartTypes(t, |SampleParts(t)|) == SampleParts(t);
  }

  lemma SampleRooms(ts: seq<Type>)
    requires AllPackable(ts, SampleAll(ts, false)) && AllPackable(ts, SampleAll(ts, true))
    requires forall i | 0 <= i < |ts| :: |Encode(ts[i], Sample(ts[i], false))| == |Encode(ts[i], Sample(ts[i], true))|
    ensures |EncodeAll(ts, SampleAll(ts, false))| == |EncodeAll(ts, SampleAll(ts, true))|
  {
    hide Packable, Encode, Sample, IsDynamic;
    SameLength(Parts(ts, SampleAll(ts, false)), Parts(ts, SampleAll(ts, true)), SumSizes(ts), SumSizes(ts));
  }

  /** The low sample of a static type is all zeros. */
  lemma {:induction false} LowZero(t: Type)
    requires Full(t) && !IsDynamic(t)
    ensures Packable(t, Sample(t, false)) && Encode(t, Sample(t, false)) == Zeros(RealSize(t))
    decreases t
  {
    SamplePackable(t, false);
    if IsList(t) {
      var ts := SampleParts(t);
      SampleList(t, false);
      SampleAllPackable(ts, false);
      LowHeads(t, ts, SumSizes(ts));
      StaticTails(Parts(ts, SampleAll(ts, false)));
      if t.ArrayTy? { SumRealRepeat(t.elem, t.size); }
      assert Zeros(RealSize(t)) + [] == Zeros(RealSize(t));
    } else {
      LowWord(t);
    }
  }

  lemma LowWord(t: Type)
    requires Full(t) && !IsDynamic(t) && !IsList(t) && Packable(t, Sample(t, false))
    ensures Encode(t, Sample(t, false)) == Zeros(32)
  {
    ZeroBytes(32);
    assert Word(0) == Zeros(32);
    if t.AddressTy? || t.FixedBytesTy? || t.FunctionTy? {
      assert Encode(t, Sample(t, false)) == Zeros(32);
    }
  }

  lemma {:induction false} LowHeads(whole: Type, ts: seq<Type>, offset: nat)
    requires FullAll(ts) && forall i | 0 <= i < |ts| :: ts[i] < whole && !IsDynamic(ts[i])
    ensures AllPackable(ts, SampleAll(ts, false))
    ensures Heads(Parts(ts, SampleAll(ts, false)), offset) == Zeros(SumRealSizes(ts))
    decreases whole, |ts|
  {
    hide Full, IsDynamic, Packable, Encode, Sample, RealSize, Word;
    SampleAllPackable(ts, false);
    if ts != [] {
      var ps := Parts(ts, SampleAll(ts, false));
      LowZero(ts[0]);
      LowHeads(whole, ts[1..], offset);
      assert SampleAll(ts, false)[1..] == SampleAll(ts[1..], false);
      assert ps[1..] == Parts(ts[1..], SampleAll(ts[1..], false));
      assert Zeros(RealSize(ts[0])) + Zeros(SumRealSizes(ts[1..])) == Zeros(SumRealSizes(ts));
    }
  }

  // ---- reading the wrong words ----------------------------------------------------------------------

  /** Each item of a decoded list stands at the computed position. */
  lemma {:induction false} DecodeItem(whole: Type, ts: seq<Type>, out: seq<byte>, start: nat, k: nat)
    requires k < |ts| && forall i | 0 <= i < |ts| :: ts[i] < whole
    ensures var r := DecodeAll(whole, ts, out, start);
            r.Some? ==> |r.value| == |ts| && Decode(ts[k], out, start + SumSizes(ts[..k])) == Some(r.value[k])
    decreases ts
  {
    hide Decode, TypeSize;
    var r := DecodeAll(whole, ts, out, start);
    if r.Some? {
      DecodedLength(whole, ts, out, start);
      if k > 0 {
        DecodeItem(whole, ts[1..], out, start + TypeSize(ts[0]), k - 1);
        assert ts[..k][1..] == ts[1..][..k - 1];
      }
    }
  }

  lemma {:induction false} DecodedLength(whole: Type, ts: seq<Type>, out: seq<byte>, start: nat)
    requires forall i | 0 <= i < |ts| :: ts[i] < whole
    ensures var r := DecodeAll(whole, ts, out, start); r.Some? ==> |r.value| == |ts|
    decreases ts
  {
    hide Decode, TypeSize;
    if ts != [] {
      DecodedLength(whole, ts[1..], out, start + TypeSize(ts[0]));
    }
  }

  /** The result is a sample of the type. */
  ghost predicate Yields(t: Type, out: seq<byte>, index: nat, high: bool)
    requires Full(t)
  {
    Packable(t, Sample(t, high)) && Decode(t, out, index) == Some(Normal(t, Sample(t, high)))
  }

  /** The start of an array or tuple whose head is at `index`. */
  ghost predicate Starts(t: Type, out: seq<byte>, index: nat, begin: nat) {
    index + 32 <= |out| && begin <= |out| &&
    if IsDynamic(t) then begin < TWO_63 && out[index..index + 32] == Word(begin) else begin == index
  }

  lemma DecodeBlock(t: Type, out: seq<byte>, index: nat, begin: nat)
    requires (t.ArrayTy? || t.TupleTy?) && Starts(t, out, index, begin)
    requires forall i | 0 <= i < |SampleParts(t)| :: SampleParts(t)[i] < t
    ensures Decode(t, out, index).Some? ==> Decode(t, out, index) == AsList(DecodeAll(t, SampleParts(t), out[begin..], 0))
  {
    hide DecodeAll, ToNat, Word;
    if IsDynamic(t) {
      SmallWord(begin);
      assert out[index + 24..index + 32] == out[index..index + 32][24..];
    }
  }

  /** The first part of an array or tuple is read at its start. */
  lemma FirstYields(t: Type, out: seq<byte>, index: nat, begin: nat, high: bool)
    requires Full(t) && (t.ArrayTy? || t.TupleTy?) && Starts(t, out, index, begin) && Yields(t, out, index, high)
    ensures SampleParts(t) != [] && FullAll(SampleParts(t)) && Yields(SampleParts(t)[0], out[begin..], 0, high)
  {
    hide Full, Sample, TypeSize, IsDynamic, DecodeAll, Decode, Packable, Normal, SampleParts;
    var ts, v := SampleParts(t), Sample(t, high);
    SampleList(t, high);
    SampleAllPackable(ts, high);
    SampleNormal(t, high);
    DecodeBlock(t, out, index, begin);
    DecodeItem(t, ts, out[begin..], 0, 0);
    assert SumSizes(ts[..0]) == 0;
    assert NormalAll(ts, SampleAll(ts, high))[0] == Normal(ts[0], Sample(ts[0], high));
  }

  lemma SampleNormal(t: Type, high: bool)
    requires IsList(t) && Full(t)
    ensures Packable(t, Sample(t, high)) && AllPackable(SampleParts(t), SampleAll(SampleParts(t), high))
    ensures Normal(t, Sample(t, high)) == ListVal(NormalAll(SampleParts(t), SampleAll(SampleParts(t), high)))
  {
    hide Full, Packable, Normal, Sample;
    SampleList(t, high);
    SamplePackable(t, high);
    SampleAllPackable(SampleParts(t), high);
    NormalList(t, Sample(t, high));
    assert t.ArrayTy? ==> |SampleParts(t)| == t.size;
  }

  /** A static type read twice from the same first word cannot give both samples. */
  lemma {:induction false} StaticFirst(t: Type, out: seq<byte>, out': seq<byte>, index: nat)
    requires Full(t) && !IsDynamic(t) && index + 32 <= |out| && index + 32 <= |out'|
    requires out[index..index + 32] == out'[index..index + 32]
    ensures !(Yields(t, out, index, false) && Yields(t, out', index, true))
    decreases t
  {
    if Yields(t, out, index, false) && Yields(t, out', index, true) {
      if IsList(t) {
        SampleList(t, false);
        FirstYields(t, out, index, index, false);
        FirstYields(t, out', index, index, true);
        assert out[index..][0..32] == out[index..index + 32] && out'[index..][0..32] == out'[index..index + 32];
        StaticPart(t);
        StaticFirst(SampleParts(t)[0], out[index..], out'[index..], 0);
      } else {
        SamplesDiffer(t);
      }
    }
  }

  lemma StaticPart(t: Type)
    requires Full(t) && IsList(t) && !IsDynamic(t)
    ensures SampleParts(t) != [] && SampleParts(t)[0] < t && !IsDynamic(SampleParts(t)[0])
  {
  }

  /** Two reads through the same reference into the same bytes agree. */
  lemma SameReference(t: Type, out: seq<byte>, out': seq<byte>, b: nat)
    requires IsDynamic(t) && |out| == |out'| && 32 <= |out| && b < TWO_63
    requires out[0..32] == Word(b) && out'[0..32] == Word(b) && (b <= |out| ==> out[b..] == out'[b..])
    ensures Decode(t, out, 0) == Decode(t, out', 0)
  {
    if RequiresLengthPrefix(t) {
      SamePrefixed(t, out, out', b);
    } else {
      hide Word, ToNat, DecodeAll, DecodeEach, LengthPrefixPointsTo;
      SmallWord(b);
      assert out[24..32] == out[0..32][24..] && out'[24..32] == out'[0..32][24..];
    }
  }

  lemma SamePrefixed(t: Type, out: seq<byte>, out': seq<byte>, b: nat)
    requires RequiresLengthPrefix(t) && |out| == |out'| && 32 <= |out| && b < TWO_63
    requires out[0..32] == Word(b) && out'[0..32] == Word(b) && (b <= |out| ==> out[b..] == out'[b..])
    ensures Decode(t, out, 0) == Decode(t, out', 0)
  {
    hide Word, DecodeEach, LengthPrefixPointsTo, Decode, RequiresLengthPrefix;
    SamePrefix(out, out', b);
    DecodePrefixed(t, out);
    DecodePrefixed(t, out');
    var r := LengthPrefixPointsTo(0, out);
    if r.Some? {
      var lo, hi := r.value.0, r.value.0 + r.value.1;
      Window(out, out', b, lo, hi);
      Window(out, out', b, lo, |out|);
      assert out[lo..] == out[lo..|out|] && out'[lo..] == out'[lo..|out|];
    }
  }

  lemma DecodePrefixed(t: Type, out: seq<byte>)
    requires RequiresLengthPrefix(t) && 32 <= |out|
    ensures var r := LengthPrefixPointsTo(0, out);
            Decode(t, out, 0) ==
              if r == None then None
              else if t.SliceTy? then AsList(DecodeEach(t, out[r.value.0..], r.value.1))
              else Some(BytesVal(out[r.value.0..r.value.0 + r.value.1]))
  {
    hide DecodeEach, LengthPrefixPointsTo;
  }

  lemma SamePrefix(out: seq<byte>, out': seq<byte>, b: nat)
    requires |out| == |out'| && 32 <= |out| && b < TWO_63
    requires out[0..32] == Word(b) && out'[0..32] == Word(b) && (b <= |out| ==> out[b..] == out'[b..])
    ensures LengthPrefixPointsTo(0, out) == LengthPrefixPointsTo(0, out')
    ensures LengthPrefixPointsTo(0, out).Some? ==> LengthPrefixPointsTo(0, out).value.0 == b + 32 <= |out|
  {
    hide Word, ToNat;
    SmallWord(b);
    if b + 32 <= |out| {
      Window(out, out', b, b, b + 32);
    }
  }

  lemma Window(out: seq<byte>, out': seq<byte>, b: nat, lo: nat, hi: nat)
    requires |out| == |out'| && b <= lo <= hi <= |out| && out[b..] == out'[b..]
    ensures out[lo..hi] == out'[lo..hi]
  {
    forall j | 0 <= j < hi - lo ensures out[lo..hi][j] == out'[lo..hi][j] {
      assert out[b..][lo - b + j] == out'[b..][lo - b + j];
    }
  }

  /** The word at a position is the number w. */
  ghost predicate Reads(out: seq<byte>, pos: nat, w: nat) {
    pos + 32 <= |out| && w < TWO_63 && out[pos..pos + 32] == Word(w)
  }

  /** A dynamic type read through a reference to the same first word cannot give both samples, if that word is
      zero or refers to bytes that are the same. */
  lemma {:induction false} RefMisread(t: Type, out: seq<byte>, out': seq<byte>, index: nat, b: nat, w: nat)
    requires Full(t) && IsDynamic(t) && |out| == |out'| && |out| < TWO_63
    requires Reads(out, index, b) && Reads(out', index, b) && Reads(out, b, w) && Reads(out', b, w)
    requires w != 2 && (w == 0 || b + w > |out| || out[b + w..] == out'[b + w..])
    ensures !(Yields(t, out, index, false) && Yields(t, out', index, true))
    decreases t
  {
    hide Word, ToNat, Full, IsDynamic, Yields;
    if Yields(t, out, index, false) && Yields(t, out', index, true) {
      if RequiresLengthPrefix(t) {
        WrongLength(t, out, index, b, w);
      } else {
        DynamicList(t);
        FirstYields(t, out, index, b, false);
        FirstYields(t, out', index, b, true);
        var e, block, block' := SampleParts(t)[0], out[b..], out'[b..];
        assert block[0..32] == out[b..b + 32] && block'[0..32] == out'[b..b + 32];
        FirstMisread(e, block, block', w);
        if IsDynamic(e) && w == 0 {
          RefMisread(e, block, block', 0, 0, 0);
        }
      }
    }
  }

  lemma DynamicList(t: Type)
    requires Full(t) && IsDynamic(t) && !RequiresLengthPrefix(t)
    ensures (t.ArrayTy? || t.TupleTy?) && SampleParts(t) != [] && SampleParts(t)[0] < t
  {
  }

  lemma WrongLength(t: Type, out: seq<byte>, index: nat, b: nat, w: nat)
    requires Full(t) && RequiresLengthPrefix(t) && Reads(out, index, b) && Reads(out, b, w) && w != 2
    ensures !Yields(t, out, index, false)
  {
    hide Word, ToNat, DecodeAll;
    SmallWord(b);
    SmallWord(w);
    if t.SliceTy? {
      DecodedRepeat(t, out, index);
    }
  }

  lemma DecodedRepeat(t: Type, out: seq<byte>, index: nat)
    requires t.SliceTy? && index + 32 <= |out|
    ensures var p := LengthPrefixPointsTo(index, out);
            Decode(t, out, index).Some? ==> p.Some? && Decode(t, out, index).value.ListVal? &&
                                            |Decode(t, out, index).value.items| == p.value.1
  {
    hide DecodeAll, LengthPrefixPointsTo;
    var p := LengthPrefixPointsTo(index, out);
    if p.Some? {
      DecodedLength(t, Repeat(t.elem, p.value.1), out[p.value.0..], 0);
    }
  }

  /** The first part of a block, where it is static or refers to the same bytes. */
  lemma FirstMisread(e: Type, block: seq<byte>, block': seq<byte>, w: nat)
    requires Full(e) && |block| == |block'| && Reads(block, 0, w) && Reads(block', 0, w)
    requires w == 0 || w > |block| || block[w..] == block'[w..]
    ensures !IsDynamic(e) || w != 0 ==> !(Yields(e, block, 0, false) && Yields(e, block', 0, true))
  {
    hide Word, Full, IsDynamic, Decode;
    if !IsDynamic(e) {
      StaticFirst(e, block, block', 0);
    } else if w != 0 {
      SameReference(e, block, block', w);
      SamplesDiffer(e);
    }
  }

  // ---- lists out of line ------------------------------------------------------------------------------

  /** An item that is read from the words of others: a static item after one that is counted short; the
      first dynamic item, right after the one counted short; or the first dynamic item, before it. */
  predicate OutOfLine(ts: seq<Type>, k: nat) {
    k < |ts| && (StaticAfter(ts, k) || DynamicAfter(ts, k) || exists i | k < i < |ts| :: DynamicBefore(ts, k, i))
  }

  predicate StaticAfter(ts: seq<Type>, k: nat)
    requires k < |ts|
  {
    !IsDynamic(ts[k]) && exists i | 0 <= i < k :: !Measured(ts[i])
  }

  predicate DynamicAfter(ts: seq<Type>, k: nat)
    requires k < |ts|
  {
    0 < k && IsDynamic(ts[k]) && (forall j | 0 <= j < k :: !IsDynamic(ts[j])) && !Measured(ts[k - 1])
  }

  predicate DynamicBefore(ts: seq<Type>, k: nat, i: nat)
    requires k < i < |ts|
  {
    IsDynamic(ts[k]) && (forall j | 0 <= j < k :: !IsDynamic(ts[j])) && (forall j | 0 <= j < i :: Measured(ts[j])) &&
    !Measured(ts[i]) && forall j | i < j < |ts| :: IsDynamic(ts[j])
  }

  lemma OutOfLineExists(ts: seq<Type>) returns (k: nat)
    requires !Aligned(ts)
    ensures OutOfLine(ts, k)
  {
    hide Measured, IsDynamic;
    assert exists i | 0 <= i < |ts| :: !Measured(ts[i]);
    var i := First(ts, t => !Measured(t));
    if IsDynamic(ts[i]) { DynamicHead(ts[i]); }
    if exists j | i < j < |ts| :: !IsDynamic(ts[j]) {
      k :| i < k < |ts| && !IsDynamic(ts[k]);
      assert StaticAfter(ts, k);
    } else if exists j | 0 <= j < i :: IsDynamic(ts[j]) {
      k := First(ts, t => IsDynamic(t));
      assert DynamicBefore(ts, k, i);
    } else {
      k := i + 1;
      assert k < |ts|;
      assert DynamicAfter(ts, k);
    }
  }

  lemma {:induction false} First(ts: seq<Type>, f: Type -> bool) returns (i: nat)
    requires exists i | 0 <= i < |ts| :: f(ts[i])
    ensures i < |ts| && f(ts[i]) && forall j | 0 <= j < i :: !f(ts[j])
    decreases |ts|
  {
    i :| i < |ts| && f(ts[i]);
    if exists j | 0 <= j < i :: f(ts[j]) {
      assert exists j | 0 <= j < |ts[..i]| :: f(ts[..i][j]) by {
        var j :| 0 <= j < i && f(ts[j]);
        assert f(ts[..i][j]);
      }
      i := First(ts[..i], f);
    }
  }

  /** Where a part stands in a placed block. */
  lemma PartPlaced(ps: seq<Part>, offset: nat, out: seq<byte>, k: nat)
    requires k < |ps| && At(out, 0, Heads(ps, offset) + Tails(ps))
    ensures var r, t := |Heads(ps[..k], offset)|, |Tails(ps[..k])|;
            if ps[k].dyn then At(out, r, Word(offset + t)) && At(out, |Heads(ps, offset)| + t, ps[k].enc)
            else At(out, r, ps[k].enc)
    ensures |Heads(ps[..k], offset)| + (if ps[k].dyn then 32 else |ps[k].enc|) <= |Heads(ps, offset)|
    ensures |Tails(ps[..k])| + (if ps[k].dyn then |ps[k].enc| else 0) <= |Tails(ps)|
  {
    hide Word, At;
    var h, t, next := Heads(ps, offset), Tails(ps), offset + |Tails(ps[..k])|;
    AtSplit(out, 0, h, t);
    HeadsSplit(ps, k, offset);
    TailsSplit(ps, k);
    AtSplit(out, 0, Heads(ps[..k], offset), Heads(ps[k..], next));
    AtSplit(out, |h|, Tails(ps[..k]), Tails(ps[k..]));
    assert ps[k..][0] == ps[k];
    if ps[k].dyn {
      AtSplit(out, |Heads(ps[..k], offset)|, Word(next), Heads(ps[k..][1..], next + |ps[k].enc|));
      AtSplit(out, |h| + |Tails(ps[..k])|, ps[k].enc, Tails(ps[k..][1..]));
    } else {
      AtSplit(out, |Heads(ps[..k], offset)|, ps[k].enc, Heads(ps[k..][1..], next));
    }
  }

  /** The low samples of a list with another value of the same length at one place. */
  ghost predicate Swapped(ts: seq<Type>, k: nat, x: Value) {
    k < |ts| && FullAll(ts) && AllPackable(ts, SampleAll(ts, false)) && Packable(ts[k], x) &&
    |Encode(ts[k], x)| == |Encode(ts[k], Sample(ts[k], false))|
  }

  lemma SwapItem(ts: seq<Type>, k: nat, x: Value) returns (a: seq<byte>, b: seq<byte>)
    requires Swapped(ts, k, x)
    ensures AllPackable(ts, SampleAll(ts, false)[k := x])
    ensures EncodeAll(ts, SampleAll(ts, false)) == a + Encode(ts[k], Sample(ts[k], false)) + b
    ensures EncodeAll(ts, SampleAll(ts, false)[k := x]) == a + Encode(ts[k], x) + b
    ensures var ps := Parts(ts, SampleAll(ts, false));
            |a| == if IsDynamic(ts[k]) then SumRealSizes(ts) + |Tails(ps[..k])| else SumRealSizes(ts[..k])
  {
    hide Full, Packable, Encode, IsDynamic, Sample, Heads, Tails, RealSize, TypeSize;
    var vs := SampleAll(ts, false);
    var ps := Parts(ts, vs);
    a, b := SwapPart(ps, k, Encode(ts[k], x), SumSizes(ts));
    assert Parts(ts, vs[k := x]) == ps[k := Part(ps[k].dyn, Encode(ts[k], x))];
    PrefixHeads(ts, k, SumSizes(ts));
    PrefixHeads(ts, |ts|, SumSizes(ts));
    assert ts[..|ts|] == ts && ps[..|ts|] == ps;
  }

  lemma PrefixHeads(ts: seq<Type>, k: nat, offset: nat)
    requires FullAll(ts) && k <= |ts| && AllPackable(ts, SampleAll(ts, false))
    ensures |Heads(Parts(ts, SampleAll(ts, false))[..k], offset)| == SumRealSizes(ts[..k])
  {
    hide Full, Packable, Encode, IsDynamic, Sample, Heads, RealSize, Positive;
    var vs := SampleAll(ts, false);
    assert Parts(ts[..k], vs[..k]) == Parts(ts, vs)[..k];
    HeadsLength(ts[..k], vs[..k], offset);
  }

  /** Where the encoding of an item stands. */
  ghost function Position(ts: seq<Type>, k: nat): nat
    requires k < |ts| && AllPackable(ts, SampleAll(ts, false))
  {
    if IsDynamic(ts[k]) then SumRealSizes(ts) + |Tails(Parts(ts, SampleAll(ts, false))[..k])| else SumRealSizes(ts[..k])
  }

  /** Two placed blocks that differ in one item only, and the same bytes after them. */
  ghost predicate Twins(ts: seq<Type>, k: nat, x: Value, out: seq<byte>, out': seq<byte>) {
    Swapped(ts, k, x) && |out| == |out'| && |out| < TWO_63 && AllPackable(ts, SampleAll(ts, false)[k := x]) &&
    At(out, 0, EncodeAll(ts, SampleAll(ts, false))) && At(out', 0, EncodeAll(ts, SampleAll(ts, false)[k := x])) &&
    out[|EncodeAll(ts, SampleAll(ts, false))|..] == out'[|EncodeAll(ts, SampleAll(ts, false))|..]
  }

  lemma TwinsDiffer(ts: seq<Type>, k: nat, x: Value, out: seq<byte>, out': seq<byte>)
    requires Twins(ts, k, x, out, out')
    ensures var q, n := Position(ts, k), |Encode(ts[k], Sample(ts[k], false))|;
            q + n <= |out| && out[..q] == out'[..q] && out[q + n..] == out'[q + n..] &&
            out[q..q + n] == Encode(ts[k], Sample(ts[k], false)) && out'[q..q + n] == Encode(ts[k], x)
  {
    hide Full, Packable, Encode, IsDynamic, Sample, EncodeAll, Tails, RealSize, FullAll;
    var a, b := SwapItem(ts, k, x);
    var e, e' := Encode(ts[k], Sample(ts[k], false)), Encode(ts[k], x);
    TwinBytes(out, out', a, e, e', b);
  }

  lemma TwinBytes(out: seq<byte>, out': seq<byte>, a: seq<byte>, e: seq<byte>, e': seq<byte>, b: seq<byte>)
    requires |e| == |e'| && |out| == |out'| && At(out, 0, a + e + b) && At(out', 0, a + e' + b)
    requires out[|a + e + b|..] == out'[|a + e + b|..]
    ensures |a| + |e| <= |out| && out[..|a|] == out'[..|a|] && out[|a| + |e|..] == out'[|a| + |e|..]
    ensures out[|a|..|a| + |e|] == e && out'[|a|..|a| + |e|] == e'
  {
    AtSplit(out, 0, a + e, b);
    AtSplit(out', 0, a + e', b);
    AtSplit(out, 0, a, e);
    AtSplit(out', 0, a, e');
    var n := |a| + |e|;
    assert out[n..] == out[n..n + |b|] + out[n + |b|..];
    assert out'[n..] == out'[n..n + |b|] + out'[n + |b|..];
  }

  lemma SameStart(out: seq<byte>, out': seq<byte>, q: nat, lo: nat, hi: nat)
    requires lo <= hi <= q <= |out| && q <= |out'| && out[..q] == out'[..q]
    ensures out[lo..hi] == out'[lo..hi]
  {
    assert out[lo..hi] == out[..q][lo..hi] && out'[lo..hi] == out'[..q][lo..hi];
  }

  /** What is counted short in front of an item puts its head at least a word too low. */
  lemma ShortBefore(ts: seq<Type>, k: nat, i: nat)
    requires FullAll(ts) && i < k <= |ts| && !Measured(ts[i])
    ensures SumSizes(ts[..k]) + 32 <= SumRealSizes(ts[..k])
  {
    hide Full, Measured, SumSizes, SumRealSizes, Positive;
    FullArePositive(ts[..k]);
    assert ts[..k][i] == ts[i];
    SumSizesLaw(ts[..k]);
    HeadGap(ts[..k]);
  }

  lemma FullArePositive(ts: seq<Type>)
    requires FullAll(ts)
    ensures AllPositive(ts)
  {
    hide Full, Positive;
    forall i | 0 <= i < |ts| ensures Positive(ts[i]) {
      FullPositive(ts[i]);
    }
  }

  /** Items that are all counted right start where they stand. */
  lemma RightBefore(ts: seq<Type>, k: nat)
    requires FullAll(ts) && k <= |ts| && forall j | 0 <= j < k :: Measured(ts[j])
    ensures SumSizes(ts[..k]) == SumRealSizes(ts[..k])
  {
    hide Full, Measured, SumSizes, SumRealSizes, Positive;
    FullArePositive(ts[..k]);
    SumSizesLaw(ts[..k]);
  }

  lemma StaticAfterClash(ts: seq<Type>, k: nat, out: seq<byte>, out': seq<byte>)
    requires k < |ts| && Twins(ts, k, Sample(ts[k], true), out, out') && StaticAfter(ts, k)
    ensures Full(ts[k]) && !(Yields(ts[k], out, SumSizes(ts[..k]), false) && Yields(ts[k], out', SumSizes(ts[..k]), true))
  {
    hide Full, IsDynamic, Measured, Yields, SumSizes, SumRealSizes, EncodeAll, Encode, Packable;
    var i :| 0 <= i < k && !Measured(ts[i]);
    var at := SumSizes(ts[..k]);
    ShortBefore(ts, k, i);
    TwinsDiffer(ts, k, Sample(ts[k], true), out, out');
    SameStart(out, out', SumRealSizes(ts[..k]), at, at + 32);
    StaticFirst(ts[k], out, out', at);
  }

  /** Static items at the front of the low samples are zeros. */
  lemma ZeroFront(ts: seq<Type>, k: nat, out: seq<byte>)
    requires FullAll(ts) && k <= |ts| && (forall j | 0 <= j < k :: !IsDynamic(ts[j]))
    requires AllPackable(ts, SampleAll(ts, false)) && At(out, 0, EncodeAll(ts, SampleAll(ts, false)))
    ensures SumRealSizes(ts[..k]) <= |out| && out[..SumRealSizes(ts[..k])] == Zeros(SumRealSizes(ts[..k]))
  {
    hide Full, IsDynamic, Packable, Encode, Sample, Heads, Tails, SumSizes, SumRealSizes, Parts, SampleAll, AllPackable;
    var ps := Parts(ts, SampleAll(ts, false));
    LowFront(ts, k, SumSizes(ts));
    HeadsSplit(ps, k, SumSizes(ts));
    var z, rest := Heads(ps[..k], SumSizes(ts)), Heads(ps[k..], SumSizes(ts) + |Tails(ps[..k])|);
    AtSplit(out, 0, z + rest, Tails(ps));
    AtSplit(out, 0, z, rest);
  }

  lemma LowFront(ts: seq<Type>, k: nat, offset: nat)
    requires FullAll(ts) && k <= |ts| && (forall j | 0 <= j < k :: !IsDynamic(ts[j]))
    requires AllPackable(ts, SampleAll(ts, false))
    ensures Heads(Parts(ts, SampleAll(ts, false))[..k], offset) == Zeros(SumRealSizes(ts[..k]))
  {
    hide Full, IsDynamic, Packable, Encode, Sample, RealSize, Heads, SumRealSizes, Zeros;
    var vs, ts' := SampleAll(ts, false), ts[..k];
    assert SampleAll(ts', false) == vs[..k];
    forall j | 0 <= j < |ts'| ensures ts'[j] < TupleTy(ts') { assert ts'[j] in ts'; }
    LowHeads(TupleTy(ts'), ts', offset);
    assert Parts(ts', vs[..k]) == Parts(ts, vs)[..k];
  }

  lemma ZeroRead(out: seq<byte>, n: nat, pos: nat)
    requires pos + 32 <= n <= |out| && out[..n] == Zeros(n)
    ensures Reads(out, pos, 0)
  {
    ZeroBytes(32);
    assert out[pos..pos + 32] == out[..n][pos..pos + 32];
    assert out[pos..pos + 32] == Zeros(32);
  }

  lemma DynamicAfterClash(ts: seq<Type>, k: nat, out: seq<byte>, out': seq<byte>)
    requires k < |ts| && Twins(ts, k, Sample(ts[k], true), out, out') && DynamicAfter(ts, k)
    ensures Full(ts[k]) && !(Yields(ts[k], out, SumSizes(ts[..k]), false) && Yields(ts[k], out', SumSizes(ts[..k]), true))
  {
    hide Full, IsDynamic, Measured, Yields, SumSizes, SumRealSizes, EncodeAll, Encode, Packable, Reads, Tails;
    var at, n := SumSizes(ts[..k]), SumRealSizes(ts[..k]);
    ShortBefore(ts, k, k - 1);
    TwinsDiffer(ts, k, Sample(ts[k], true), out, out');
    ZeroFront(ts, k, out);
    SumRealPrefix(ts, k);
    assert out'[..n] == out[..n] by { SameStart(out, out', Position(ts, k), 0, n); }
    ZeroRead(out, n, at);
    ZeroRead(out, n, 0);
    ZeroRead(out', n, at);
    ZeroRead(out', n, 0);
    RefMisread(ts[k], out, out', at, 0, 0);
  }

  lemma {:induction false} SumRealPrefix(ts: seq<Type>, k: nat)
    requires k <= |ts|
    ensures SumRealSizes(ts[..k]) + SumRealSizes(ts[k..]) == SumRealSizes(ts)
    decreases k
  {
    hide RealSize;
    if k == 0 {
      assert ts[0..] == ts && ts[..0] == [];
    } else {
      SumRealPrefix(ts[1..], k - 1);
      assert ts[..k][1..] == ts[1..][..k - 1] && ts[1..][k - 1..] == ts[k..] && ts[..k][0] == ts[0];
    }
  }

  lemma {:induction false} SumSizesPrefix(ts: seq<Type>, k: nat)
    requires k <= |ts|
    ensures SumSizes(ts[..k]) + SumSizes(ts[k..]) == SumSizes(ts)
    decreases k
  {
    hide TypeSize;
    if k == 0 {
      assert ts[0..] == ts && ts[..0] == [];
    } else {
      SumSizesPrefix(ts[1..], k - 1);
      assert ts[..k][1..] == ts[1..][..k - 1] && ts[1..][k - 1..] == ts[k..] && ts[..k][0] == ts[0];
    }
  }

  lemma {:induction false} DynamicSizes(ts: seq<Type>)
    requires forall j | 0 <= j < |ts| :: IsDynamic(ts[j])
    ensures SumSizes(ts) == 32 * |ts| && SumRealSizes(ts) == 32 * |ts|
  {
    if ts != [] {
      DynamicSizes(ts[1..]);
      OtherSizes(ts[0]);
    }
  }

  lemma TailsInclude(ps: seq<Part>, k: nat)
    requires k < |ps| && ps[k].dyn
    ensures |ps[k].enc| <= |Tails(ps)|
  {
    TailsSplit(ps, k);
    assert ps[k..][0] == ps[k];
  }

  /** With one item counted short and only dynamic ones after it, how the sizes compare. */
  lemma SizesBefore(ts: seq<Type>, k: nat, i: nat)
    requires FullAll(ts) && k < i < |ts| && DynamicBefore(ts, k, i)
    ensures var s, h, e := SumSizes(ts), SumRealSizes(ts), SumRealSizes(ts[..i + 1]);
            SumRealSizes(ts[..i]) <= s && s + 32 <= h && h == e + 32 * (|ts| - i - 1) && e <= h &&
            e == SumRealSizes(ts[..i]) + RealSize(ts[i]) && s + RealSize(ts[i]) >= h && (e <= s ==> h <= 2 * s)
  {
    hide Full, Measured, IsDynamic, TypeSize, RealSize, SumSizes, SumRealSizes;
    assert ts[..|ts|] == ts;
    ShortBefore(ts, |ts|, i);
    RightBefore(ts, i);
    AroundItem(ts, i);
    DynamicSizes(ts[i + 1..]);
  }

  /** The sizes of a list around one of its items. */
  lemma AroundItem(ts: seq<Type>, i: nat)
    requires i < |ts|
    ensures SumSizes(ts) == SumSizes(ts[..i]) + TypeSize(ts[i]) + SumSizes(ts[i + 1..])
    ensures SumRealSizes(ts) == SumRealSizes(ts[..i]) + RealSize(ts[i]) + SumRealSizes(ts[i + 1..])
    ensures SumRealSizes(ts[..i + 1]) == SumRealSizes(ts[..i]) + RealSize(ts[i])
  {
    hide TypeSize, RealSize;
    SumSizesPrefix(ts, i);
    SumRealPrefix(ts, i);
    SumRealPrefix(ts, i + 1);
    assert ts[i..][1..] == ts[i + 1..] && ts[i..][0] == ts[i];
  }

  /** Two word positions are whole words apart. */
  lemma WordsApart(a: nat, b: nat)
    requires a % 32 == 0 && b % 32 == 0
    ensures (b - a) / 32 * 32 == b - a && (a < b ==> a + 32 <= b)
  {
    assert a == 32 * (a / 32) && b == 32 * (b / 32);
  }

  /** The item whose head stands where the sizes say that the tails begin. */
  lemma HeadAtSizes(ts: seq<Type>, k: nat, i: nat) returns (m: nat)
    requires FullAll(ts) && k < i < |ts| && DynamicBefore(ts, k, i) && SumRealSizes(ts[..i + 1]) <= SumSizes(ts)
    ensures i < m < |ts| && SumRealSizes(ts[..m]) == SumSizes(ts)
  {
    hide Full, Measured, IsDynamic, TypeSize, RealSize, SumSizes, SumRealSizes;
    var s, e := SumSizes(ts), SumRealSizes(ts[..i + 1]);
    SizesBefore(ts, k, i);
    SumSizesWords(ts);
    FullArePositive(ts[..i + 1]);
    SumRealWords(ts[..i + 1]);
    WordsApart(e, s);
    m := i + 1 + (s - e) / 32;
    var part := ts[..m];
    SumRealPrefix(part, i + 1);
    assert part[..i + 1] == ts[..i + 1];
    DynamicSizes(part[i + 1..]);
  }

  /** The first word of the misplaced tail is zero, or the reference of a later item. */
  lemma WordAtSizes(ts: seq<Type>, k: nat, i: nat, out: seq<byte>) returns (w: nat)
    requires FullAll(ts) && k < i < |ts| && DynamicBefore(ts, k, i) && |out| < TWO_63
    requires AllPackable(ts, SampleAll(ts, false)) && At(out, 0, EncodeAll(ts, SampleAll(ts, false)))
    ensures Reads(out, SumSizes(ts), w)
    ensures w == 0 || (SumSizes(ts) <= w &&
                       SumRealSizes(ts) + |Encode(ts[k], Sample(ts[k], false))| <= SumSizes(ts) + w)
  {
    hide Full, Measured, IsDynamic, TypeSize, RealSize, SumSizes, SumRealSizes, Encode, Packable, Sample, Heads, Tails,
         Word, Zeros;
    if SumRealSizes(ts[..i + 1]) <= SumSizes(ts) {
      w := ReferenceAtSizes(ts, k, i, out);
    } else {
      w := 0;
      ZeroAtSizes(ts, k, i, out);
    }
  }

  lemma ReferenceAtSizes(ts: seq<Type>, k: nat, i: nat, out: seq<byte>) returns (w: nat)
    requires FullAll(ts) && k < i < |ts| && DynamicBefore(ts, k, i) && |out| < TWO_63
    requires AllPackable(ts, SampleAll(ts, false)) && At(out, 0, EncodeAll(ts, SampleAll(ts, false)))
    requires SumRealSizes(ts[..i + 1]) <= SumSizes(ts)
    ensures Reads(out, SumSizes(ts), w) && SumSizes(ts) <= w
    ensures SumRealSizes(ts) + |Encode(ts[k], Sample(ts[k], false))| <= SumSizes(ts) + w
  {
    hide Full, Measured, IsDynamic, TypeSize, RealSize, SumSizes, SumRealSizes, Encode, Packable, Sample, Heads, Tails,
         Word, Zeros;
    var s, ps := SumSizes(ts), Parts(ts, SampleAll(ts, false));
    SizesBefore(ts, k, i);
    PrefixHeads(ts, |ts|, s);
    assert ts[..|ts|] == ts && ps[..|ts|] == ps;
    var m := HeadAtSizes(ts, k, i);
    PartPlaced(ps, s, out, m);
    PrefixHeads(ts, m, s);
    w := s + |Tails(ps[..m])|;
    TailsInclude(ps[..m], k);
  }

  lemma ZeroAtSizes(ts: seq<Type>, k: nat, i: nat, out: seq<byte>)
    requires FullAll(ts) && k < i < |ts| && DynamicBefore(ts, k, i) && |out| < TWO_63
    requires AllPackable(ts, SampleAll(ts, false)) && At(out, 0, EncodeAll(ts, SampleAll(ts, false)))
    requires SumSizes(ts) < SumRealSizes(ts[..i + 1])
    ensures Reads(out, SumSizes(ts), 0)
  {
    hide Full, Measured, IsDynamic, TypeSize, RealSize, SumSizes, SumRealSizes, Encode, Packable, Sample, Heads, Tails,
         Word, Zeros, At;
    var s, ps := SumSizes(ts), Parts(ts, SampleAll(ts, false));
    SizesBefore(ts, k, i);
    if IsDynamic(ts[i]) { DynamicHead(ts[i]); }
    PartPlaced(ps, s, out, i);
    PrefixHeads(ts, i, s);
    LowZero(ts[i]);
    SumSizesWords(ts);
    FullArePositive(ts[..i + 1]);
    SumRealWords(ts[..i + 1]);
    WordsApart(s, SumRealSizes(ts[..i + 1]));
    ZeroInside(out, SumRealSizes(ts[..i]), RealSize(ts[i]), s);
  }

  lemma ZeroInside(out: seq<byte>, at: nat, n: nat, pos: nat)
    requires At(out, at, Zeros(n)) && at <= pos && pos + 32 <= at + n
    ensures Reads(out, pos, 0)
  {
    ZeroBytes(32);
    var word := out[pos..pos + 32];
    forall j | 0 <= j < 32 ensures word[j] == 0 {
      assert out[at..at + n][pos - at + j] == Zeros(n)[pos - at + j];
    }
    assert word == Zeros(32);
  }

  lemma DynamicBeforeClash(ts: seq<Type>, k: nat, i: nat, out: seq<byte>, out': seq<byte>)
    requires k < i < |ts| && Twins(ts, k, Sample(ts[k], true), out, out') && DynamicBefore(ts, k, i)
    ensures Full(ts[k]) && !(Yields(ts[k], out, SumSizes(ts[..k]), false) && Yields(ts[k], out', SumSizes(ts[..k]), true))
  {
    hide Full, IsDynamic, Measured, Yields, SumSizes, SumRealSizes, EncodeAll, Encode, Packable, Word, Heads, Tails;
    var at, s, h := SumSizes(ts[..k]), SumSizes(ts), SumRealSizes(ts);
    SizesBefore(ts, k, i);
    TwinsDiffer(ts, k, Sample(ts[k], true), out, out');
    ReferenceAt(ts, k, i, out);
    var w := WordAtSizes(ts, k, i, out);
    SameStart(out, out', h, at, at + 32);
    SameStart(out, out', h, s, s + 32);
    var end := h + |Encode(ts[k], Sample(ts[k], false))|;
    if w != 0 && s + w <= |out| {
      Window(out, out', end, s + w, |out|);
      assert out[s + w..] == out[s + w..|out|] && out'[s + w..] == out'[s + w..|out|];
    }
    RefMisread(ts[k], out, out', at, s, w);
  }

  /** The first dynamic item refers to where the sizes say that the tails begin. */
  lemma ReferenceAt(ts: seq<Type>, k: nat, i: nat, out: seq<byte>)
    requires FullAll(ts) && k < i < |ts| && DynamicBefore(ts, k, i) && |out| < TWO_63
    requires AllPackable(ts, SampleAll(ts, false)) && At(out, 0, EncodeAll(ts, SampleAll(ts, false)))
    ensures Reads(out, SumSizes(ts[..k]), SumSizes(ts)) && SumSizes(ts[..k]) + 32 <= SumRealSizes(ts)
    ensures Position(ts, k) == SumRealSizes(ts)
  {
    hide Full, IsDynamic, Measured, SumSizes, SumRealSizes, EncodeAll, Packable, DynamicBefore, FullAll, Sample, Reads, At,
         Position, AllPackable, Tails, Parts, SampleAll, Word;
    SizesBefore(ts, k, i);
    FirstDynamic(ts, k, i);
    ItemReference(ts, k, out);
    BlockLong(ts, out);
    WordRead(out, SumSizes(ts[..k]), SumSizes(ts));
  }

  lemma WordRead(out: seq<byte>, pos: nat, w: nat)
    requires w < TWO_63 && At(out, pos, Word(w))
    ensures Reads(out, pos, w)
  {
    hide Word;
  }

  lemma BlockLong(ts: seq<Type>, out: seq<byte>)
    requires AllPackable(ts, SampleAll(ts, false)) && At(out, 0, EncodeAll(ts, SampleAll(ts, false)))
    ensures SumRealSizes(ts) <= |out|
  {
    hide Packable, Encode, IsDynamic, Sample, Heads, Tails, Parts, SampleAll, SumSizes, SumRealSizes;
    HeadsLength(ts, SampleAll(ts, false), SumSizes(ts));
  }

  lemma FirstDynamic(ts: seq<Type>, k: nat, i: nat)
    requires FullAll(ts) && k < i < |ts| && DynamicBefore(ts, k, i) && AllPackable(ts, SampleAll(ts, false))
    ensures IsDynamic(ts[k]) && Tails(Parts(ts, SampleAll(ts, false))[..k]) == []
    ensures SumSizes(ts[..k]) == SumRealSizes(ts[..k]) && Position(ts, k) == SumRealSizes(ts)
  {
    hide Full, IsDynamic, Measured, SumSizes, SumRealSizes, Encode, Packable, Tails, Sample;
    RightBefore(ts, k);
    StaticTails(Parts(ts, SampleAll(ts, false))[..k]);
  }

  // ---- the values that do not come back ------------------------------------------------------------------

  lemma LaidParts(t: Type)
    requires Full(t)
    ensures IsList(t) ==> (Laid(t) <==> LaidAll(SampleParts(t)))
    ensures !IsList(t) ==> Laid(t)
  {
    hide Measured, IsDynamic;
    if t.SliceTy? || t.ArrayTy? {
      var ts := SampleParts(t);
      assert ts[0] == t.elem;
      if LaidAll(ts) && |ts| > 1 { assert Measured(ts[0]); }
      if Laid(t) { RepeatLaid(t.elem, |ts|); }
    }
  }

  lemma SomeOutOfLine(ts: seq<Type>)
    requires !Aligned(ts)
    ensures exists k :: OutOfLine(ts, k)
  {
    hide OutOfLine, Aligned;
    var k := OutOfLineExists(ts);
  }

  /** The item that spoils the list: one that is read from the wrong words, or one that is spoilt itself. */
  ghost function Target(ts: seq<Type>): (k: nat)
    requires !LaidAll(ts)
    ensures k < |ts| && if Aligned(ts) then !Laid(ts[k]) else OutOfLine(ts, k)
  {
    if Aligned(ts) then
      var k :| 0 <= k < |ts| && !Laid(ts[k]);
      k
    else
      SomeOutOfLine(ts);
      var k :| OutOfLine(ts, k);
      k
  }

  /** The low sample with ones at the spoilt place. */
  ghost function Spot(t: Type): (v: Value)
    requires Full(t) && !Laid(t)
    decreases t
  {
    LaidParts(t);
    SampleList(t, false);
    ListVal(SpotAll(t, SampleParts(t)))
  }

  ghost function SpotAt(whole: Type, ts: seq<Type>): (v: Value)
    requires FullAll(ts) && !LaidAll(ts) && forall i | 0 <= i < |ts| :: ts[i] < whole
    decreases whole, 0
  {
    if Aligned(ts) then Spot(ts[Target(ts)]) else Sample(ts[Target(ts)], true)
  }

  ghost function SpotAll(whole: Type, ts: seq<Type>): (vs: seq<Value>)
    requires FullAll(ts) && !LaidAll(ts) && forall i | 0 <= i < |ts| :: ts[i] < whole
    ensures |vs| == |ts|
    decreases whole, 1
  {
    SampleAll(ts, false)[Target(ts) := SpotAt(whole, ts)]
  }

  /** It takes the same room as the low sample. */
  lemma {:induction false} SpotFits(t: Type)
    requires Full(t) && !Laid(t)
    ensures Packable(t, Sample(t, false)) && Packable(t, Spot(t))
    ensures |Encode(t, Spot(t))| == |Encode(t, Sample(t, false))|
    decreases t
  {
    hide Full, Laid, Sample, SpotAll, EncodeAll;
    LaidParts(t);
    SampleList(t, false);
    SamplePackable(t, false);
    var ts := SampleParts(t);
    SpotAllFits(t, ts);
    SpotPackable(t, ts, SpotAll(t, ts));
  }

  lemma SpotPackable(t: Type, ts: seq<Type>, vs: seq<Value>)
    requires Full(t) && IsList(t) && ts == SampleParts(t) && AllPackable(ts, vs)
    ensures Packable(t, ListVal(vs))
  {
    SampleList(t, false);
  }

  lemma {:induction false} SpotAllFits(whole: Type, ts: seq<Type>)
    requires FullAll(ts) && !LaidAll(ts) && forall i | 0 <= i < |ts| :: ts[i] < whole
    ensures Swapped(ts, Target(ts), SpotAt(whole, ts))
    ensures AllPackable(ts, SampleAll(ts, false)) && AllPackable(ts, SpotAll(whole, ts))
    ensures |EncodeAll(ts, SpotAll(whole, ts))| == |EncodeAll(ts, SampleAll(ts, false))|
    decreases whole, 0
  {
    hide Full, Laid, Sample, Aligned, OutOfLine, EncodeAll, Encode, Packable, IsDynamic, RealSize, Tails;
    var k := Target(ts);
    SampleAllPackable(ts, false);
    if Aligned(ts) {
      SpotFits(ts[k]);
    } else {
      SampleLength(ts[k]);
    }
    var a, b := SwapItem(ts, k, SpotAt(whole, ts));
  }

  /** Two encodings of the type are placed alike, and only they differ. */
  ghost predicate Paired(t: Type, x: Value, out: seq<byte>, out': seq<byte>, index: nat, offset: nat)
    requires Packable(t, Sample(t, false)) && Packable(t, x)
  {
    Placed(t, Sample(t, false), out, index, offset) && Placed(t, x, out', index, offset) && |out| == |out'| &&
    |Encode(t, x)| == |Encode(t, Sample(t, false))| &&
    var q, n := if IsDynamic(t) then offset else index, |Encode(t, x)|;
    out[..q] == out'[..q] && out[q + n..] == out'[q + n..]
  }

  lemma BlockRead(t: Type, vs: seq<Value>, out: seq<byte>, index: nat, offset: nat)
    requires IsList(t) && Full(t) && AllPackable(SampleParts(t), vs) && Packable(t, ListVal(vs))
    requires forall i | 0 <= i < |SampleParts(t)| :: SampleParts(t)[i] < t
    requires Placed(t, ListVal(vs), out, index, offset)
    ensures Begin(t, index, offset) <= |out| && At(out[Begin(t, index, offset)..], 0, EncodeAll(SampleParts(t), vs))
    ensures Decode(t, out, index).Some? ==>
              Decode(t, out, index) == AsList(DecodeAll(t, SampleParts(t), out[Begin(t, index, offset)..], 0))
  {
    hide Full, EncodeAll, DecodeAll, Packable, Word, Decode;
    var begin := Begin(t, index, offset);
    assert PartTypes(t, |vs|) == SampleParts(t);
    if t.SliceTy? {
      AtSplit(out, offset, Word(|vs|), EncodeAll(SampleParts(t), vs));
      AtDrop(out, begin, EncodeAll(SampleParts(t), vs));
      SliceRead(t, out, index, offset);
    } else {
      AtDrop(out, begin, EncodeAll(SampleParts(t), vs));
      if index + 32 <= |out| {
        DecodeBlock(t, out, index, begin);
      } else {
        PastEnd(t, out, index);
      }
    }
  }

  lemma PastEnd(t: Type, out: seq<byte>, index: nat)
    requires index + 32 > |out|
    ensures Decode(t, out, index) == None
  {
  }

  lemma SliceRead(t: Type, out: seq<byte>, index: nat, offset: nat)
    requires t.SliceTy? && Reads(out, index, offset) && Reads(out, offset, 2) && offset + 32 <= |out|
    requires forall i | 0 <= i < |SampleParts(t)| :: SampleParts(t)[i] < t
    ensures Decode(t, out, index).Some? ==>
              Decode(t, out, index) == AsList(DecodeAll(t, SampleParts(t), out[offset + 32..], 0))
  {
    hide Word, ToNat, DecodeAll;
    SmallWord(offset);
    SmallWord(2);
  }

  /** Of a spoilt type the low sample and the one with the spot do not both come back. */
  lemma {:induction false} TypeClash(t: Type, out: seq<byte>, out': seq<byte>, index: nat, offset: nat)
    requires Full(t) && !Laid(t) && Packable(t, Sample(t, false)) && Packable(t, Spot(t))
    requires Paired(t, Spot(t), out, out', index, offset)
    ensures !(Decode(t, out, index) == Some(Normal(t, Sample(t, false))) &&
              Decode(t, out', index) == Some(Normal(t, Spot(t))))
    decreases t, 1
  {
    hide Full, Laid, Sample, EncodeAll, Decode, Normal, Packable, IsDynamic, Encode, LaidAll, FullAll, DecodeAll,
         SampleParts, Begin, Placed, SpotAt, Target, Swapped, At;
    LaidParts(t);
    SampleList(t, false);
    var ts := SampleParts(t);
    SpotAllFits(t, ts);
    SampleNormal(t, false);
    SpotNormal(t, SpotAll(t, ts));
    BlockRead(t, SampleAll(ts, false), out, index, offset);
    BlockRead(t, SpotAll(t, ts), out', index, offset);
    var begin := Begin(t, index, offset);
    SameAfter(t, SpotAll(t, ts), out, out', index, offset);
    ListClash(t, ts, out[begin..], out'[begin..]);
  }

  lemma SpotNormal(t: Type, vs: seq<Value>)
    requires IsList(t) && Full(t) && AllPackable(SampleParts(t), vs) && Packable(t, ListVal(vs))
    ensures Normal(t, ListVal(vs)) == ListVal(NormalAll(SampleParts(t), vs))
  {
    hide Full, Packable, Normal;
    NormalList(t, ListVal(vs));
    assert PartTypes(t, |vs|) == SampleParts(t);
  }

  /** After the parts of the two lists the bytes are the same. */
  lemma SameAfter(t: Type, vs: seq<Value>, out: seq<byte>, out': seq<byte>, index: nat, offset: nat)
    requires IsList(t) && Full(t) && AllPackable(SampleParts(t), vs) && Packable(t, ListVal(vs))
    requires Packable(t, Sample(t, false)) && AllPackable(SampleParts(t), SampleAll(SampleParts(t), false))
    requires Sample(t, false) == ListVal(SampleAll(SampleParts(t), false))
    requires Paired(t, ListVal(vs), out, out', index, offset)
    ensures var begin, n := Begin(t, index, offset), |EncodeAll(SampleParts(t), SampleAll(SampleParts(t), false))|;
            begin + n <= |out| && out[begin..][n..] == out'[begin..][n..] && |out| == |out'| && |out| < TWO_63
  {
    hide Full, Packable, EncodeAll, Sample, Word;
    var ts := SampleParts(t);
    assert PartTypes(t, |vs|) == ts;
    var begin, n := Begin(t, index, offset), |EncodeAll(ts, SampleAll(ts, false))|;
    assert out[begin..][n..] == out[begin + n..] && out'[begin..][n..] == out'[begin + n..];
  }

  /** The item at k has been read back in both blocks. */
  lemma ItemBack(whole: Type, ts: seq<Type>, vs: seq<Value>, out: seq<byte>, k: nat)
    requires k < |ts| && AllPackable(ts, vs) && forall i | 0 <= i < |ts| :: ts[i] < whole
    requires DecodeAll(whole, ts, out, 0) == Some(NormalAll(ts, vs))
    ensures Decode(ts[k], out, SumSizes(ts[..k])) == Some(Normal(ts[k], vs[k]))
  {
    hide DecodeAll, Decode, Packable, Normal, TypeSize;
    DecodeItem(whole, ts, out, 0, k);
  }

  lemma {:induction false} ListClash(whole: Type, ts: seq<Type>, out: seq<byte>, out': seq<byte>)
    requires FullAll(ts) && !LaidAll(ts) && forall i | 0 <= i < |ts| :: ts[i] < whole
    requires Twins(ts, Target(ts), SpotAt(whole, ts), out, out')
    requires AllPackable(ts, SampleAll(ts, false)) && AllPackable(ts, SpotAll(whole, ts))
    ensures !(DecodeAll(whole, ts, out, 0) == Some(NormalAll(ts, SampleAll(ts, false))) &&
              DecodeAll(whole, ts, out', 0) == Some(NormalAll(ts, SpotAll(whole, ts))))
    decreases whole, 0
  {
    hide Full, Laid, Sample, Aligned, OutOfLine, EncodeAll, Encode, Packable, IsDynamic, DecodeAll, Decode, Normal,
         Twins, NormalAll, SumSizes;
    if DecodeAll(whole, ts, out, 0) == Some(NormalAll(ts, SampleAll(ts, false))) &&
       DecodeAll(whole, ts, out', 0) == Some(NormalAll(ts, SpotAll(whole, ts))) {
      var k := Target(ts);
      ItemBack(whole, ts, SampleAll(ts, false), out, k);
      ItemBack(whole, ts, SpotAll(whole, ts), out', k);
      if Aligned(ts) {
        SpotFits(ts[k]);
        var offset := PairPlaced(ts, k, Spot(ts[k]), out, out');
        TypeClash(ts[k], out, out', SumSizes(ts[..k]), offset);
      } else {
        LineClash(ts, k, out, out');
      }
    }
  }

  lemma LineClash(ts: seq<Type>, k: nat, out: seq<byte>, out': seq<byte>)
    requires k < |ts| && OutOfLine(ts, k) && Twins(ts, k, Sample(ts[k], true), out, out')
    requires Packable(ts[k], Sample(ts[k], false)) && Packable(ts[k], Sample(ts[k], true))
    ensures var at := SumSizes(ts[..k]);
            !(Decode(ts[k], out, at) == Some(Normal(ts[k], Sample(ts[k], false))) &&
              Decode(ts[k], out', at) == Some(Normal(ts[k], Sample(ts[k], true))))
  {
    hide Full, Sample, EncodeAll, Encode, Packable, IsDynamic, Measured, Decode, Normal, SumSizes, StaticAfter,
         DynamicAfter, DynamicBefore, Twins;
    if StaticAfter(ts, k) {
      StaticAfterClash(ts, k, out, out');
    } else if DynamicAfter(ts, k) {
      DynamicAfterClash(ts, k, out, out');
    } else {
      var i :| k < i < |ts| && DynamicBefore(ts, k, i);
      DynamicBeforeClash(ts, k, i, out, out');
    }
  }

  /** In an aligned list the differing items are placed alike. */
  lemma PairPlaced(ts: seq<Type>, k: nat, x: Value, out: seq<byte>, out': seq<byte>) returns (offset: nat)
    requires k < |ts| && Aligned(ts) && Twins(ts, k, x, out, out')
    requires Packable(ts[k], Sample(ts[k], false)) && Packable(ts[k], x)
    ensures Paired(ts[k], x, out, out', SumSizes(ts[..k]), offset)
  {
    hide Full, Sample, Encode, Packable, IsDynamic, Measured, SumSizes, SumRealSizes, Heads, Tails, EncodeAll, Parts,
         AllPackable, FullAll, At, Word;
    TwinsDiffer(ts, k, x, out, out');
    RightBefore(ts, k);
    offset := SumSizes(ts) + |Tails(Parts(ts, SampleAll(ts, false))[..k])|;
    var e, at := Encode(ts[k], Sample(ts[k], false)), SumSizes(ts[..k]);
    Stands(out, Position(ts, k), e);
    Stands(out', Position(ts, k), Encode(ts[k], x));
    if IsDynamic(ts[k]) {
      AllRight(ts, k);
      ItemReference(ts, k, out);
      SameStart(out, out', Position(ts, k), at, at + 32);
      SameWord(out, out', at, Word(offset));
    }
  }

  lemma Stands(out: seq<byte>, pos: nat, b: seq<byte>)
    requires pos + |b| <= |out| && out[pos..pos + |b|] == b
    ensures At(out, pos, b)
  {
  }

  lemma SameWord(out: seq<byte>, out': seq<byte>, pos: nat, b: seq<byte>)
    requires |b| == 32 && At(out, pos, b) && pos + 32 <= |out'| && out[pos..pos + 32] == out'[pos..pos + 32]
    ensures At(out', pos, b)
  {
  }

  lemma AllRight(ts: seq<Type>, k: nat)
    requires FullAll(ts) && Aligned(ts) && k < |ts| && IsDynamic(ts[k])
    ensures SumSizes(ts) == SumRealSizes(ts)
  {
    hide Full, IsDynamic, Measured, SumSizes, SumRealSizes;
    assert ts[..|ts|] == ts;
    RightBefore(ts, |ts|);
  }

  lemma ItemReference(ts: seq<Type>, k: nat, out: seq<byte>)
    requires FullAll(ts) && k < |ts| && IsDynamic(ts[k]) && AllPackable(ts, SampleAll(ts, false))
    requires At(out, 0, EncodeAll(ts, SampleAll(ts, false)))
    ensures var ps := Parts(ts, SampleAll(ts, false));
            At(out, SumRealSizes(ts[..k]), Word(SumSizes(ts) + |Tails(ps[..k])|)) &&
            SumRealSizes(ts[..k]) + 32 <= Position(ts, k)
  {
    hide Full, Sample, Encode, Packable, IsDynamic, SumSizes, SumRealSizes, Heads, Tails, Word, At;
    var ps, s := Parts(ts, SampleAll(ts, false)), SumSizes(ts);
    PartPlaced(ps, s, out, k);
    PrefixHeads(ts, k, s);
    PrefixHeads(ts, |ts|, s);
    assert ts[..|ts|] == ts && ps[..|ts|] == ps;
  }

  // ---- exactly when --------------------------------------------------------------------------------------

  /** A list of types that is not laid out has two values, of the same size, of which at most one comes back. */
  lemma NotLaidFails(ts: seq<Type>) returns (vs: seq<Value>)
    requires FullAll(ts) && !LaidAll(ts) && AllPackable(ts, SampleAll(ts, false))
    requires |EncodeAll(ts, SampleAll(ts, false))| < TWO_63
    ensures AllPackable(ts, vs) && |EncodeAll(ts, vs)| == |EncodeAll(ts, SampleAll(ts, false))| && !Survives(ts, vs)
  {
    hide Full, Laid, LaidAll, FullAll, EncodeAll, Packable, DecodeAll, NormalAll;
    var whole := TupleTy(ts);
    forall i | 0 <= i < |ts| ensures ts[i] < whole { assert ts[i] in ts; }
    SpotAllFits(whole, ts);
    var low, spot := SampleAll(ts, false), SpotAll(whole, ts);
    ListClash(whole, ts, EncodeAll(ts, low), EncodeAll(ts, spot));
    vs := if Survives(ts, low) then spot else low;
  }

  /** The round trip holds for all values exactly if the list of types is laid out. */
  lemma RoundTripExactly(ts: seq<Type>)
    requires FullAll(ts) && AllPackable(ts, SampleAll(ts, false)) && |EncodeAll(ts, SampleAll(ts, false))| < TWO_63
    ensures LaidAll(ts) <==> forall vs | AllPackable(ts, vs) && |EncodeAll(ts, vs)| < TWO_63 :: Survives(ts, vs)
  {
    hide Full, Laid, LaidAll, FullAll, EncodeAll, Packable, UnpackValues, NormalAll, AllPositive, Representable, RoomAll;
    FullArePositive(ts);
    if LaidAll(ts) {
      forall vs | AllPackable(ts, vs) && |EncodeAll(ts, vs)| < TWO_63 ensures Survives(ts, vs) {
        assert EncodeAll(ts, vs) + [] == EncodeAll(ts, vs);
        RoundTrip(ts, vs, []);
      }
    } else {
      var vs := NotLaidFails(ts);
    }
  }

  /** Two tuples of two words. */
  const PAIRS: Type := ArrayTy(TupleTy([UINT256, UINT256]), 2)

  /** A lone fixed array of two-word tuples is counted short, and comes back all the same; with an argument behind
      it, some value of that one does not. */
  lemma LoneArray(v: Value) returns (n: nat)
    requires Packable(PAIRS, v)
    ensures !Measured(PAIRS) && AllPackable([PAIRS], [v]) && Survives([PAIRS], [v])
    ensures AllPackable([PAIRS] + [UINT256], [v] + [IntVal(n)]) && !Survives([PAIRS] + [UINT256], [v] + [IntVal(n)])
  {
    hide Packable, Positive, Measured, Laid, EncodeAll, Encode, UnpackValues, NormalAll, Representable, RoomAll, Survives;
    PairsLaid();
    var ts, vs := [PAIRS], [v];
    assert AllPositive(ts) && LaidAll(ts) && !Measured(ts[0]);
    PairsSize(v);
    Survived(ts, vs);
    n := MismeasuredFails(ts, vs);
  }

  lemma Survived(ts: seq<Type>, vs: seq<Value>)
    requires AllPositive(ts) && LaidAll(ts) && AllPackable(ts, vs) && |EncodeAll(ts, vs)| < TWO_63
    ensures Survives(ts, vs)
  {
    hide AllPositive, LaidAll, AllPackable, EncodeAll, UnpackValues, NormalAll, Representable, RoomAll;
    assert EncodeAll(ts, vs) + [] == EncodeAll(ts, vs);
    RoundTrip(ts, vs, []);
  }

  lemma PairsLaid()
    ensures !Measured(PAIRS) && Positive(PAIRS) && Laid(PAIRS) && Aligned([PAIRS]) && RealSize(PAIRS) == 128
    ensures !IsDynamic(PAIRS)
  {
    PairStatic();
    PairSizes();
    assert Laid(PAIRS.elem) && Positive(PAIRS.elem) by {
      assert Measured(UINT256) && Laid(UINT256) && Positive(UINT256);
    }
  }

  lemma PairStatic()
    ensures !IsDynamic(PAIRS.elem) && !IsDynamic(PAIRS)
  {
    assert !IsDynamic(UINT256);
    assert IsDynamic(PAIRS) == IsDynamic(PAIRS.elem);
  }

  lemma PairSizes()
    ensures TypeSize(PAIRS.elem) == 64 && RealSize(PAIRS.elem) == 64 && TypeSize(PAIRS) == 64 && RealSize(PAIRS) == 128
  {
    PairStatic();
    var es := PAIRS.elem.elems;
    assert es[1..] == [UINT256] && es[1..][1..] == [];
    assert SumSizes(es[1..]) == TypeSize(UINT256) + SumSizes([]) && SumRealSizes(es[1..]) == RealSize(UINT256) + SumRealSizes([]);
    assert SumSizes(es) == TypeSize(UINT256) + SumSizes(es[1..]) && SumRealSizes(es) == RealSize(UINT256) + SumRealSizes(es[1..]);
  }

  lemma PairsSize(v: Value)
    requires Packable(PAIRS, v)
    ensures AllPackable([PAIRS], [v]) && |EncodeAll([PAIRS], [v])| == 128
  {
    hide Packable, Encode, IsDynamic, RealSize;
    PairsLaid();
    var ps := Parts([PAIRS], [v]);
    HeadsLength([PAIRS], [v], SumSizes([PAIRS]));
    assert SumRealSizes([PAIRS]) == RealSize(PAIRS) by { assert [PAIRS][1..] == []; }
    StaticTails(ps);
  }

  // ---- types that take no room -----------------------------------------------------------------------------

  /** A zero-length array in place, or a tuple of nothing but such. */
  predicate Blank(t: Type)
    decreases t
  {
    match t
    case ArrayTy(e, n) => n == 0 && !IsDynamic(e)
    case TupleTy(es) => forall i | 0 <= i < |es| :: Blank(es[i])
    case _ => false
  }

  /** The one value of such a type. */
  function Nothing(t: Type): (v: Value)
    decreases t
  {
    if t.TupleTy? then ListVal(NothingAll(t, t.elems)) else ListVal([])
  }

  function NothingAll(ghost whole: Type, ts: seq<Type>): (vs: seq<Value>)
    requires forall i | 0 <= i < |ts| :: ts[i] < whole
    ensures |vs| == |ts| && forall i | 0 <= i < |ts| :: vs[i] == Nothing(ts[i])
    decreases whole, 0
  {
    seq(|ts|, i requires 0 <= i < |ts| => Nothing(ts[i]))
  }

  lemma {:induction false} BlankSize(t: Type)
    requires Blank(t)
    ensures !IsDynamic(t) && TypeSize(t) == 0
    decreases t, 1
  {
    if t.TupleTy? {
      forall i | 0 <= i < |t.elems| ensures !IsDynamic(t.elems[i]) { BlankSize(t.elems[i]); }
      BlankSizes(t, t.elems);
    }
  }

  lemma {:induction false} BlankSizes(whole: Type, ts: seq<Type>)
    requires forall i | 0 <= i < |ts| :: ts[i] < whole && Blank(ts[i])
    ensures SumSizes(ts) == 0
    decreases whole, 0, |ts|
  {
    if ts != [] {
      BlankSize(ts[0]);
      BlankSizes(whole, ts[1..]);
    }
  }

  /** Its only value packs to nothing. */
  lemma {:induction false} BlankPacks(t: Type, v: Value)
    requires Blank(t) && Packable(t, v)
    ensures v == Nothing(t) && Encode(t, v) == []
    decreases t
  {
    var ts := PartTypes(t, |v.items|);
    forall i | 0 <= i < |v.items| ensures v.items[i] == Nothing(ts[i]) && Parts(ts, v.items)[i] == Part(false, []) {
      BlankPacks(ts[i], v.items[i]);
      BlankSize(ts[i]);
    }
    assert v.items == Nothing(t).items;
    NoBytes(Parts(ts, v.items), SumSizes(ts));
  }

  lemma {:induction false} NoBytes(ps: seq<Part>, offset: nat)
    requires forall i | 0 <= i < |ps| :: ps[i] == Part(false, [])
    ensures Heads(ps, offset) == [] && Tails(ps) == []
  {
    if ps != [] {
      NoBytes(ps[1..], offset);
    }
  }

  /** It unpacks exactly where 32 more bytes are left at its head, though it took none. */
  lemma {:induction false} BlankUnpacks(t: Type, out: seq<byte>, index: nat)
    requires Blank(t)
    ensures Decode(t, out, index) == if index + 32 <= |out| then Some(Nothing(t)) else None
    decreases t
  {
    BlankSize(t);
    if index + 32 <= |out| {
      if t.TupleTy? {
        BlankList(t, t.elems, out[index..]);
      } else {
        assert Repeat(t.elem, 0) == [];
        assert DecodeAll(t, Repeat(t.elem, 0), out[index..], 0) == Some([]);
        assert DecodeEach(t, out[index..], 0) == Some([]);
      }
    }
  }

  lemma {:induction false} BlankList(whole: Type, ts: seq<Type>, out: seq<byte>)
    requires 32 <= |out| && forall i | 0 <= i < |ts| :: ts[i] < whole && Blank(ts[i])
    ensures DecodeAll(whole, ts, out, 0) == Some(NothingAll(whole, ts))
    decreases whole, |ts|
  {
    hide Decode, Blank, Nothing, TypeSize;
    if ts != [] {
      BlankUnpacks(ts[0], out, 0);
      BlankSize(ts[0]);
      BlankList(whole, ts[1..], out);
      assert NothingAll(whole, ts) == [Nothing(ts[0])] + NothingAll(whole, ts[1..]);
    } else {
      assert NothingAll(whole, ts) == [];
    }
  }

  /** So as a lone argument it comes back only if a word of other data follows it. */
  lemma BlankAlone(t: Type, v: Value, suffix: seq<byte>)
    requires Blank(t) && Packable(t, v)
    ensures AllPackable([t], [v])
    ensures UnpackValues([t], EncodeAll([t], [v]) + suffix) == if 32 <= |suffix| then Some([v]) else None
  {
    hide Decode, Encode, Packable, Blank, Nothing, UnpackValues, TypeSize, IsDynamic;
    BlankPacks(t, v);
    BlankSize(t);
    var ps := Parts([t], [v]);
    assert ps == [Part(false, [])];
    NoBytes(ps, SumSizes([t]));
    assert EncodeAll([t], [v]) + suffix == suffix;
    BlankUnpacks(t, suffix, 0);
    LoneItem(t, suffix);
  }

  lemma LoneItem(t: Type, out: seq<byte>)
    ensures UnpackValues([t], out) == match Decode(t, out, 0) case None => None case Some(v) => Some([v])
  {
    hide Decode, TypeSize;
    assert [t][0] == t && [t][1..] == [];
    var whole := TupleTy([t]);
    var v := Decode(t, out, 0);
    assert DecodeAll(whole, [t][1..], out, 0 + TypeSize([t][0])) == Some([]);
    if v.Some? { assert [v.value] + [] == [v.value]; }
    assert DecodeAll(whole, [t], out, 0) == match v case None => None case Some(x) => Some([x]);
  }

  /** For such a type there is room exactly where 32 bytes are left. */
  lemma {:induction false} BlankRoom(t: Type, v: Value, len: nat, index: nat, offset: nat)
    requires Blank(t) && Packable(t, v)
    ensures Room(t, v, len, index, offset) <==> index + 32 <= len
    decreases t
  {
    BlankSize(t);
    if index + 32 <= len {
      assert Begin(t, index, offset) == index;
      if t.TupleTy? {
        BlankParts(t, t.elems, v.items, len - index, SumSizes(t.elems));
      } else {
        assert v.items == [] && PartTypes(t, 0) == [];
        assert ListRoom(t, v, len, index);
      }
    }
  }

  lemma {:induction false} BlankParts(whole: Type, ts: seq<Type>, vs: seq<Value>, len: nat, offset: nat)
    requires 32 <= len && AllPackable(ts, vs) && forall i | 0 <= i < |ts| :: ts[i] < whole && Blank(ts[i])
    ensures PartsRoom(ts, vs, len, 0, offset)
    decreases whole, |ts|
  {
    hide Blank, Packable, Room, TypeSize, IsDynamic, Encode;
    if vs != [] {
      BlankRoom(ts[0], vs[0], len, 0, offset);
      BlankSize(ts[0]);
      BlankParts(whole, ts[1..], vs[1..], len, offset);
    }
  }

  /** Wherever a type that takes no room stands in the list, 32 bytes are left. */
  ghost predicate BlanksFollowed(ts: seq<Type>, len: nat, start: nat) {
    forall i | 0 <= i < |ts| && Blank(ts[i]) :: start + SumSizes(ts[..i]) + 32 <= len
  }

  /** Arguments some of which take no room, the rest of types that always have it: all come back exactly if 32 bytes
      of heads, tails or other data follow each of the former. */
  lemma BlankAmong(ts: seq<Type>, vs: seq<Value>, suffix: seq<byte>)
    requires LaidAll(ts) && AllPackable(ts, vs) && forall i | 0 <= i < |ts| :: Blank(ts[i]) || Positive(ts[i])
    requires |EncodeAll(ts, vs) + suffix| < TWO_63
    ensures UnpackValues(ts, EncodeAll(ts, vs) + suffix) ==
            if BlanksFollowed(ts, |EncodeAll(ts, vs) + suffix|, 0) then Some(NormalAll(ts, vs)) else None
  {
    hide Laid, Blank, Positive, Packable, EncodeAll, UnpackValues, NormalAll, Representable, BlanksFollowed, Measured;
    var out := EncodeAll(ts, vs) + suffix;
    RoundTrip(ts, vs, suffix);
    MixedRoom(ts, vs, out);
  }

  lemma MixedRoom(ts: seq<Type>, vs: seq<Value>, out: seq<byte>)
    requires LaidAll(ts) && AllPackable(ts, vs) && forall i | 0 <= i < |ts| :: Blank(ts[i]) || Positive(ts[i])
    requires |out| < TWO_63 && At(out, 0, EncodeAll(ts, vs))
    ensures RoomAll(ts, vs, |out|) <==> BlanksFollowed(ts, |out|, 0)
  {
    hide Word, Blank, Packable, Positive, Laid, Encode, IsDynamic, Measured, PartsRoom, BlanksFollowed;
    var ps := Parts(ts, vs);
    AtSplit(out, 0, Heads(ps, SumSizes(ts)), Tails(ps));
    HeadsLength(ts, vs, SumSizes(ts));
    if forall i | 0 <= i < |ts| :: Measured(ts[i]) {
      MeasuredSums(ts);
    } else {
      assert !Measured(ts[|ts| - 1]);
      StaticTails(ps);
      ShortSums(ts);
    }
    MixedItems(ts, vs, out, 0, SumSizes(ts));
  }

  lemma ShortSums(ts: seq<Type>)
    requires forall i | 0 <= i < |ts| :: Blank(ts[i]) || Positive(ts[i])
    ensures SumSizes(ts) <= SumRealSizes(ts)
  {
    if ts != [] {
      hide Blank, Positive, TypeSize, RealSize;
      if Positive(ts[0]) { TypeSizeLaw(ts[0]); } else { BlankSize(ts[0]); }
      ShortSums(ts[1..]);
    }
  }

  lemma {:induction false} MixedItems(ts: seq<Type>, vs: seq<Value>, out: seq<byte>, start: nat, offset: nat)
    requires forall i | 0 <= i < |ts| :: Laid(ts[i]) && (Blank(ts[i]) || Positive(ts[i]))
    requires forall i | 0 <= i < |ts| - 1 :: Measured(ts[i])
    requires AllPackable(ts, vs)
    requires |out| < TWO_63
    requires At(out, start, Heads(Parts(ts, vs), offset)) && At(out, offset, Tails(Parts(ts, vs)))
    ensures PartsRoom(ts, vs, |out|, start, offset) <==> BlanksFollowed(ts, |out|, start)
    decreases vs
  {
    hide Word, Blank, Packable, Positive, Laid, Encode, TypeSize, IsDynamic, At, Measured, Room, BlanksFollowed;
    NoneFollowed(ts, |out|, start);
    if vs != [] {
      var ps := Parts(ts, vs);
      assert ps[1..] == Parts(ts[1..], vs[1..]);
      var offset' := FirstPlaced(ps, out, start, offset);
      if |ts| > 1 {
        HeadAdvance(ts[0], vs[0]);
        MixedItems(ts[1..], vs[1..], out, start + TypeSize(ts[0]), offset');
      } else {
        NoneFollowed(ts[1..], |out|, start + TypeSize(ts[0]));
      }
      if Blank(ts[0]) {
        BlankRoom(ts[0], vs[0], |out|, start, offset);
      } else {
        PlacedRoom(ts[0], vs[0], out, start, offset);
      }
    }
  }

  lemma NoneFollowed(ts: seq<Type>, len: nat, start: nat)
    ensures ts == [] ==> BlanksFollowed(ts, len, start)
    ensures ts != [] ==> (BlanksFollowed(ts, len, start) <==>
                          (Blank(ts[0]) ==> start + 32 <= len) && BlanksFollowed(ts[1..], len, start + TypeSize(ts[0])))
  {
    hide Blank, TypeSize;
    if ts != [] {
      assert SumSizes(ts[..0]) == 0;
      forall i | 0 < i < |ts| ensures SumSizes(ts[..i]) == TypeSize(ts[0]) + SumSizes(ts[1..][..i - 1]) && ts[1..][i - 1] == ts[i] {
        assert ts[..i][1..] == ts[1..][..i - 1];
      }
      if BlanksFollowed(ts, len, start) {
        forall i | 0 <= i < |ts[1..]| && Blank(ts[1..][i])
          ensures start + TypeSize(ts[0]) + SumSizes(ts[1..][..i]) + 32 <= len
        {
          assert ts[1..][i] == ts[i + 1];
        }
      }
    }
  }
}
