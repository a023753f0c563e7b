/** Unpacking what was packed: the law the ABI codec exists for. */
module AbiRoundTrip {
  import opened BigEndian
  import opened AbiTypes
  import opened AbiEncode
  import opened AbiDecode

  /** An integer reduced to the range of its kind. */
  function Canon(signed: bool, k: nat, n: int): (c: int) {
    Signed(signed, k, n % Pow256(k))
  }

  /** What comes back: the value with every integer reduced to its kind's range. */
  function Normal(t: Type, v: Value): (w: Value)
    requires Packable(t, v)
    decreases v
  {
    match t
    case IntTy(signed, bits) => IntVal(Canon(signed, KindBytes(bits), v.n))
    case SliceTy(e) => ListVal(seq(|v.items|, i requires 0 <= i < |v.items| => Normal(e, v.items[i])))
    case ArrayTy(e, _) => ListVal(seq(|v.items|, i requires 0 <= i < |v.items| => Normal(e, v.items[i])))
    case TupleTy(es) => ListVal(seq(|v.items|, i requires 0 <= i < |v.items| => Normal(es[i], v.items[i])))
    case _ => v
  }

  function NormalAll(ts: seq<Type>, vs: seq<Value>): (ws: seq<Value>)
    requires AllPackable(ts, vs)
  {
    seq(|vs|, i requires 0 <= i < |vs| => Normal(ts[i], vs[i]))
  }

  /** Every integer in the value lies in the range of its kind. */
  predicate Representable(t: Type, v: Value)
    requires Packable(t, v)
    decreases v
  {
    match t
    case IntTy(signed, bits) => InRange(signed, KindBytes(bits), v.n)
    case SliceTy(e) => forall i | 0 <= i < |v.items| :: Representable(e, v.items[i])
    case ArrayTy(e, _) => forall i | 0 <= i < |v.items| :: Representable(e, v.items[i])
    case TupleTy(es) => forall i | 0 <= i < |v.items| :: Representable(es[i], v.items[i])
    case _ => true
  }

  /** `Pow256(k)` is even from one byte up. */
  lemma HalfPow(k: nat)
    requires 0 < k
    ensures Pow256(k) % 2 == 0
  {
    ModUnique(256 * Pow256(k - 1), 2, 128 * Pow256(k - 1), 0);
  }

  lemma CanonLaw(signed: bool, k: nat, n: int)
    requires 0 < k
    ensures InRange(signed, k, Canon(signed, k, n))
    ensures Canon(signed, k, n) == n <==> InRange(signed, k, n)
  {
    HalfPow(k);
    var p := Pow256(k);
    if InRange(signed, k, n) {
      if n < 0 { ModUnique(n, p, -1, n + p); } else { ModUnique(n, p, 0, n); }
    }
  }

  /** Normalising changes nothing exactly on representable values. */
  lemma {:induction false} NormalLaw(t: Type, v: Value)
    requires Packable(t, v)
    ensures Normal(t, v) == v <==> Representable(t, v)
    decreases v
  {
    match t
    case IntTy(signed, bits) => CanonLaw(signed, KindBytes(bits), v.n);
    case SliceTy(e) => NormalParts(t, v);
    case ArrayTy(e, _) => NormalParts(t, v);
    case TupleTy(es) => NormalParts(t, v);
    case _ =>
  }

  lemma {:induction false} NormalParts(t: Type, v: Value)
    requires Packable(t, v) && IsList(t)
    ensures Normal(t, v) == v <==> Representable(t, v)
    decreases v, 0
  {
    var ts := PartTypes(t, |v.items|);
    forall i | 0 <= i < |v.items|
      ensures Normal(ts[i], v.items[i]) == v.items[i] <==> Representable(ts[i], v.items[i])
    {
      NormalLaw(ts[i], v.items[i]);
    }
    assert Normal(t, v) == ListVal(NormalAll(ts, v.items));
    if Representable(t, v) {
      assert NormalAll(ts, v.items) == v.items;
    } else {
      var i :| 0 <= i < |v.items| && !Representable(ts[i], v.items[i]);
      assert NormalAll(ts, v.items)[i] != v.items[i];
    }
  }

  // ---- words --------------------------------------------------------------------------------

  lemma ReadWord(signed: bool, k: nat, n: int)
    requires k <= 32
    ensures ReadInteger(signed, k, Word(n)) == Canon(signed, k, n)
  {
    hide ToBytes, ToNat, Pow256, Signed;
    var m := n % Pow256(32);
    LowBytes(m, 32, k);
    ToNatToBytes(m, k);
    ModMod(n, k, 32);
  }

  lemma SmallWord(n: nat)
    requires n < TWO_63
    ensures ToNat(Word(n)) == n && ToNat(Word(n)[24..]) == n
  {
    assert Pow256(8) == TWO_64;
    assert Pow256(32) >= Pow256(8) by { PowSplit(8, 24); MulGap(Pow256(8), 0, Pow256(24)); }
    ModUnique(n, Pow256(32), 0, n);
    ToNatToBytes(n, 32);
    LowBytes(n, 32, 8);
    ToNatToBytes(n, 8);
    ModUnique(n, Pow256(8), 0, n);
  }

  lemma {:induction false} ZeroBytes(k: nat)
    ensures ToBytes(0, k) == Zeros(k) && ToNat(Zeros(k)) == 0
  {
    if k > 0 {
      ZeroBytes(k - 1);
      assert Zeros(k)[..k - 1] == Zeros(k - 1);
      assert Zeros(k) == Zeros(k - 1) + [0];
    }
  }

  lemma BoolWord(b: bool)
    ensures ReadBool(Word(if b then 1 else 0)) == Some(BoolVal(b))
  {
    var n := if b then 1 else 0;
    assert Pow256(32) >= 256 by { MulGap(256, 0, Pow256(31)); }
    ModUnique(n, Pow256(32), 0, n);
    ZeroBytes(31);
    assert Word(n) == Zeros(31) + [n];
  }

  /** Fixed byte strings fit a word. */
  predicate Fitting(t: Type) {
    t.FixedBytesTy? ==> t.width <= 32
  }

  lemma WordOk(t: Type, v: Value)
    requires Packable(t, v) && !IsDynamic(t) && !IsList(t) && Fitting(t)
    ensures |Encode(t, v)| == 32 && DecodeWord(t, Encode(t, v)) == Some(Normal(t, v))
  {
    match t
    case IntTy(signed, bits) => ReadWord(signed, KindBytes(bits), v.n);
    case BoolTy => BoolWord(v.b);
    case FunctionTy => ZeroBytes(8); assert RightPad(v.bytes, 32)[24..] == Zeros(8);
    case AddressTy => assert LeftPad(v.bytes, 32)[12..] == v.bytes;
    case FixedBytesTy(n) => assert RightPad(v.bytes, 32)[..n] == v.bytes;
  }

  // ---- placement ----------------------------------------------------------------------------

  /** `b` stands in `out` at `pos`. */
  ghost predicate At(out: seq<byte>, pos: nat, b: seq<byte>) {
    pos + |b| <= |out| && out[pos..pos + |b|] == b
  }

  lemma AtSplit(out: seq<byte>, pos: nat, a: seq<byte>, b: seq<byte>)
    requires At(out, pos, a + b)
    ensures At(out, pos, a) && At(out, pos + |a|, b)
  {
    assert out[pos..pos + |a|] == out[pos..pos + |a + b|][..|a|];
    assert out[pos + |a|..pos + |a| + |b|] == out[pos..pos + |a + b|][|a|..];
  }

  lemma AtDrop(out: seq<byte>, pos: nat, b: seq<byte>)
    requires At(out, pos, b)
    ensures At(out[pos..], 0, b)
  {
    assert out[pos..][0..|b|] == out[pos..pos + |b|];
  }

  /** The value of type `t` is readable at `index`: in place, or through a reference. */
  ghost predicate Placed(t: Type, v: Value, out: seq<byte>, index: nat, offset: nat)
    requires Packable(t, v)
  {
    |out| < TWO_63 &&
    if IsDynamic(t) then At(out, index, Word(offset)) && At(out, offset, Encode(t, v))
    else At(out, index, Encode(t, v))
  }

  // ---- room for the heads -------------------------------------------------------------------

  /** Where the parts of a list begin, its head being at `index` and its tail, if it has one, at `offset`. */
  function Begin(t: Type, index: nat, offset: nat): (b: nat) {
    if t.SliceTy? then offset + 32 else if IsDynamic(t) then offset else index
  }

  /** In data of `len` bytes the value passes the bounds tests of the decoder: wherever a head is read 32 bytes are
      left, also for a type that takes none, and a list of n elements has 32 * n bytes. */
  predicate Room(t: Type, v: Value, len: nat, index: nat, offset: nat)
    requires Packable(t, v)
    decreases v, 2
  {
    index + 32 <= len && Fitting(t) && (IsList(t) ==> ListRoom(t, v, len, Begin(t, index, offset)))
  }

  predicate ListRoom(t: Type, v: Value, len: nat, begin: nat)
    requires Packable(t, v) && IsList(t)
    decreases v, 1
  {
    begin <= len && (t.TupleTy? || begin + 32 * |v.items| <= len) &&
    var ts := PartTypes(t, |v.items|);
    PartsRoom(ts, v.items, len - begin, 0, SumSizes(ts))
  }

  /** The same for the items of a block, from the head at `start` and the tail at `offset` on. */
  predicate PartsRoom(ts: seq<Type>, vs: seq<Value>, len: nat, start: nat, offset: nat)
    requires AllPackable(ts, vs)
    decreases vs, 0
  {
    vs == [] ||
    (Room(ts[0], vs[0], len, start, offset) &&
     PartsRoom(ts[1..], vs[1..], len, start + TypeSize(ts[0]),
               if IsDynamic(ts[0]) then offset + |Encode(ts[0], vs[0])| else offset))
  }

  predicate RoomAll(ts: seq<Type>, vs: seq<Value>, len: nat)
    requires AllPackable(ts, vs)
  {
    PartsRoom(ts, vs, len, 0, SumSizes(ts))
  }

  // ---- decoding what was encoded ------------------------------------------------------------

  /** What decoding gives: the value, reduced, where there is room for it, and otherwise nothing. */
  function Expected(t: Type, v: Value, len: nat, index: nat, offset: nat): (r: Option<Value>)
    requires Packable(t, v)
  {
    if Room(t, v, len, index, offset) then Some(Normal(t, v)) else None
  }

  lemma {:induction false} DecodePlaced(t: Type, v: Value, out: seq<byte>, index: nat, offset: nat)
    requires Laid(t) && Packable(t, v) && Placed(t, v, out, index, offset)
    ensures Decode(t, out, index) == Expected(t, v, |out|, index, offset)
    decreases v, 2
  {
    hide Laid, Packable, Placed, Decode, Expected;
    if t.StringTy? || t.BytesTy? {
      BytesPlaced(t, v, out, index, offset);
    } else if !IsList(t) {
      WordPlaced(t, v, out, index, offset);
    } else if t.SliceTy? {
      SlicePlaced(t, v, out, index, offset);
    } else {
      BlockPlaced(t, v, out, index, offset);
    }
  }

  lemma WordPlaced(t: Type, v: Value, out: seq<byte>, index: nat, offset: nat)
    requires Packable(t, v) && !t.StringTy? && !t.BytesTy? && !IsList(t) && Placed(t, v, out, index, offset)
    ensures Decode(t, out, index) == Expected(t, v, |out|, index, offset)
  {
    if Fitting(t) {
      hide Encode, Normal, Packable, DecodeWord;
      WordOk(t, v);
    }
  }

  lemma PrefixPlaced(out: seq<byte>, index: nat, offset: nat, l: nat)
    requires |out| < TWO_63 && l < TWO_63 && At(out, index, Word(offset)) && At(out, offset, Word(l))
    ensures LengthPrefixPointsTo(index, out) == if offset + 32 + l <= |out| then Some((offset + 32, l)) else None
  {
    hide Word, ToNat;
    SmallWord(offset);
    SmallWord(l);
  }

  lemma BytesPlaced(t: Type, v: Value, out: seq<byte>, index: nat, offset: nat)
    requires (t.StringTy? || t.BytesTy?) && Packable(t, v) && Placed(t, v, out, index, offset)
    ensures Decode(t, out, index) == Expected(t, v, |out|, index, offset)
  {
    hide Word, LengthPrefixPointsTo, RightPad, DecodeEach, DecodeAll, ListRoom;
    var l := |v.bytes|;
    var pad := RightPad(v.bytes, (l + 31) / 32 * 32);
    AtSplit(out, offset, Word(l), pad);
    assert out[offset + 32..offset + 32 + l] == out[offset + 32..offset + 32 + |pad|][..l];
    assert pad[..l] == v.bytes;
    PrefixPlaced(out, index, offset, l);
  }

  lemma NormalList(t: Type, v: Value)
    requires Packable(t, v) && IsList(t)
    ensures AllPackable(PartTypes(t, |v.items|), v.items)
    ensures Normal(t, v) == ListVal(NormalAll(PartTypes(t, |v.items|), v.items))
  {
  }

  lemma {:induction false} SlicePlaced(t: Type, v: Value, out: seq<byte>, index: nat, offset: nat)
    requires Laid(t) && Packable(t, v) && t.SliceTy?
    requires Placed(t, v, out, index, offset)
    ensures Decode(t, out, index) == Expected(t, v, |out|, index, offset)
    decreases v, 1
  {
    hide Word, Laid, EncodeAll, DecodeAll, LengthPrefixPointsTo, NormalAll, Normal, PartsRoom;
    var n := |v.items|;
    NormalList(t, v);
    var ts := PartTypes(t, n);
    var block := EncodeAll(ts, v.items);
    AtSplit(out, offset, Word(n), block);
    AtDrop(out, offset + 32, block);
    PartsLaid(t, n);
    ListPlaced(t, ts, v.items, out[offset + 32..]);
    PrefixPlaced(out, index, offset, n);
    var begin := offset + 32;
    assert Room(t, v, |out|, index, offset) <==> begin + 32 * n <= |out| && RoomAll(ts, v.items, |out| - begin);
    assert begin + n <= |out| ==> Decode(t, out, index) == AsList(DecodeEach(t, out[begin..], n));
  }

  lemma {:induction false} BlockPlaced(t: Type, v: Value, out: seq<byte>, index: nat, offset: nat)
    requires Laid(t) && Packable(t, v) && (t.ArrayTy? || t.TupleTy?)
    requires Placed(t, v, out, index, offset)
    ensures Decode(t, out, index) == Expected(t, v, |out|, index, offset)
    decreases v, 1
  {
    hide Word, Laid, EncodeAll, DecodeAll, NormalAll, Normal, RoomAll, Packable, Placed, Decode, Room, LaidAll, Begin;
    NormalList(t, v);
    BlockAt(t, v, out, index, offset);
    PartsLaid(t, |v.items|);
    ListPlaced(t, PartTypes(t, |v.items|), v.items, out[Begin(t, index, offset)..]);
    BlockRoom(t, v, |out|, index, offset);
    BlockDecode(t, v, out, index, offset);
  }

  lemma BlockRoom(t: Type, v: Value, len: nat, index: nat, offset: nat)
    requires (t.ArrayTy? || t.TupleTy?) && Packable(t, v) && AllPackable(PartTypes(t, |v.items|), v.items)
    requires Begin(t, index, offset) <= len
    ensures var begin := Begin(t, index, offset);
            Room(t, v, len, index, offset) <==>
            index + 32 <= len && (t.TupleTy? || begin + 32 * |v.items| <= len) &&
            RoomAll(PartTypes(t, |v.items|), v.items, len - begin)
  {
    hide Packable, PartsRoom, Begin;
  }

  lemma BlockDecode(t: Type, v: Value, out: seq<byte>, index: nat, offset: nat)
    requires (t.ArrayTy? || t.TupleTy?) && Packable(t, v) && Placed(t, v, out, index, offset)
    requires v.ListVal? && (t.ArrayTy? ==> |v.items| == t.size) && Begin(t, index, offset) <= |out|
    requires forall i | 0 <= i < |PartTypes(t, |v.items|)| :: PartTypes(t, |v.items|)[i] < t
    ensures var n, begin := |v.items|, Begin(t, index, offset);
            Decode(t, out, index) ==
            if index + 32 > |out| || !(t.TupleTy? || begin + 32 * n <= |out|) then None
            else AsList(DecodeAll(t, PartTypes(t, n), out[begin..], 0))
  {
    hide Packable, DecodeAll, Encode, Word, ToNat;
    BlockStart(t, v, out, index, offset);
  }

  lemma BlockStart(t: Type, v: Value, out: seq<byte>, index: nat, offset: nat)
    requires Packable(t, v) && Placed(t, v, out, index, offset)
    ensures IsDynamic(t) ==>
              index + 32 <= |out| && TuplePointsTo(index, out) == Some(offset) && ArrayPointsTo(index, out) == Some(offset)
  {
    hide Word, Encode, Packable;
    if IsDynamic(t) {
      SmallWord(offset);
      assert out[index + 24..index + 32] == out[index..index + 32][24..];
    }
  }

  lemma PartsLaid(t: Type, n: nat)
    requires Laid(t) && IsList(t) && (t.ArrayTy? ==> n == t.size)
    ensures LaidAll(PartTypes(t, n))
    ensures forall i | 0 <= i < |PartTypes(t, n)| :: PartTypes(t, n)[i] < t
  {
    hide Measured, Aligned;
    if !t.TupleTy? {
      RepeatLaid(t.elem, n);
    }
  }

  /** A block of heads and tails decodes to its items. */
  lemma {:induction false} ListPlaced(whole: Type, ts: seq<Type>, vs: seq<Value>, out: seq<byte>)
    requires forall i | 0 <= i < |ts| :: ts[i] < whole
    requires LaidAll(ts) && AllPackable(ts, vs)
    requires |out| < TWO_63 && At(out, 0, EncodeAll(ts, vs))
    ensures DecodeAll(whole, ts, out, 0) == if RoomAll(ts, vs, |out|) then Some(NormalAll(ts, vs)) else None
    decreases vs, 1
  {
    hide Word, Packable, Laid, Decode, Encode, IsDynamic, Normal, Measured, DecodeAll, NormalAll, PartsRoom;
    var ps := Parts(ts, vs);
    AtSplit(out, 0, Heads(ps, SumSizes(ts)), Tails(ps));
    HeadsLength(ts, vs, SumSizes(ts));
    if forall i | 0 <= i < |ts| :: Measured(ts[i]) {
      MeasuredSums(ts);
      ItemsPlaced(whole, ts, vs, out, 0, SumSizes(ts));
    } else {
      assert !Measured(ts[|ts| - 1]);
      StaticTails(ps);
      var offset := if SumSizes(ts) <= |out| then SumSizes(ts) else 0;
      StaticHeads(ps, SumSizes(ts), offset);
      ItemsPlaced(whole, ts, vs, out, 0, offset);
      NoTails(ts, vs, |out|, 0, offset, SumSizes(ts));
    }
  }

  lemma {:induction false} StaticHeads(ps: seq<Part>, offset: nat, offset': nat)
    requires forall i | 0 <= i < |ps| :: !ps[i].dyn
    ensures Heads(ps, offset) == Heads(ps, offset')
  {
    if ps != [] { StaticHeads(ps[1..], offset, offset'); }
  }

  /** Where nothing is dynamic it does not matter where tails would be. */
  lemma {:induction false} NoTails(ts: seq<Type>, vs: seq<Value>, len: nat, start: nat, offset: nat, offset': nat)
    requires AllPackable(ts, vs) && forall i | 0 <= i < |ts| :: !IsDynamic(ts[i])
    ensures PartsRoom(ts, vs, len, start, offset) <==> PartsRoom(ts, vs, len, start, offset')
    decreases vs
  {
    hide Packable, Encode, TypeSize, ListRoom;
    if vs != [] {
      assert !ts[0].SliceTy?;
      NoTails(ts[1..], vs[1..], len, start + TypeSize(ts[0]), offset, offset');
    }
  }

  lemma {:induction false} ItemsPlaced(whole: Type, ts: seq<Type>, vs: seq<Value>, out: seq<byte>, start: nat,
                                       offset: nat)
    requires forall i | 0 <= i < |ts| :: ts[i] < whole && Laid(ts[i])
    requires forall i | 0 <= i < |ts| - 1 :: Measured(ts[i])
    requires AllPackable(ts, vs)
    requires |out| < TWO_63
    requires At(out, start, Heads(Parts(ts, vs), offset)) && At(out, offset, Tails(Parts(ts, vs)))
    ensures DecodeAll(whole, ts, out, start) ==
            if PartsRoom(ts, vs, |out|, start, offset) then Some(NormalAll(ts, vs)) else None
    decreases vs, 0
  {
    hide Word, Packable, Laid, Decode, Encode, Normal, TypeSize, IsDynamic, At, Measured, Room, PartsRoom, DecodeAll,
         NormalAll, Expected;
    if vs == [] {
      NoItems(whole, out, start, offset);
    } else {
      var ps := Parts(ts, vs);
      assert ps[1..] == Parts(ts[1..], vs[1..]);
      var offset' := FirstPlaced(ps, out, start, offset);
      var start' := start + TypeSize(ts[0]);
      if |ts| > 1 {
        HeadAdvance(ts[0], vs[0]);
        ItemsPlaced(whole, ts[1..], vs[1..], out, start', offset');
      } else {
        NoItems(whole, out, start', offset');
      }
      DecodePlaced(ts[0], vs[0], out, start, offset);
      ItemsStep(whole, ts, vs, out, start, offset, offset');
    }
  }

  lemma NoItems(whole: Type, out: seq<byte>, start: nat, offset: nat)
    ensures DecodeAll(whole, [], out, start) == Some([]) && PartsRoom([], [], |out|, start, offset) && NormalAll([], []) == []
  {
  }

  /** A first item and the rest make a list. */
  lemma ItemsStep(whole: Type, ts: seq<Type>, vs: seq<Value>, out: seq<byte>, start: nat, offset: nat, offset': nat)
    requires vs != [] && AllPackable(ts, vs) && forall i | 0 <= i < |ts| :: ts[i] < whole
    requires offset' == if IsDynamic(ts[0]) then offset + |Encode(ts[0], vs[0])| else offset
    requires Decode(ts[0], out, start) == Expected(ts[0], vs[0], |out|, start, offset)
    requires DecodeAll(whole, ts[1..], out, start + TypeSize(ts[0])) ==
             if PartsRoom(ts[1..], vs[1..], |out|, start + TypeSize(ts[0]), offset') then Some(NormalAll(ts[1..], vs[1..]))
             else None
    ensures DecodeAll(whole, ts, out, start) ==
            if PartsRoom(ts, vs, |out|, start, offset) then Some(NormalAll(ts, vs)) else None
  {
    hide Packable, Decode, Encode, Normal, TypeSize, IsDynamic, Room;
    assert NormalAll(ts, vs) == [Normal(ts[0], vs[0])] + NormalAll(ts[1..], vs[1..]);
  }

  /** Splits the first head and tail off a placed block. */
  lemma FirstPlaced(ps: seq<Part>, out: seq<byte>, start: nat, offset: nat) returns (offset': nat)
    requires ps != [] && At(out, start, Heads(ps, offset)) && At(out, offset, Tails(ps))
    ensures if ps[0].dyn then At(out, start, Word(offset)) && At(out, offset, ps[0].enc)
            else At(out, start, ps[0].enc)
    ensures At(out, start + if ps[0].dyn then 32 else |ps[0].enc|, Heads(ps[1..], offset'))
    ensures At(out, offset', Tails(ps[1..])) && offset' == if ps[0].dyn then offset + |ps[0].enc| else offset
  {
    hide Word, At;
    if ps[0].dyn {
      offset' := offset + |ps[0].enc|;
      AtSplit(out, start, Word(offset), Heads(ps[1..], offset'));
      AtSplit(out, offset, ps[0].enc, Tails(ps[1..]));
    } else {
      offset' := offset;
      AtSplit(out, start, ps[0].enc, Heads(ps[1..], offset));
      assert [] + Tails(ps[1..]) == Tails(ps[1..]);
    }
  }

  /** The decoder moves on by exactly the head that was written. */
  lemma HeadAdvance(t: Type, v: Value)
    requires Measured(t) && Packable(t, v)
    ensures TypeSize(t) == if IsDynamic(t) then 32 else |Encode(t, v)|
  {
    if IsDynamic(t) { DynamicHead(t); } else { StaticLength(t, v); }
  }

  // ---- types that always have room ------------------------------------------------------------

  predicate AllPositive(ts: seq<Type>) {
    forall i | 0 <= i < |ts| :: Positive(ts[i])
  }

  lemma {:induction false} PlacedRoom(t: Type, v: Value, out: seq<byte>, index: nat, offset: nat)
    requires Positive(t) && Laid(t) && Packable(t, v) && Placed(t, v, out, index, offset)
    ensures Room(t, v, |out|, index, offset)
    decreases v, 2
  {
    hide Laid, Packable, Placed, PartsRoom, Begin, Positive, LaidAll, EncodeAll;
    HeadRoom(t, v, out, index, offset);
    if IsList(t) {
      BlockAt(t, v, out, index, offset);
      PartsLaid(t, |v.items|);
      PositiveParts(t, |v.items|);
      ListHasRoom(PartTypes(t, |v.items|), v.items, out[Begin(t, index, offset)..]);
    }
  }

  /** The parts of a placed list stand at its beginning. */
  lemma BlockAt(t: Type, v: Value, out: seq<byte>, index: nat, offset: nat)
    requires IsList(t) && Packable(t, v) && Placed(t, v, out, index, offset)
    ensures v.ListVal? && (t.ArrayTy? ==> |v.items| == t.size) && AllPackable(PartTypes(t, |v.items|), v.items)
    ensures |out| < TWO_63 && Begin(t, index, offset) <= |out|
    ensures At(out[Begin(t, index, offset)..], 0, EncodeAll(PartTypes(t, |v.items|), v.items))
  {
    hide Word, EncodeAll, Normal;
    NormalList(t, v);
    var block := EncodeAll(PartTypes(t, |v.items|), v.items);
    if t.SliceTy? { AtSplit(out, offset, Word(|v.items|), block); }
    AtDrop(out, Begin(t, index, offset), block);
  }

  lemma PositiveParts(t: Type, n: nat)
    requires Positive(t) && IsList(t)
    ensures AllPositive(PartTypes(t, n))
  {
  }

  lemma HeadRoom(t: Type, v: Value, out: seq<byte>, index: nat, offset: nat)
    requires Positive(t) && Packable(t, v) && Placed(t, v, out, index, offset)
    ensures index + 32 <= |out| && Fitting(t)
  {
    hide Word, Encode, Packable;
    if !IsDynamic(t) {
      StaticLength(t, v);
      RealSizePositive(t);
    }
  }

  lemma {:induction false} ListHasRoom(ts: seq<Type>, vs: seq<Value>, out: seq<byte>)
    requires AllPositive(ts) && LaidAll(ts) && AllPackable(ts, vs)
    requires |out| < TWO_63 && At(out, 0, EncodeAll(ts, vs))
    ensures 32 * |vs| <= |out| && RoomAll(ts, vs, |out|)
    decreases vs, 1
  {
    hide Word, Packable, Positive, Laid, Encode, IsDynamic, Measured, PartsRoom;
    var ps := Parts(ts, vs);
    AtSplit(out, 0, Heads(ps, SumSizes(ts)), Tails(ps));
    HeadsLength(ts, vs, SumSizes(ts));
    SumSizesLaw(ts);
    SumRealPositive(ts);
    if forall i | 0 <= i < |ts| :: Measured(ts[i]) {
      MeasuredSums(ts);
    } else {
      assert !Measured(ts[|ts| - 1]);
      StaticTails(ps);
    }
    ItemsHaveRoom(ts, vs, out, 0, SumSizes(ts));
  }

  lemma {:induction false} ItemsHaveRoom(ts: seq<Type>, vs: seq<Value>, out: seq<byte>, start: nat, offset: nat)
    requires AllPositive(ts) && (forall i | 0 <= i < |ts| :: Laid(ts[i]))
    requires forall i | 0 <= i < |ts| - 1 :: Measured(ts[i])
    requires AllPackable(ts, vs)
    requires |out| < TWO_63
    requires At(out, start, Heads(Parts(ts, vs), offset)) && At(out, offset, Tails(Parts(ts, vs)))
    ensures PartsRoom(ts, vs, |out|, start, offset)
    decreases vs, 0
  {
    hide Word, Packable, Positive, Laid, Encode, TypeSize, IsDynamic, At, Measured, Room;
    if vs != [] {
      var ps := Parts(ts, vs);
      assert ps[1..] == Parts(ts[1..], vs[1..]);
      var offset' := FirstPlaced(ps, out, start, offset);
      if |ts| > 1 {
        HeadAdvance(ts[0], vs[0]);
        ItemsHaveRoom(ts[1..], vs[1..], out, start + TypeSize(ts[0]), offset');
      }
      PlacedRoom(ts[0], vs[0], out, start, offset);
    }
  }

  // ---- the law ------------------------------------------------------------------------------

  /** Unpacking packed arguments, whatever bytes follow them, gives the arguments back exactly if there is room for
      the heads. */
  lemma RoundTrip(ts: seq<Type>, vs: seq<Value>, suffix: seq<byte>)
    requires LaidAll(ts) && AllPackable(ts, vs)
    requires |EncodeAll(ts, vs) + suffix| < TWO_63
    ensures var r, room := UnpackValues(ts, EncodeAll(ts, vs) + suffix), RoomAll(ts, vs, |EncodeAll(ts, vs) + suffix|);
            (r == if room then Some(NormalAll(ts, vs)) else None) &&
            (r == Some(vs) <==> room && forall i | 0 <= i < |vs| :: Representable(ts[i], vs[i])) &&
            (AllPositive(ts) ==> room)
  {
    hide Laid, Normal, Packable, DecodeAll, Representable, EncodeAll, RoomAll, AllPositive;
    if AllPositive(ts) { ListHasRoom(ts, vs, EncodeAll(ts, vs) + suffix); }
    ListPlaced(TupleTy(ts), ts, vs, EncodeAll(ts, vs) + suffix);
    forall i | 0 <= i < |vs|
      ensures Normal(ts[i], vs[i]) == vs[i] <==> Representable(ts[i], vs[i])
    {
      NormalLaw(ts[i], vs[i]);
    }
    var ws := NormalAll(ts, vs);
    if ws != vs {
      assert exists i | 0 <= i < |vs| :: ws[i] != vs[i];
    }
  }

  // ---- Arguments ------------------------------------------------------------------------------

  datatype Argument = Argument(indexed: bool, ty: Type)

  function TypesOf(args: seq<Argument>): (ts: seq<Type>) {
    seq(|args|, i requires 0 <= i < |args| => args[i].ty)
  }

  /** The types of the arguments that are not indexed; only events have indexed ones. */
  function NonIndexed(args: seq<Argument>): (ts: seq<Type>) {
    if args == [] then []
    else (if args[0].indexed then [] else [args[0].ty]) + NonIndexed(args[1..])
  }

  /** `Arguments.Pack`, with its count check. */
  method PackArguments(args: seq<Argument>, vs: seq<Value>) returns (r: Option<seq<byte>>)
    ensures r == if AllPackable(TypesOf(args), vs) then Some(EncodeAll(TypesOf(args), vs)) else None
  {
    if |vs| != |args| { return None; }
    r := PackAll(TypesOf(args), vs);
  }

  /** `Arguments.UnpackValues`: filter, then unpack word by word. */
  method UnpackArguments(args: seq<Argument>, data: seq<byte>) returns (r: Option<seq<Value>>)
    ensures r == UnpackValues(NonIndexed(args), data)
  {
    var ts := [];
    for i := 0 to |args|
      invariant NonIndexed(args) == ts + NonIndexed(args[i..])
    {
      assert args[i..][1..] == args[i + 1..];
      Regroup(ts, [args[i].ty], NonIndexed(args[i + 1..]));
      if !args[i].indexed { ts := ts + [args[i].ty]; }
    }
    assert ts + [] == ts;
    r := ForTupleUnpack(TupleTy(ts), ts, data);
  }

  lemma Regroup(a: seq<Type>, b: seq<Type>, c: seq<Type>)
    ensures a + (b + c) == (a + b) + c && a + ([] + c) == a + c
  {
    assert [] + c == c;
  }

  lemma {:induction false} NonIndexedAll(args: seq<Argument>)
    requires forall i | 0 <= i < |args| :: !args[i].indexed
    ensures NonIndexed(args) == TypesOf(args)
  {
    if args != [] {
      NonIndexedAll(args[1..]);
      assert TypesOf(args) == [args[0].ty] + TypesOf(args[1..]);
    }
  }
}
