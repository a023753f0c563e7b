/** The unpacking half of `core/abi`: `toGoType` and the loops around it. */
module AbiDecode {
  import opened BigEndian
  import opened AbiTypes

  /** `readInteger`: the low `k` bytes of a word, as two's complement when signed. */
  function ReadInteger(signed: bool, k: nat, word: seq<byte>): (n: int)
    requires |word| == 32 && k <= 32
  {
    Signed(signed, k, ToNat(word[32 - k..]))
  }

  function Signed(signed: bool, k: nat, x: nat): (n: int) {
    if signed && Pow256(k) <= 2 * x then x - Pow256(k) else x
  }

  function ReadBool(word: seq<byte>): (r: Option<Value>)
    requires |word| == 32
  {
    if exists i | 0 <= i < 31 :: word[i] != 0 then None
    else if word[31] == 0 then Some(BoolVal(false))
    else if word[31] == 1 then Some(BoolVal(true))
    else None
  }

  /** `lengthPrefixPointsTo`: follow the offset in the word at `index` to a length and its data. */
  function LengthPrefixPointsTo(index: nat, output: seq<byte>): (r: Option<(nat, nat)>)
    requires index + 32 <= |output|
    ensures r.Some? ==> 32 <= r.value.0 && r.value.0 + r.value.1 <= |output|
  {
    var offsetEnd := ToNat(output[index..index + 32]) + 32;
    if offsetEnd > |output| || offsetEnd >= TWO_63 then None
    else
      var length := ToNat(output[offsetEnd - 32..offsetEnd]);
      if offsetEnd + length >= TWO_63 || offsetEnd + length > |output| then None
      else Some((offsetEnd, length))
  }

  /** `tuplePointsTo`. */
  function TuplePointsTo(index: nat, output: seq<byte>): (r: Option<nat>)
    requires index + 32 <= |output|
    ensures r.Some? ==> r.value <= |output|
  {
    var offset := ToNat(output[index..index + 32]);
    if offset > |output| || offset >= TWO_63 then None else Some(offset)
  }

  /** The reference of a dynamic array: the low eight bytes, which must not go past the data. */
  function ArrayPointsTo(index: nat, output: seq<byte>): (r: Option<nat>)
    requires index + 32 <= |output|
    ensures r.Some? ==> r.value <= |output|
  {
    var offset := ToNat(output[index + 24..index + 32]);
    if offset > |output| || offset >= TWO_63 then None else Some(offset)
  }

  /** `toGoType`: the value of type `t` whose head is at `index`. `None` is an error or a panic. */
  function Decode(t: Type, output: seq<byte>, index: nat): (r: Option<Value>)
    decreases t
  {
    if index + 32 > |output| then None
    else if RequiresLengthPrefix(t) then
      match LengthPrefixPointsTo(index, output)
      case None => None
      case Some((begin, length)) =>
        if t.SliceTy? then AsList(DecodeEach(t, output[begin..], length))
        else Some(BytesVal(output[begin..begin + length]))
    else if t.TupleTy? then
      if IsDynamic(t) then
        match TuplePointsTo(index, output)
        case None => None
        case Some(begin) => AsList(DecodeAll(t, t.elems, output[begin..], 0))
      else AsList(DecodeAll(t, t.elems, output[index..], 0))
    else if t.ArrayTy? then
      if IsDynamic(t.elem) then
        match ArrayPointsTo(index, output)
        case None => None
        case Some(begin) => AsList(DecodeEach(t, output[begin..], t.size))
      else AsList(DecodeEach(t, output[index..], t.size))
    else DecodeWord(t, output[index..index + 32])
  }

  function AsList(r: Option<seq<Value>>): (v: Option<Value>) {
    match r case None => None case Some(vs) => Some(ListVal(vs))
  }

  /** The types that sit in one word. */
  function DecodeWord(t: Type, word: seq<byte>): (r: Option<Value>)
    requires |word| == 32
  {
    match t
    case IntTy(signed, bits) => Some(IntVal(ReadInteger(signed, KindBytes(bits), word)))
    case BoolTy => ReadBool(word)
    case AddressTy => Some(BytesVal(word[12..]))
    case FixedBytesTy(n) => if n <= 32 then Some(BytesVal(word[..n])) else None
    case FunctionTy =>
      if ToNat(word[24..]) != 0 then None else Some(BytesVal(word[..24]))
    case _ => None
  }

  /** `forEachUnpack` from the start of `output`. */
  function DecodeEach(t: Type, output: seq<byte>, n: nat): (r: Option<seq<Value>>)
    requires t.SliceTy? || t.ArrayTy?
    decreases t, n + 1
  {
    if 32 * n > |output| then None
    else DecodeAll(t, Repeat(t.elem, n), output, 0)
  }

  /** The items of types `ts`, parts of `whole`, whose heads start at `start`. */
  function DecodeAll(ghost whole: Type, ts: seq<Type>, output: seq<byte>, start: nat): (r: Option<seq<Value>>)
    requires forall i | 0 <= i < |ts| :: ts[i] < whole
    decreases whole, |ts|
  {
    if ts == [] then Some([])
    else
      match Decode(ts[0], output, start)
      case None => None
      case Some(v) =>
        match DecodeAll(whole, ts[1..], output, start + TypeSize(ts[0]))
        case None => None
        case Some(vs) => Some([v] + vs)
  }

  /** `Arguments.UnpackValues` over the non-indexed arguments' types. */
  function UnpackValues(ts: seq<Type>, data: seq<byte>): (r: Option<seq<Value>>) {
    DecodeAll(TupleTy(ts), ts, data, 0)
  }

  // ---- the unpacking loops ----------------------------------------------------------------

  function Prepend(vs: seq<Value>, r: Option<seq<Value>>): (r': Option<seq<Value>>)
    ensures vs == [] ==> r' == r
    ensures r == Some([]) ==> r' == Some(vs)
  {
    match r
    case None => None
    case Some(ws) =>
      assert vs == [] ==> vs + ws == ws;
      assert ws == [] ==> vs + ws == vs;
      Some(vs + ws)
  }

  lemma DecodeAllStep(whole: Type, ts: seq<Type>, output: seq<byte>, start: nat, vs: seq<Value>)
    requires ts != [] && forall i | 0 <= i < |ts| :: ts[i] < whole
    ensures Prepend(vs, DecodeAll(whole, ts, output, start)) ==
            match Decode(ts[0], output, start)
            case None => None
            case Some(v) => Prepend(vs + [v], DecodeAll(whole, ts[1..], output, start + TypeSize(ts[0])))
  {
    hide Decode, TypeSize;
    var v, rest := Decode(ts[0], output, start), DecodeAll(whole, ts[1..], output, start + TypeSize(ts[0]));
    if v.Some? && rest.Some? {
      assert vs + ([v.value] + rest.value) == (vs + [v.value]) + rest.value;
    }
  }

  /** `toGoType` over the loops below. */
  method ToGoType(t: Type, output: seq<byte>, index: nat) returns (r: Option<Value>)
    ensures r == Decode(t, output, index)
    decreases t
  {
    hide DecodeEach, DecodeAll, LengthPrefixPointsTo, TuplePointsTo, ArrayPointsTo, IsDynamic, DecodeWord;
    var items: Option<seq<Value>>;
    if index + 32 > |output| {
      return None;
    }
    if RequiresLengthPrefix(t) {
      var p := LengthPrefixPointsTo(index, output);
      if p == None { return None; }
      var (begin, length) := p.value;
      if !t.SliceTy? { return Some(BytesVal(output[begin..begin + length])); }
      items := ForEachUnpack(t, output[begin..], length);
    } else if t.TupleTy? {
      var begin := if IsDynamic(t) then TuplePointsTo(index, output) else Some(index);
      if begin == None { return None; }
      items := ForTupleUnpack(t, t.elems, output[begin.value..]);
    } else if t.ArrayTy? {
      var begin := if IsDynamic(t.elem) then ArrayPointsTo(index, output) else Some(index);
      if begin == None { return None; }
      items := ForEachUnpack(t, output[begin.value..], t.size);
    } else {
      return DecodeWord(t, output[index..index + 32]);
    }
    r := AsList(items);
  }

  method ForEachUnpack(t: Type, output: seq<byte>, n: nat) returns (r: Option<seq<Value>>)
    requires t.SliceTy? || t.ArrayTy?
    ensures r == DecodeEach(t, output, n)
    decreases t, n + 1
  {
    hide Decode, TypeSize;
    if 32 * n > |output| { return None; }
    ghost var ts := Repeat(t.elem, n);
    var vs, i := [], 0;
    assert ts[0..] == ts;
    for j := 0 to n
      invariant 0 <= i
      invariant DecodeAll(t, ts, output, 0) == Prepend(vs, DecodeAll(t, ts[j..], output, i))
    {
      DecodeAllStep(t, ts[j..], output, i, vs);
      assert ts[j..][1..] == ts[j + 1..];
      var v := ToGoType(t.elem, output, i);
      if v == None { return None; }
      vs := vs + [v.value];
      i := i + TypeSize(t.elem);
    }
    r := Some(vs);
  }

  /** `forTupleUnpack`, and the loop of `UnpackValues`: static arrays and tuples count extra words. */
  method ForTupleUnpack(ghost whole: Type, ts: seq<Type>, output: seq<byte>) returns (r: Option<seq<Value>>)
    requires forall i | 0 <= i < |ts| :: ts[i] < whole
    ensures r == DecodeAll(whole, ts, output, 0)
    decreases whole, |ts|
  {
    hide Decode, TypeSize, IsDynamic;
    var vs, virtualArgs := [], 0;
    assert ts[0..] == ts;
    for index := 0 to |ts|
      invariant 0 <= index + virtualArgs
      invariant DecodeAll(whole, ts, output, 0) ==
                Prepend(vs, DecodeAll(whole, ts[index..], output, (index + virtualArgs) * 32))
    {
      var t := ts[index];
      DecodeAllStep(whole, ts[index..], output, (index + virtualArgs) * 32, vs);
      assert ts[index..][1..] == ts[index + 1..];
      var v := ToGoType(t, output, (index + virtualArgs) * 32);
      TypeSizeWords(t);
      if t.ArrayTy? && !IsDynamic(t) {
        virtualArgs := virtualArgs + TypeSize(t) / 32 - 1;
      } else if t.TupleTy? && !IsDynamic(t) {
        virtualArgs := virtualArgs + TypeSize(t) / 32 - 1;
      } else {
        OtherSizes(t);
      }
      if v == None { return None; }
      vs := vs + [v.value];
    }
    r := Some(vs);
  }

  lemma OtherSizes(t: Type)
    requires IsDynamic(t) || !(t.ArrayTy? || t.TupleTy?)
    ensures TypeSize(t) == 32
  {
  }
}
