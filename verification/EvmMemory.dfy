/** `vm/memory.go`, `memoryGasCost` in `vm/gas_table.go`, `vm/common.go`. */
module EvmMemory {
  import opened BigEndian

  const MEMORY_GAS: nat := 3
  const QUAD_COEFF_DIV: nat := 512
  const MAX_MEMORY: nat := 0xff_ffff_ffe0
  /** The first word count whose square leaves 64 bits. */
  const TWO_32: nat := 0x1_0000_0000

  /** The words needed for a size, in 64-bit arithmetic. */
  function ToWordSize(size: nat): (w: nat)
    requires size < TWO_64
    ensures 32 * w >= size && 32 * w < size + 32
  {
    if size > TWO_64 - 1 - 31 then (TWO_64 - 1) / 32 + 1 else (size + 31) / 32
  }

  /** What a memory of w words costs in all. */
  function Fee(w: nat): nat {
    MEMORY_GAS * w + w * w / QUAD_COEFF_DIV
  }

  /** What the 64-bit code computes for it. */
  function WrappedFee(w: nat): nat {
    (w * MEMORY_GAS % TWO_64 + w * w % TWO_64 / QUAD_COEFF_DIV) % TWO_64
  }

  lemma SquareMono(v: nat, w: nat)
    requires v <= w
    ensures v * v <= w * w
  {
    assert v * v <= v * w <= w * w;
  }

  lemma FeeMono(v: nat, w: nat)
    requires v <= w
    ensures Fee(v) <= Fee(w)
  {
    SquareMono(v, w);
  }

  /** The computed fee is the intended one exactly below 2^32 words. */
  lemma WrappedFeeExact(w: nat)
    requires 32 * w <= MAX_MEMORY
    ensures WrappedFee(w) == Fee(w) <==> w < TWO_32
    ensures w < TWO_32 ==> Fee(w) < 0x100_0000_0000_0000
    ensures MEMORY_GAS * w <= WrappedFee(w)
  {
    assert w * MEMORY_GAS % TWO_64 == w * MEMORY_GAS;
    var square := w * w;
    if w < TWO_32 {
      SquareMono(w, TWO_32 - 1);
      assert square % TWO_64 == square;
      assert square / QUAD_COEFF_DIV < 0x80_0000_0000_0000;
    } else {
      SquareMono(TWO_32, w);
      WrapLoses(square);
    }
  }

  lemma WrapLoses(square: nat)
    requires square >= TWO_64
    ensures square % TWO_64 / QUAD_COEFF_DIV < square / QUAD_COEFF_DIV
    ensures square % TWO_64 / QUAD_COEFF_DIV < TWO_64 / QUAD_COEFF_DIV
  {
    assert square % TWO_64 <= square - TWO_64;
  }

  /** The 64-bit difference of two fees: exact while the squares fit, and beyond reach where not. */
  lemma Difference(v: nat, w: nat, last: nat)
    requires v < w && 32 * w <= MAX_MEMORY && last < TWO_64 && (v < TWO_32 ==> last == Fee(v))
    ensures w < TWO_32 ==> (WrappedFee(w) - last) % TWO_64 == Fee(w) - Fee(v) && Fee(v) <= Fee(w)
    ensures w < TWO_32 ==> WrappedFee(w) == Fee(w)
    ensures v < TWO_32 <= w ==> (WrappedFee(w) - last) % TWO_64 + Fee(v) >= MEMORY_GAS * TWO_32
  {
    hide Fee, WrappedFee;
    WrappedFeeExact(w);
    WrappedFeeBound(w);
    if w < TWO_32 {
      FeeMono(v, w);
      ModSmall(Fee(w) - Fee(v));
    } else if v < TWO_32 {
      WrappedFeeExact(v);
      if WrappedFee(w) >= last {
        ModSmall(WrappedFee(w) - last);
      } else {
        ModNegative(last - WrappedFee(w));
      }
    }
  }

  lemma WrappedFeeBound(w: nat)
    ensures WrappedFee(w) < TWO_64
  {
  }

  lemma ModSmall(x: nat)
    requires x < TWO_64
    ensures x % TWO_64 == x
  {
  }

  lemma ModNegative(x: nat)
    requires 0 < x < TWO_64
    ensures (0 - x) % TWO_64 == TWO_64 - x
  {
  }

  method TotalFee(words: nat) returns (fee: nat)
    ensures fee == WrappedFee(words) < TWO_64
  {
    var square := words * words % TWO_64;
    var linCoef := words * MEMORY_GAS % TWO_64;
    var quadCoef := square / QUAD_COEFF_DIV;
    fee := (linCoef + quadCoef) % TWO_64;
  }

  /** A store in which a range has taken the value, as far as the value goes. */
  ghost function Overwrite(store: seq<byte>, offset: nat, size: nat, value: seq<byte>): (r: seq<byte>)
    ensures |r| == |store|
  {
    seq(|store|, i requires 0 <= i < |store| =>
      if offset <= i < offset + size && i - offset < |value| then value[i - offset] else store[i])
  }

  class Memory {
    var store: seq<byte>
    var lastGasCost: nat
    /** The fees charged so far, and the size they paid for. */
    ghost var paid: nat
    ghost var words: nat

    /** Between operations the store has whole words, all of them paid for. */
    ghost predicate Valid()
      reads this
    {
      |store| == 32 * words && |store| <= MAX_MEMORY && lastGasCost < TWO_64 &&
      (words < TWO_32 ==> lastGasCost == Fee(words) == paid) &&
      (words >= TWO_32 ==> paid >= MEMORY_GAS * TWO_32)
    }

    constructor ()
      ensures Valid() && store == [] && paid == 0
    {
      store, lastGasCost, paid, words := [], 0, 0, 0;
    }

    /** A fee has been quoted for growing to a size of whole words. */
    ghost predicate Quoted(size: nat, fee: nat)
      reads this
    {
      size % 32 == 0 && size <= MAX_MEMORY && |store| == 32 * words && |store| <= MAX_MEMORY && lastGasCost < TWO_64 &&
      var w := if size <= |store| then words else size / 32;
      (w < TWO_32 ==> lastGasCost == Fee(w) == paid + fee) && (w >= TWO_32 ==> paid + fee >= MEMORY_GAS * TWO_32)
    }

    /** The fee for growing to a size, none where the size is too large. It is noted before it is known
        whether it can be paid. */
    method GasCost(newMemSize: nat) returns (fee: Option<nat>)
      requires Valid() && newMemSize < TWO_64
      modifies `lastGasCost
      ensures fee == None <==> newMemSize > MAX_MEMORY
      ensures fee == None ==> lastGasCost == old(lastGasCost)
      ensures fee.Some? ==> Quoted(ToWordSize(newMemSize) * 32, fee.value)
      ensures newMemSize == 0 ==> fee == Some(0)
    {
      hide Fee, WrappedFee;
      if newMemSize == 0 { return Some(0); }
      if newMemSize > MAX_MEMORY { return None; }
      var newMemSizeWords := ToWordSize(newMemSize);
      if newMemSizeWords * 32 > |store| {
        var newTotalFee := TotalFee(newMemSizeWords);
        Difference(words, newMemSizeWords, lastGasCost);
        fee := Some((newTotalFee - lastGasCost) % TWO_64);
        lastGasCost := newTotalFee;
      } else {
        fee := Some(0);
      }
    }

    /** Grows the store once the fee has been paid. */
    method Resize(size: nat, ghost fee: nat)
      requires Quoted(size, fee)
      modifies `store, `paid, `words
      ensures Valid() && paid == old(paid) + fee
      ensures |store| == if |old(store)| < size then size else |old(store)|
      ensures old(store) <= store
      ensures forall i | |old(store)| <= i < |store| :: store[i] == 0
    {
      hide Fee;
      if |store| < size {
        store := store + seq(size - |store|, _ => 0);
        words := size / 32;
      }
      paid := paid + fee;
    }

    method Set(offset: nat, size: nat, value: seq<byte>)
      requires size > 0 ==> offset + size <= |store|
      modifies `store
      ensures store == Overwrite(old(store), offset, size, value)
    {
      if size > 0 {
        var n := if |value| < size then |value| else size;
        store := store[..offset] + value[..n] + store[offset + n..];
      }
    }

    method Set32(offset: nat, val: nat)
      requires offset + 32 <= |store|
      modifies `store
      ensures store == Overwrite(old(store), offset, 32, ToBytes(val, 32))
    {
      store := store[..offset] + ToBytes(val, 32) + store[offset + 32..];
    }

    method Get(offset: nat, size: nat) returns (cpy: seq<byte>)
      requires size > 0 ==> offset + size <= |store|
      ensures cpy == if size == 0 then [] else store[offset..offset + size]
    {
      if size == 0 { return []; }
      return store[offset..offset + size];
    }
  }

  /** Where less than 3 * 2^32 gas went into memory, every fee was exact and they add up to the fee of
      the final size. */
  lemma MemoryPaid(m: Memory)
    requires m.Valid() && m.paid < MEMORY_GAS * TWO_32
    ensures |m.store| == 32 * m.words && m.words < TWO_32 && m.lastGasCost == Fee(m.words) == m.paid
  {
  }

  /** One jump to 2^32 words is charged for the linear part only. */
  lemma SquareLost()
    ensures WrappedFee(TWO_32) == MEMORY_GAS * TWO_32 < Fee(TWO_32)
  {
    assert TWO_32 * TWO_32 == TWO_64;
  }
}
