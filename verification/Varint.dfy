/** The variable-length integers of `core/chain/compress.go`. */
module Varint {
  import opened BigEndian

  /** Base-128 digits, most significant first; every digit but the last carries the high bit, and
      one is subtracted at each step so that every number has exactly one rendering. */
  function Vlq(n: nat): (b: seq<byte>)
    ensures 1 <= |b|
  {
    if n <= 0x7f then [n] else VlqHigh(n / 128 - 1) + [n % 128]
  }

  function VlqHigh(n: nat): (b: seq<byte>)
    ensures 1 <= |b|
  {
    if n <= 0x7f then [n + 128] else VlqHigh(n / 128 - 1) + [n % 128 + 128]
  }

  /** The digits still to come at step `k` of the writer. */
  ghost function Rest(k: nat, n: nat): (b: seq<byte>) {
    if k == 0 then Vlq(n) else VlqHigh(n)
  }

  function Push(n: nat, b: byte): (n': nat) {
    (n * 128 + b % 128) % TWO_64
  }

  function Inc(n: nat): (n': nat) {
    (n + 1) % TWO_64
  }

  /** `deserializeVLQ` from accumulator `n` after `size` bytes; 64-bit arithmetic. */
  function Read(s: seq<byte>, n: nat, size: nat): (r: (nat, nat))
    ensures size <= r.1 <= size + |s|
  {
    if s == [] then (n, size)
    else if s[0] < 128 then (Push(n, s[0]), size + 1)
    else Read(s[1..], Inc(Push(n, s[0])), size + 1)
  }

  /** Below 64 bits, pushing the last digit back undoes taking it off. */
  lemma PushBack(n: nat, high: nat)
    requires n < TWO_64 && high in {0, 128}
    ensures Push(n / 128, n % 128 + high) == n
  {
  }

  lemma {:induction false} ReadHigh(n: nat, rest: seq<byte>, size: nat)
    requires n + 1 < TWO_64
    ensures Read(VlqHigh(n) + rest, 0, size) == Read(rest, n + 1, size + |VlqHigh(n)|)
    decreases n
  {
    hide Push;
    PushBack(n, 128);
    if n <= 0x7f {
      ReadDigit([], n + 128, rest, 0, size);
    } else {
      var m, d := n / 128 - 1, n % 128 + 128;
      ReadHigh(m, [d] + rest, size);
      ReadDigit(VlqHigh(m), d, rest, n / 128, size + |VlqHigh(m)|);
    }
  }

  /** One step of the reader over a digit with the high bit, wherever it stands. */
  lemma ReadDigit(before: seq<byte>, d: byte, rest: seq<byte>, n: nat, size: nat)
    requires 128 <= d && Push(n, d) + 1 < TWO_64
    ensures Read([d] + rest, n, size) == Read(rest, Push(n, d) + 1, size + 1)
    ensures (before + [d]) + rest == before + ([d] + rest)
  {
    hide Push;
    assert ([d] + rest)[1..] == rest;
  }

  /** Decoding an encoding followed by anything gives the number and the length written. */
  lemma ReadVlq(n: nat, rest: seq<byte>)
    requires n < TWO_64
    ensures Read(Vlq(n) + rest, 0, 0) == (n, |Vlq(n)|)
  {
    hide Push, VlqHigh;
    PushBack(n, 0);
    if n <= 0x7f {
      assert (Vlq(n) + rest)[0] == n;
    } else {
      var m, d := n / 128 - 1, n % 128;
      ReadHigh(m, [d] + rest, 0);
      assert Vlq(n) + rest == VlqHigh(m) + ([d] + rest);
    }
  }

  /** `serializeSizeVLQ`. */
  method SerializeSizeVLQ(n: nat) returns (size: nat)
    ensures size == |Vlq(n)|
  {
    size := 1;
    var m := n;
    while m > 0x7f
      invariant 0 < size && |Vlq(n)| == size - 1 + |Rest(size - 1, m)|
      decreases m
    {
      m := m / 128 - 1;
      size := size + 1;
    }
  }

  ghost function Reversed(s: seq<byte>): (r: seq<byte>)
    ensures |r| == |s| && forall i | 0 <= i < |s| :: r[i] == s[|s| - 1 - i]
  {
    seq(|s|, i requires 0 <= i < |s| => s[|s| - 1 - i])
  }

  /** `putVLQ` into the part of `target` from `at`: digits low first, then reversed in place. */
  method PutVLQ(target: array<byte>, at: nat, n: nat) returns (size: nat)
    requires at + |Vlq(n)| <= target.Length
    modifies target
    ensures size == |Vlq(n)| && target[at..at + size] == Vlq(n)
    ensures forall x | 0 <= x < target.Length && !(at <= x < at + size) :: target[x] == old(target[x])
  {
    hide Vlq;
    size := PutDigits(target, at, n);
    ghost var w := target[at..at + size];
    ReverseInPlace(target, at, size);
    assert target[at..at + size] == Reversed(w);
  }

  /** After `|w|` digits, low first, `Rest` of `m` is what is left of the rendering of `n`. */
  ghost predicate Written(n: nat, m: nat, w: seq<byte>) {
    Vlq(n) == Rest(|w|, m) + Reversed(w)
  }

  function Mask(k: nat): (d: byte) {
    if k == 0 then 0 else 0x80
  }

  lemma WrittenStep(n: nat, m: nat, w: seq<byte>)
    requires Written(n, m, w) && m > 0x7f
    ensures Written(n, m / 128 - 1, w + [m % 128 + Mask(|w|)])
  {
    var d: byte := m % 128 + Mask(|w|);
    RestStep(|w|, m);
    hide Vlq, VlqHigh, Reversed;
    ReversedLast(w, d);
    Regroup(VlqHigh(m / 128 - 1), [d], Reversed(w));
  }

  lemma RestStep(k: nat, m: nat)
    requires m > 0x7f
    ensures Rest(k, m) == VlqHigh(m / 128 - 1) + [m % 128 + Mask(k)]
  {
  }

  lemma ReversedLast(w: seq<byte>, d: byte)
    ensures Reversed(w + [d]) == [d] + Reversed(w)
  {
  }

  lemma Regroup(a: seq<byte>, b: seq<byte>, c: seq<byte>)
    ensures (a + b) + c == a + (b + c)
  {
  }

  lemma WrittenLast(n: nat, m: nat, w: seq<byte>)
    requires Written(n, m, w) && m <= 0x7f
    ensures Vlq(n) == Reversed(w + [m + Mask(|w|)])
  {
    var d: byte := m + Mask(|w|);
    assert Rest(|w|, m) == [d];
    assert Reversed(w + [d]) == [d] + Reversed(w);
  }

  /** The writing loop of `putVLQ`. */
  method PutDigits(target: array<byte>, at: nat, n: nat) returns (size: nat)
    requires at + |Vlq(n)| <= target.Length
    modifies target
    ensures size == |Vlq(n)|
    ensures Reversed(target[at..at + size]) == Vlq(n)
    ensures forall x | 0 <= x < target.Length && !(at <= x < at + size) :: target[x] == old(target[x])
  {
    hide Vlq, VlqHigh, Rest, Reversed;
    var m: nat, offset := n, 0;
    ghost var w, o: seq<byte> := [], target[..];
    WrittenStart(n);
    while m > 0x7f
      invariant offset == |w| && at + offset <= target.Length && Written(n, m, w)
      invariant forall k | 0 <= k < offset :: target[at + k] == w[k]
      invariant forall x | 0 <= x < target.Length && !(at <= x < at + offset) :: target[x] == o[x]
      decreases m
    {
      WrittenStep(n, m, w);
      RestNonempty(n, m, w);
      target[at + offset] := m % 128 + Mask(offset);
      w := w + [target[at + offset]];
      m := m / 128 - 1;
      offset := offset + 1;
    }
    WrittenLast(n, m, w);
    RestNonempty(n, m, w);
    target[at + offset] := m + Mask(offset);
    w := w + [target[at + offset]];
    size := offset + 1;
    assert target[at..at + size] == w;
  }

  lemma WrittenStart(n: nat)
    ensures Written(n, n, [])
  {
    assert Reversed([]) == [];
    assert Vlq(n) + [] == Vlq(n);
  }

  lemma RestNonempty(n: nat, m: nat, w: seq<byte>)
    requires Written(n, m, w)
    ensures |w| < |Vlq(n)|
  {
  }

  method ReverseInPlace(target: array<byte>, at: nat, size: nat)
    requires at + size <= target.Length
    modifies target
    ensures forall x | at <= x < at + size :: target[x] == old(target[2 * at + size - 1 - x])
    ensures forall x | 0 <= x < target.Length && !(at <= x < at + size) :: target[x] == old(target[x])
  {
    var i, j := at, at + size - 1;
    ghost var o := target[..];
    while i < j
      invariant at <= i <= j + 2 && i + j == 2 * at + size - 1
      invariant forall x | at <= x < i :: target[x] == o[2 * at + size - 1 - x]
      invariant forall x | j < x < at + size :: target[x] == o[2 * at + size - 1 - x]
      invariant forall x | 0 <= x < target.Length && !(at <= x < i) && !(j < x < at + size) :: target[x] == o[x]
      decreases j
    {
      target[i], target[j] := target[j], target[i];
      i, j := i + 1, j - 1;
    }
  }

  /** `deserializeVLQ`. */
  method DeserializeVLQ(serialized: seq<byte>) returns (n: nat, size: nat)
    ensures (n, size) == Read(serialized, 0, 0)
  {
    n, size := 0, 0;
    while size < |serialized|
      invariant size <= |serialized|
      invariant Read(serialized, 0, 0) == Read(serialized[size..], n, size)
    {
      var val := serialized[size];
      assert serialized[size..][1..] == serialized[size + 1..];
      size := size + 1;
      n := Push(n, val);
      if val < 128 { break; }
      n := Inc(n);
    }
  }
}
