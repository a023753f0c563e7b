/** Storage form of an unspent output: `core/chain/compress.go` and the serialisation in
    `core/chain/utxoset.go`. */
module UtxoCodec {
  import opened BigEndian
  import opened Varint

  const TOTAL_SUPPLY: nat := 300_000_000_000_000_000

  /** An output with the height of its block. */
  datatype Utxo = Utxo(value: nat, script: seq<byte>, height: nat)

  // ---- amounts ----------------------------------------------------------------------------

  function Pow10(e: nat): (p: nat)
    ensures 0 < p
  {
    if e == 0 then 1 else 10 * Pow10(e - 1)
  }

  /** Moves up to nine trailing decimal zeros of `v` into the exponent. */
  function Strip(v: nat, e: nat): (r: (nat, nat))
    decreases 9 - e
  {
    if v % 10 == 0 && e < 9 then Strip(v / 10, e + 1) else (v, e)
  }

  /** The code of a stripped amount, before 64-bit truncation. */
  function Code(m: nat, e: nat): (c: int) {
    if e < 9 then 1 + 10 * (9 * (m / 10) + m % 10 - 1) + e else 10 + 10 * (m - 1)
  }

  function CompressValue(v: nat): (c: nat) {
    if v == 0 then 0 else var (m, e) := Strip(v, 0); Code(m, e) % TWO_64
  }

  /** `n` multiplied by ten `e` times, in 64 bits. */
  function Scale(n: nat, e: nat): (r: nat)
    decreases e
  {
    if e == 0 then n else Scale(n * 10 % TWO_64, e - 1)
  }

  function DecompressValue(c: nat): (v: nat) {
    if c == 0 then 0
    else
      var e, x := (c - 1) % 10, (c - 1) / 10;
      if e < 9 then Scale((x / 9 * 10 + (x % 9 + 1)) % TWO_64, e) else Scale((x + 1) % TWO_64, e)
  }

  lemma {:induction false} StripLaw(v: nat, e: nat)
    requires 0 < v && e <= 9
    ensures var (m, f) := Strip(v, e);
            0 < m <= v && e <= f <= 9 && v == m * Pow10(f - e) && (f < 9 ==> m % 10 != 0)
    decreases 9 - e
  {
    if v % 10 == 0 && e < 9 {
      StripLaw(v / 10, e + 1);
      var (m, f) := Strip(v / 10, e + 1);
      Tenfold(m, f - e);
    }
  }

  lemma Bounded(n: nat, p: nat)
    requires 0 < p && n * p < TWO_64
    ensures n < TWO_64 && n % TWO_64 == n
  {
    if n >= TWO_64 { MulGap(n, 0, p); }
  }

  lemma Tenfold(m: nat, k: nat)
    requires 0 < k
    ensures 10 * (m * Pow10(k - 1)) == m * Pow10(k) && m * 10 * Pow10(k - 1) == m * Pow10(k)
  {
    var p := Pow10(k - 1);
    assert 10 * (m * p) == m * (10 * p);
  }

  lemma {:induction false} ScaleLaw(n: nat, e: nat)
    requires n * Pow10(e) < TWO_64
    ensures Scale(n, e) == n * Pow10(e)
    decreases e
  {
    if e > 0 {
      Tenfold(n, e);
      Bounded(n * 10, Pow10(e - 1));
      ScaleLaw(n * 10, e - 1);
    }
  }

  /** The code of `v` fits 64 bits; all amounts up to the total supply do. */
  predicate Fits(v: nat) {
    v < TWO_64 && (v == 0 || var (m, e) := Strip(v, 0); Code(m, e) < TWO_64)
  }

  lemma SupplyFits(v: nat)
    requires v <= TOTAL_SUPPLY
    ensures Fits(v)
  {
    if v > 0 { StripLaw(v, 0); }
  }

  lemma CodeDigits(m: nat, e: nat)
    requires 0 < m && e <= 9 && (e < 9 ==> m % 10 != 0)
    ensures var c := Code(m, e);
            0 < c && (c - 1) % 10 == e &&
            if e < 9 then (c - 1) / 10 / 9 * 10 + ((c - 1) / 10 % 9 + 1) == m else (c - 1) / 10 + 1 == m
  {
    var c := Code(m, e);
    if e < 9 {
      var a, d := m / 10, m % 10;
      ModUnique(c - 1, 10, 9 * a + d - 1, e);
      ModUnique(9 * a + d - 1, 9, a, d - 1);
    } else {
      ModUnique(c - 1, 10, m - 1, 9);
    }
  }

  /** Decompression undoes compression wherever the code fits. */
  lemma ValueRoundTrip(v: nat)
    requires Fits(v)
    ensures CompressValue(v) < TWO_64 && DecompressValue(CompressValue(v)) == v
  {
    hide Strip, Code, Scale;
    if v > 0 {
      StripLaw(v, 0);
      var (m, e) := Strip(v, 0);
      CodeDigits(m, e);
      var c := Code(m, e);
      ModUnique(c, TWO_64, 0, c);
      ModUnique(m, TWO_64, 0, m);
      ScaleLaw(m, e);
    }
  }

  // ---- amounts whose code leaves 64 bits ----

  /** Only amounts without a trailing zero have so long a code, which is then nine times the amount, less a
      little. */
  lemma LongCode(v: nat)
    requires 0 < v < TWO_64 && !Fits(v)
    ensures v % 10 != 0 && CompressValue(v) == (9 * v + v % 10 - 9) % TWO_64 && TWO_64 <= 9 * v + v % 10 - 9
  {
    hide Strip;
    StripLaw(v, 0);
    var (m, e) := Strip(v, 0);
    assert m / 10 * 10 + m % 10 == m;
    if e == 0 {
      assert m * Pow10(0) == m;
      NotStripped(v);
    } else {
      assert Pow10(e) >= 10 by { assert Pow10(e) == 10 * Pow10(e - 1); }
      if m * 10 > v { MulGap(m, 9, Pow10(e)); }
    }
  }

  lemma NotStripped(v: nat)
    requires Strip(v, 0).1 == 0
    ensures v % 10 != 0 && Strip(v, 0) == (v, 0)
  {
    if v % 10 == 0 { StripsUp(v / 10, 1); }
  }

  lemma {:induction false} StripsUp(v: nat, e: nat)
    requires e <= 9
    ensures Strip(v, e).1 >= e
    decreases 9 - e
  {
    if v % 10 == 0 && e < 9 { StripsUp(v / 10, e + 1); }
  }

  lemma {:induction false} ScaleMod(n: nat, e: nat)
    requires n < TWO_64
    ensures Scale(n, e) == n * Pow10(e) % TWO_64
    decreases e
  {
    if e == 0 {
      ModUnique(n, TWO_64, 0, n);
    } else {
      var n' := n * 10 % TWO_64;
      ScaleMod(n', e - 1);
      Tenfold(n, e);
      ModProduct(n * 10, Pow10(e - 1));
    }
  }

  lemma ModProduct(a: nat, p: nat)
    ensures a % TWO_64 * p % TWO_64 == a * p % TWO_64
  {
    var q, r := a / TWO_64, a % TWO_64;
    assert a * p == r * p + TWO_64 * (q * p);
    var s := r * p;
    ModUnique(a * p, TWO_64, s / TWO_64 + q * p, s % TWO_64);
  }

  /** Decompression of a code that ends in `e < 9`: nine times its digits is the code, less a little. */
  lemma DigitsOf(c: nat) returns (n: nat, r: nat)
    requires 0 < c < TWO_64 && (c - 1) % 10 < 9
    ensures var e := (c - 1) % 10;
            r <= 8 && n < TWO_64 && 9 * n == c + 8 - e - r && DecompressValue(c) == n * Pow10(e) % TWO_64
  {
    hide Scale;
    var e, x := (c - 1) % 10, (c - 1) / 10;
    n, r := x / 9 * 10 + (x % 9 + 1), x % 9;
    assert c - 1 == 10 * x + e;
    assert x == 9 * (x / 9) + r;
    ModUnique(n, TWO_64, 0, n);
    ScaleMod(n, e);
  }

  /** A multiple of 2^64 that differs from a multiple of `d` by `c` is determined modulo `d`. */
  lemma Residue(n: int, j: int, c: int, d: int, inv: int, u: int)
    requires d * n == c + j * TWO_64 && TWO_64 * inv == 1 + u * d
    ensures j + inv * c == d * (inv * n - u * j)
  {
    assert inv * (d * n) == inv * c + inv * (j * TWO_64);
    assert inv * (j * TWO_64) == j * (TWO_64 * inv);
    assert j * (1 + u * d) == j + d * (u * j);
    assert inv * (d * n) == d * (inv * n);
  }

  lemma NoMultiple(n: int, j: int, c: int, d: int, inv: int, j0: int)
    requires 0 < d && TWO_64 * inv % d == 1 && (j0 + inv * c) % d == 0 && 0 <= j < j0 < d
    ensures d * n != c + j * TWO_64
  {
    if d * n == c + j * TWO_64 {
      var u, q := TWO_64 * inv / d, (j0 + inv * c) / d;
      assert TWO_64 * inv == 1 + u * d && j0 + inv * c == q * d;
      Residue(n, j, c, d, inv, u);
      var w := q - (inv * n - u * j);
      assert j0 - j == d * w by { assert d * w == d * q - d * (inv * n - u * j); }
      if w >= 1 { MulGap(d, 0, w); } else { MulGap(d, w - 1, 0); }
    }
  }

  /** The last digit, less one, of a code that passes `k` times 2^64. */
  function EndOf(k: nat): nat {
    4 * k % 10
  }

  /** How much a code that passes `k` times 2^64 is short of its amount, at least. */
  function Gap(k: nat): nat {
    if k == 1 then 2049638230412172402
    else if k == 2 then 4099276460824344804
    else if k == 3 then 6148914691236517205
    else if k == 4 then 8198552921648689607
    else if k == 5 then 10248191152060862008
    else if k == 6 then 12297829382473034411
    else if k == 7 then 14347467612885206813
    else 16397105843297379214
  }

  lemma NoReturnTwo(k: nat, n: int, j: int, c: int)
    requires (k == 3 || k == 8) && (c == Gap(k) || c == Gap(k) + 1) && 0 <= j <= 12
    ensures 99 * n != c + j * TWO_64
  {
    NoMultiple(n, j, 6148914691236517205, 99, 31, 76);
    NoMultiple(n, j, 6148914691236517206, 99, 31, 45);
    NoMultiple(n, j, 16397105843297379214, 99, 31, 50);
    NoMultiple(n, j, 16397105843297379215, 99, 31, 19);
  }

  lemma NoReturnFour(k: nat, n: int, j: int, c: int)
    requires (k == 1 || k == 6) && (c == Gap(k) || c == Gap(k) + 1) && 0 <= j <= 1112
    ensures 9999 * n != c + j * TWO_64
  {
    NoMultiple(n, j, 2049638230412172402, 9999, 2704, 7176);
    NoMultiple(n, j, 2049638230412172403, 9999, 2704, 4472);
    NoMultiple(n, j, 12297829382473034411, 9999, 2704, 5764);
    NoMultiple(n, j, 12297829382473034412, 9999, 2704, 3060);
  }

  lemma NoReturnSix(k: nat, n: int, j: int, c: int)
    requires (k == 4) && (c == Gap(k) || c == Gap(k) + 1) && 0 <= j <= 111112
    ensures 999999 * n != c + j * TWO_64
  {
    NoMultiple(n, j, 8198552921648689607, 999999, 909346, 323260);
    NoMultiple(n, j, 8198552921648689608, 999999, 909346, 413913);
  }

  lemma NoReturnEight(k: nat, n: int, j: int, c: int)
    requires (k == 2 || k == 7) && (c == Gap(k) || c == Gap(k) + 1) && 0 <= j <= 11111112
    ensures 99999999 * n != c + j * TWO_64
  {
    NoMultiple(n, j, 4099276460824344804, 99999999, 98372866, 56278725);
    NoMultiple(n, j, 4099276460824344805, 99999999, 98372866, 57905858);
    NoMultiple(n, j, 14347467612885206813, 99999999, 98372866, 45348406);
    NoMultiple(n, j, 14347467612885206814, 99999999, 98372866, 46975539);
  }

  /** No digits shifted by such an end come back to the amount. */
  lemma NoReturn(k: nat, n: int, j: int, c: int)
    requires 1 <= k <= 8 && k != 5 && (c == Gap(k) || c == Gap(k) + 1) && 0 <= j <= Pow10(EndOf(k)) / 9 + 1
    ensures (Pow10(EndOf(k)) - 1) * n != c + j * TWO_64
  {
    hide Gap, Pow10;
    Powers();
    if k == 3 || k == 8 {
      NoReturnTwo(k, n, j, c);
    } else if k == 1 || k == 6 {
      NoReturnFour(k, n, j, c);
    } else if k == 4 {
      NoReturnSix(k, n, j, c);
    } else {
      NoReturnEight(k, n, j, c);
    }
  }

  lemma Powers()
    ensures Pow10(2) == 100 && Pow10(4) == 10000 && Pow10(6) == 1000000 && Pow10(8) == 100000000
  {
    assert Pow10(2) == 100;
    assert Pow10(4) == 100 * Pow10(2);
    assert Pow10(6) == 100 * Pow10(4);
    assert Pow10(8) == 100 * Pow10(6);
  }

  /** The amount and the digits of what is left of its code. */
  lemma GapOf(k: nat, v: nat, n: nat, r: nat)
    requires 1 <= k <= 8 && r <= 8 && 1 <= v % 10 <= 9
    requires 9 * n == 9 * v + v % 10 - 9 - k * TWO_64 + 8 - EndOf(k) - r
    ensures v - n == Gap(k) || v - n == Gap(k) + 1
  {
  }

  lemma EndsIn(k: nat, v: nat)
    requires 1 <= k <= 8 && v % 10 != 0 && k * TWO_64 < 9 * v + v % 10 - 9
    ensures (9 * v + v % 10 - 9 - k * TWO_64 - 1) % 10 == EndOf(k)
  {
    var a, d := v / 10, v % 10;
    assert 9 * v + d - 9 - k * TWO_64 - 1 == 10 * (9 * a + d - 1) - k * TWO_64;
    assert k * TWO_64 == 10 * (k * 1844674407370955161) + 6 * k;
    assert v == 10 * a + d;
    var x := 9 * a + d - 1 - k * 1844674407370955161;
    assert 6 * k + EndOf(k) == 10 * ((6 * k + EndOf(k)) / 10);
    ModUnique(10 * x - 6 * k, 10, x - (6 * k + EndOf(k)) / 10, EndOf(k));
  }

  /** An amount whose code does not fit does not come back. */
  lemma LongLost(v: nat)
    requires v < TWO_64 && !Fits(v)
    ensures DecompressValue(CompressValue(v)) != v
  {
    hide Strip, Code, Scale, Gap, EndOf, CompressValue, DecompressValue, Fits, Pow10;
    NoneFits();
    LongCode(v);
    var k, c := Passes(9 * v + v % 10 - 9);
    CodeEnds(k, v);
    EndsIn(k, v);
    EndBound(k);
    var n, r := DigitsOf(c);
    GapOf(k, v, n, r);
    if DecompressValue(c) == v {
      ComesBack(k, v, n);
    }
  }

  /** A number between 2^64 and nine times that, reduced to 64 bits. */
  lemma Passes(code: nat) returns (k: nat, c: nat)
    requires TWO_64 <= code < 9 * TWO_64
    ensures 1 <= k <= 8 && c < TWO_64 && code == k * TWO_64 + c && c == code % TWO_64
  {
    k, c := code / TWO_64, code % TWO_64;
  }

  lemma ComesBack(k: nat, v: nat, n: nat)
    requires 1 <= k <= 8 && (v - n == Gap(k) || v - n == Gap(k) + 1) && 9 * n <= TWO_64 + 8
    ensures n * Pow10(EndOf(k)) % TWO_64 != v
  {
    hide Gap, EndOf, Pow10;
    var p := Pow10(EndOf(k));
    if n * p % TWO_64 == v {
      var j := Excess(n, p, v);
      EndBound(k);
      if k == 5 {
        GapOfFive();
      } else {
        EndPower(k);
        Quotients(n, p, j);
        NoReturn(k, n, j, v - n);
      }
    }
  }

  lemma Excess(n: nat, p: nat, v: nat) returns (j: nat)
    requires n * p % TWO_64 == v
    ensures (p - 1) * n == (v - n) + j * TWO_64 && j * TWO_64 <= n * p
    ensures p == 1 && n < TWO_64 ==> v == n
  {
    j := n * p / TWO_64;
    assert n * p == v + j * TWO_64;
    assert (p - 1) * n == n * p - n;
    if p == 1 && n < TWO_64 { ModUnique(n, TWO_64, 0, n); }
  }

  lemma EndPower(k: nat)
    requires 1 <= k <= 8
    ensures Pow10(EndOf(k)) <= 100000000
  {
    Powers();
    assert Pow10(0) == 1;
  }

  lemma NoneFits()
    ensures Fits(0)
  {
  }

  lemma CodeEnds(k: nat, v: nat)
    requires v % 10 != 0 && k <= 8
    ensures 9 * v + v % 10 - 9 != k * TWO_64
  {
    var a, d := v / 10, v % 10;
    assert 9 * v + d - 9 == 10 * (9 * a + d - 1) + 1;
  }

  lemma EndBound(k: nat)
    requires 1 <= k <= 8
    ensures EndOf(k) < 9 && (k == 5 ==> EndOf(k) == 0)
  {
  }

  lemma GapOfFive()
    ensures Gap(5) > 0 && Pow10(0) == 1 && EndOf(5) == 0
  {
  }

  lemma Quotients(n: nat, p: nat, j: nat)
    requires 9 * n <= TWO_64 + 8 && j * TWO_64 <= n * p && p <= 100000000
    ensures j <= p / 9 + 1
  {
    assert 9 * (j * TWO_64) <= 9 * (n * p);
    assert 9 * (n * p) == (9 * n) * p;
    if j > p / 9 + 1 {
      assert 9 * j >= p + 10;
      assert 9 * j * TWO_64 >= (p + 10) * TWO_64 by { MulGap(TWO_64, p + 9, 9 * j); }
      assert (9 * n) * p <= (TWO_64 + 8) * p by { if 9 * n < TWO_64 + 8 && p > 0 { MulGap(p, 9 * n, TWO_64 + 8); } }
    }
  }

  /** Compression and decompression give an amount back exactly if its code fits 64 bits. */
  lemma ValueExactly(v: nat)
    requires v < TWO_64
    ensures DecompressValue(CompressValue(v)) == v <==> Fits(v)
  {
    hide DecompressValue, CompressValue, Fits;
    if Fits(v) { ValueRoundTrip(v); } else { LongLost(v); }
  }

  /** One such amount, which comes back as 10000. */
  lemma AmountLost()
    ensures !Fits(2049638230412172403) && DecompressValue(CompressValue(2049638230412172403)) == 10000
  {
    var v := 2049638230412172403;
    assert Strip(v, 0) == (v, 0);
    assert CompressValue(v) == 5;
    assert Scale(1, 4) == 10000 by { ScaleLaw(1, 4); Powers(); }
  }

  method CompressTxOutValue(value: nat) returns (c: nat)
    ensures c == CompressValue(value)
  {
    if value == 0 { return 0; }
    var v, exponent := value, 0;
    while v % 10 == 0 && exponent < 9
      invariant 0 <= exponent <= 9 && Strip(value, 0) == Strip(v, exponent)
      decreases 9 - exponent
    {
      v := v / 10;
      exponent := exponent + 1;
    }
    c := Code(v, exponent) % TWO_64;
  }

  method DecompressTxOutValue(value: nat) returns (n: nat)
    ensures n == DecompressValue(value)
  {
    if value == 0 { return 0; }
    var exponent, x := (value - 1) % 10, (value - 1) / 10;
    n := if exponent < 9 then (x / 9 * 10 + (x % 9 + 1)) % TWO_64 else (x + 1) % TWO_64;
    while exponent > 0
      invariant 0 <= exponent && DecompressValue(value) == Scale(n, exponent)
    {
      n := n * 10 % TWO_64;
      exponent := exponent - 1;
    }
  }

  // ---- scripts ----------------------------------------------------------------------------

  const OP_DUP: byte := 0x76
  const OP_HASH160: byte := 0xa9
  const OP_EQUAL: byte := 0x87
  const OP_EQUALVERIFY: byte := 0x88
  const OP_CHECKSIG: byte := 0xac
  const OP_DATA20: byte := 0x14

  /** `isPubKeyHash`; the push byte at index 2 is not looked at. */
  predicate IsPubKeyHash(s: seq<byte>) {
    |s| == 25 && s[0] == OP_DUP && s[1] == OP_HASH160 && s[23] == OP_EQUALVERIFY && s[24] == OP_CHECKSIG
  }

  /** `isScriptHash`; the push byte at index 1 is not looked at. */
  predicate IsScriptHash(s: seq<byte>) {
    |s| == 23 && s[0] == OP_HASH160 && s[22] == OP_EQUAL
  }

  function CompressScript(s: seq<byte>): (b: seq<byte>) {
    if IsPubKeyHash(s) then [0] + s[3..23]
    else if IsScriptHash(s) then [1] + s[2..22]
    else Vlq(|s| + 6) + s
  }

  /** The script with the push byte of its template put in. */
  function Canonical(s: seq<byte>): (c: seq<byte>) {
    if IsPubKeyHash(s) then s[2 := OP_DATA20]
    else if IsScriptHash(s) then s[1 := OP_DATA20]
    else s
  }

  /** A script that matches a template has the template's push byte. */
  predicate PushesTwenty(s: seq<byte>) {
    (IsPubKeyHash(s) ==> s[2] == OP_DATA20) && (IsScriptHash(s) ==> s[1] == OP_DATA20)
  }

  lemma CanonicalLaw(s: seq<byte>)
    ensures Canonical(s) == s <==> PushesTwenty(s)
  {
    if IsPubKeyHash(s) {
      assert s[2 := OP_DATA20][2] == OP_DATA20;
    } else if IsScriptHash(s) {
      assert s[1 := OP_DATA20][1] == OP_DATA20;
    }
  }

  /** `decodeCompressedScriptSize` in 64 bits, read as a signed `int`. */
  function ScriptSize(s: seq<byte>): (size: int) {
    var (code, read) := Read(s, 0, 0);
    if read == 0 then 0
    else if code <= 1 then 21
    else var x := (code - 6 + read) % TWO_64; if TWO_63 <= x then x - TWO_64 else x
  }

  /** `decompressScript`; `None` is a slice out of range. */
  function DecompressScript(s: seq<byte>): (r: Option<seq<byte>>) {
    if s == [] then Some([])
    else
      var (code, read) := Read(s, 0, 0);
      if code == 0 then
        if |s| < read + 20 then None
        else Some([OP_DUP, OP_HASH160, OP_DATA20] + s[read..read + 20] + [OP_EQUALVERIFY, OP_CHECKSIG])
      else if code == 1 then
        if |s| < read + 20 then None
        else Some([OP_HASH160, OP_DATA20] + s[read..read + 20] + [OP_EQUAL])
      else
        if code < 6 || |s| < read + (code - 6) then None else Some(s[read..read + (code - 6)])
  }

  /** The size read back is the size written, and the script comes back with its template's push byte. */
  lemma ScriptRoundTrip(s: seq<byte>, rest: seq<byte>)
    requires |s| < 0x1_0000_0000
    ensures ScriptSize(CompressScript(s) + rest) == |CompressScript(s)|
    ensures DecompressScript(CompressScript(s)) == Some(Canonical(s))
  {
    var b := CompressScript(s);
    if IsPubKeyHash(s) {
      assert b[1..21] == s[3..23];
      assert s[23..] == [OP_EQUALVERIFY, OP_CHECKSIG];
      assert [OP_DUP, OP_HASH160, OP_DATA20] + s[3..23] + s[23..] == Canonical(s);
    } else if IsScriptHash(s) {
      assert b[1..21] == s[2..22];
      assert s[22..] == [OP_EQUAL];
      assert [OP_HASH160, OP_DATA20] + s[2..22] + s[22..] == Canonical(s);
    } else {
      PlainScript(s, rest);
    }
  }

  lemma PlainScript(s: seq<byte>, rest: seq<byte>)
    requires |s| < 0x1_0000_0000
    ensures var b := Vlq(|s| + 6) + s;
            ScriptSize(b + rest) == |b| && DecompressScript(b) == Some(s)
  {
    hide Vlq, Read;
    var n := |s| + 6;
    var b := Vlq(n) + s;
    assert b + rest == Vlq(n) + (s + rest);
    ReadVlq(n, s + rest);
    ReadVlq(n, s);
    VlqShort(n);
    assert b[|Vlq(n)|..|Vlq(n)| + |s|] == s;
    ModUnique(n - 6 + |Vlq(n)|, TWO_64, 0, n - 6 + |Vlq(n)|);
  }

  lemma {:induction false} VlqShort(n: nat)
    ensures |Vlq(n)| <= n + 1
  {
    if n > 0x7f { VlqHighShort(n / 128 - 1); }
  }

  lemma {:induction false} VlqHighShort(n: nat)
    ensures |VlqHigh(n)| <= n + 1
  {
    if n > 0x7f { VlqHighShort(n / 128 - 1); }
  }

  // ---- the whole entry ----------------------------------------------------------------------

  /** What `SerializeUtxoWrap` writes for an unspent output. */
  function Serialize(u: Utxo): (b: seq<byte>) {
    Vlq(2 * u.height) + Vlq(CompressValue(u.value)) + CompressScript(u.script)
  }

  /** `decodeCompressedTxOut`. */
  function DecodeTxOut(s: seq<byte>): (r: Option<(nat, seq<byte>)>) {
    var (amount, read) := Read(s, 0, 0);
    if read >= |s| then None
    else
      var size := ScriptSize(s[read..]);
      if size < 0 || |s[read..]| < size then None
      else
        match DecompressScript(s[read..read + size])
        case None => None
        case Some(script) => Some((DecompressValue(amount), script))
  }

  /** `DeserializeUtxoWrap`. */
  function Deserialize(s: seq<byte>): (r: Option<Utxo>) {
    var (code, read) := Read(s, 0, 0);
    if read >= |s| then None
    else
      match DecodeTxOut(s[read..])
      case None => None
      case Some((value, script)) => Some(Utxo(value, script, code / 2 % 0x1_0000_0000))
  }

  predicate Storable(u: Utxo) {
    u.height < 0x1_0000_0000 && Fits(u.value) && |u.script| < 0x1_0000_0000
  }

  lemma TxOutRoundTrip(u: Utxo, rest: seq<byte>)
    requires Storable(u)
    ensures DecodeTxOut(Vlq(CompressValue(u.value)) + CompressScript(u.script) + rest) ==
            Some((u.value, Canonical(u.script)))
  {
    hide Vlq, Read, CompressValue, DecompressValue, CompressScript, ScriptSize, DecompressScript, Canonical, Fits;
    var amount, script := Vlq(CompressValue(u.value)), CompressScript(u.script);
    var s := amount + script + rest;
    ValueRoundTrip(u.value);
    assert s == amount + (script + rest);
    ReadVlq(CompressValue(u.value), script + rest);
    assert s[|amount|..] == script + rest;
    ScriptRoundTrip(u.script, rest);
    ScriptNonempty(u.script);
    assert s[|amount|..|amount| + |script|] == script;
  }

  lemma ScriptNonempty(s: seq<byte>)
    ensures 1 <= |CompressScript(s)|
  {
  }

  /** A stored output is read back whatever bytes follow it, with its template's push byte; so it is
      read back unchanged exactly when a script that matches a template has that byte. */
  lemma EntryRoundTrip(u: Utxo, rest: seq<byte>)
    requires Storable(u)
    ensures Deserialize(Serialize(u) + rest) == Some(u.(script := Canonical(u.script)))
    ensures Deserialize(Serialize(u) + rest) == Some(u) <==> PushesTwenty(u.script)
  {
    hide Vlq, Read, CompressValue, CompressScript, DecodeTxOut, Fits, Canonical, PushesTwenty;
    var head, tail := Vlq(2 * u.height), Vlq(CompressValue(u.value)) + CompressScript(u.script) + rest;
    assert Serialize(u) + rest == head + tail;
    ReadVlq(2 * u.height, tail);
    ScriptNonempty(u.script);
    assert (head + tail)[|head|..] == tail;
    TxOutRoundTrip(u, rest);
    HeightBack(u.height);
    CanonicalLaw(u.script);
  }

  lemma HeightBack(h: nat)
    requires h < 0x1_0000_0000
    ensures 2 * h / 2 % 0x1_0000_0000 == h
  {
  }

  // ---- writing and reading ----------------------------------------------------------------

  method CompressedScriptSize(s: seq<byte>) returns (size: nat)
    ensures size == |CompressScript(s)|
  {
    if IsPubKeyHash(s) || IsScriptHash(s) {
      size := 21;
    } else {
      size := SerializeSizeVLQ(|s| + 6);
      size := size + |s|;
    }
  }

  method CopyInto(target: array<byte>, at: nat, s: seq<byte>)
    requires at + |s| <= target.Length
    modifies target
    ensures target[at..at + |s|] == s
    ensures forall x | 0 <= x < target.Length && !(at <= x < at + |s|) :: target[x] == old(target[x])
  {
    for i := 0 to |s|
      invariant forall x | at <= x < at + i :: target[x] == s[x - at]
      invariant forall x | 0 <= x < target.Length && !(at <= x < at + i) :: target[x] == old(target[x])
    {
      target[at + i] := s[i];
    }
  }

  method PutTagged(target: array<byte>, at: nat, tag: byte, hash: seq<byte>)
    requires at + 1 + |hash| <= target.Length
    modifies target
    ensures target[at..at + 1 + |hash|] == [tag] + hash
    ensures forall x | 0 <= x < target.Length && !(at <= x < at + 1 + |hash|) :: target[x] == old(target[x])
  {
    target[at] := tag;
    CopyInto(target, at + 1, hash);
    assert target[at..at + 1 + |hash|] == [target[at]] + target[at + 1..at + 1 + |hash|];
  }

  method PutPlain(target: array<byte>, at: nat, s: seq<byte>) returns (size: nat)
    requires at + |Vlq(|s| + 6)| + |s| <= target.Length
    modifies target
    ensures size == |Vlq(|s| + 6)| + |s| && target[at..at + size] == Vlq(|s| + 6) + s
    ensures forall x | 0 <= x < target.Length && !(at <= x < at + size) :: target[x] == old(target[x])
  {
    hide Vlq;
    var len := PutVLQ(target, at, |s| + 6);
    ghost var head := target[at..at + len];
    CopyInto(target, at + len, s);
    assert target[at..at + len] == head;
    size := len + |s|;
    assert target[at..at + size] == target[at..at + len] + target[at + len..at + size];
  }

  /** `compressedScript` into the part of `target` from `at`. */
  method PutScript(target: array<byte>, at: nat, s: seq<byte>) returns (size: nat)
    requires at + |CompressScript(s)| <= target.Length
    modifies target
    ensures size == |CompressScript(s)| && target[at..at + size] == CompressScript(s)
    ensures forall x | 0 <= x < target.Length && !(at <= x < at + size) :: target[x] == old(target[x])
  {
    hide Vlq;
    size := 21;
    if IsPubKeyHash(s) {
      PutTagged(target, at, 0, s[3..23]);
    } else if IsScriptHash(s) {
      PutTagged(target, at, 1, s[2..22]);
    } else {
      size := PutPlain(target, at, s);
    }
  }

  /** `SerializeUtxoWrap` of an unspent output: the size computed first is the size written. */
  method SerializeUtxo(u: Utxo) returns (serialized: seq<byte>)
    ensures serialized == Serialize(u)
  {
    hide Vlq, CompressValue, CompressScript;
    var amount := CompressTxOutValue(u.value);
    var headSize := SerializeSizeVLQ(2 * u.height);
    var amountSize := SerializeSizeVLQ(amount);
    var scriptSize := CompressedScriptSize(u.script);
    var buffer := new byte[headSize + amountSize + scriptSize](_ => 0);
    var offset := PutVLQ(buffer, 0, 2 * u.height);
    ghost var head := buffer[..offset];
    var written := PutVLQ(buffer, offset, amount);
    assert buffer[..offset] == head;
    ghost var upTo := buffer[..offset + written];
    assert upTo == head + Vlq(amount);
    offset := offset + written;
    written := PutScript(buffer, offset, u.script);
    assert buffer[..offset] == upTo;
    assert buffer[..] == buffer[..offset] + buffer[offset..];
    serialized := buffer[..];
  }

  method DeserializeUtxo(s: seq<byte>) returns (r: Option<Utxo>)
    ensures r == Deserialize(s)
  {
    hide Read, DecompressValue, DecompressScript, ScriptSize;
    var code, offset := DeserializeVLQ(s);
    if offset >= |s| { return None; }
    var t := s[offset..];
    var amount, read := DeserializeVLQ(t);
    if read >= |t| { return None; }
    var size := ScriptSize(t[read..]);
    if size < 0 || |t[read..]| < size { return None; }
    var script := DecompressScript(t[read..read + size]);
    if script == None { return None; }
    var value := DecompressTxOutValue(amount);
    return Some(Utxo(value, script.value, code / 2 % 0x1_0000_0000));
  }
}
