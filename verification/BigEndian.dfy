/** Bytes and their big-endian reading, shared by the codecs and the virtual machine. */
module BigEndian {

  type byte = x: int | 0 <= x < 256

  /** The stock optional value: `None` stands for the source's error return or panic. */
  datatype Option<+T> = None | Some(value: T)

  const TWO_63: int := 0x8000_0000_0000_0000
  const TWO_64: int := 0x1_0000_0000_0000_0000

  function Pow2(k: nat): (p: nat)
    ensures 0 < p
  {
    if k == 0 then 1 else 2 * Pow2(k - 1)
  }

  function Pow256(k: nat): (p: nat)
    ensures 0 < p
  {
    if k == 0 then 1 else 256 * Pow256(k - 1)
  }

  /** The `k` low bytes of `n`, most significant first. */
  function ToBytes(n: nat, k: nat): (b: seq<byte>)
    ensures |b| == k
    decreases k
  {
    if k == 0 then [] else ToBytes(n / 256, k - 1) + [n % 256]
  }

  function ToNat(b: seq<byte>): (n: nat)
  {
    if b == [] then 0 else ToNat(b[..|b| - 1]) * 256 + b[|b| - 1]
  }

  /** Splits the division of `n` by `256 * p` into a division by 256 and one by `p`. */
  lemma DivModStep(n: nat, p: nat)
    requires 0 < p
    ensures n % (256 * p) == (n / 256) % p * 256 + n % 256
  {
    var q, r := n / 256, n % 256;
    var a, m := q / p, q % p;
    assert n == 256 * (p * a + m) + r;
    assert n == (256 * p) * a + (256 * m + r) by {
      assert 256 * (p * a) == (256 * p) * a;
    }
    assert 256 * m + r < 256 * p by { assert m <= p - 1; }
    ModUnique(n, 256 * p, a, 256 * m + r);
  }

  /** Two decompositions over the same divisor agree. */
  lemma QuotientUnique(d: int, q: int, r: int, q': int, r': int)
    requires 0 <= r < d && 0 <= r' < d
    requires d * q + r == d * q' + r'
    ensures q == q' && r == r'
  {
    if q < q' {
      MulGap(d, q, q');
    } else if q' < q {
      MulGap(d, q', q);
    }
  }

  lemma MulGap(d: int, q: int, q': int)
    requires 0 < d && q < q'
    ensures d * q + d <= d * q'
  {
    var k := q' - q;
    assert d * q' == d * q + d * k;
    assert d * (k - 1) >= 0;
  }

  lemma ModUnique(n: int, d: int, q: int, r: int)
    requires 0 <= r < d && n == d * q + r
    ensures n % d == r && n / d == q
  {
    QuotientUnique(d, q, r, n / d, n % d);
  }

  /** Reading back `k` bytes gives the number modulo `256^k`. */
  lemma {:induction false} ToNatToBytes(n: nat, k: nat)
    ensures ToNat(ToBytes(n, k)) == n % Pow256(k)
    decreases k
  {
    if k > 0 {
      ToNatToBytes(n / 256, k - 1);
      var b := ToBytes(n, k);
      assert b[..|b| - 1] == ToBytes(n / 256, k - 1);
      DivModStep(n, Pow256(k - 1));
    }
  }

  /** The last `j` bytes of a `k`-byte rendering are the `j`-byte rendering. */
  lemma {:induction false} LowBytes(n: nat, k: nat, j: nat)
    requires j <= k
    ensures ToBytes(n, k)[k - j..] == ToBytes(n, j)
    decreases j
  {
    if j > 0 {
      LowBytes(n / 256, k - 1, j - 1);
      var hi := ToBytes(n / 256, k - 1);
      assert ToBytes(n, k)[k - j..] == hi[k - j..] + [n % 256];
    }
  }

  lemma {:induction false} ToNatBound(b: seq<byte>)
    ensures ToNat(b) < Pow256(|b|)
  {
    if b != [] {
      ToNatBound(b[..|b| - 1]);
    }
  }

  /** `256^j` divides `256^k` when `j <= k`, so reducing by both is reducing by the smaller. */
  lemma {:induction false} PowSplit(j: nat, k: nat)
    ensures Pow256(j + k) == Pow256(j) * Pow256(k)
    decreases j
  {
    if j > 0 {
      PowSplit(j - 1, k);
      assert Pow256(j + k) == 256 * (Pow256(j - 1) * Pow256(k));
      assert 256 * (Pow256(j - 1) * Pow256(k)) == (256 * Pow256(j - 1)) * Pow256(k);
    }
  }

  lemma ModMod(n: int, j: nat, k: nat)
    requires j <= k
    ensures (n % Pow256(k)) % Pow256(j) == n % Pow256(j)
  {
    PowSplit(j, k - j);
    ModOfMultiple(n, Pow256(j), Pow256(k - j));
  }

  lemma ModOfMultiple(n: int, p: int, c: int)
    requires 0 < p && 0 < c && 0 < p * c
    ensures (n % (p * c)) % p == n % p
  {
    var q, r := n / (p * c), n % (p * c);
    var a, m := r / p, r % p;
    assert n == p * (c * q + a) + m by {
      assert n == (p * c) * q + r;
      MulAssocSplit(p, c, q, a);
    }
    ModUnique(n, p, c * q + a, m);
  }

  lemma MulAssocSplit(p: int, c: int, q: int, a: int)
    ensures p * (c * q + a) == (p * c) * q + p * a
  {
  }
}
