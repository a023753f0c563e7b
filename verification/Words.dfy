/** 256-bit words: what the arithmetic instructions compute (`vm/instructions.go`, `vm/common/math/big.go`). */
module Words {
  import opened BigEndian

  const TWO_255: nat := 0x8000_0000_0000_0000_0000_0000_0000_0000_0000_0000_0000_0000_0000_0000_0000_0000
  const TWO_256: nat := 0x1_0000_0000_0000_0000_0000_0000_0000_0000_0000_0000_0000_0000_0000_0000_0000_0000

  /** Two's complement in 256 bits, and back. */
  function U256(x: int): (r: nat)
    ensures r < TWO_256
  {
    x % TWO_256
  }

  function S256(x: nat): int {
    if x < TWO_255 then x else x - TWO_256
  }

  /** Reading a word as signed and writing it back changes nothing. */
  lemma SignedRoundTrip(x: nat)
    requires x < TWO_256
    ensures U256(S256(x)) == x && 0 - TWO_255 <= S256(x) < TWO_255
  {
    if x >= TWO_255 {
      assert (x - TWO_256) % TWO_256 == x;
    }
  }

  function Abs(x: int): nat {
    if x < 0 then -x else x
  }

  /** Division that rounds toward zero, and its remainder. */
  function Quot(x: int, y: int): int
    requires y != 0
  {
    if (x < 0) == (y < 0) then Abs(x) / Abs(y) else -(Abs(x) / Abs(y))
  }

  function Rem(x: int, y: int): int
    requires y != 0
  {
    if x < 0 then -(Abs(x) % Abs(y)) else Abs(x) % Abs(y)
  }

  /** Quotient and remainder belong together, and the remainder has the sign of the dividend. */
  lemma QuotRem(x: int, y: int)
    requires y != 0
    ensures x == y * Quot(x, y) + Rem(x, y)
    ensures Abs(Rem(x, y)) < Abs(y) && (Rem(x, y) != 0 ==> (Rem(x, y) < 0 <==> x < 0))
  {
    var a, b: int := Abs(x), Abs(y);
    var q, r := a / b, a % b;
    DivMod(a, b);
    Negated(b, q);
    Negated(y, q);
    hide Abs;
    assert Quot(x, y) == if (x < 0) == (y < 0) then q else -q;
    assert Rem(x, y) == if x < 0 then -r else r;
    assert x == (if x < 0 then -a else a) && y == (if y < 0 then -b else b) by { Magnitude(x); Magnitude(y); }
    Magnitude(Rem(x, y));
  }

  lemma DivMod(a: nat, b: nat)
    requires b > 0
    ensures a == b * (a / b) + a % b && 0 <= a % b < b
  {
  }

  lemma Negated(b: int, q: int)
    ensures -b * q == -(b * q) && b * -q == -(b * q)
  {
  }

  lemma Magnitude(x: int)
    ensures x == (if x < 0 then 0 - Abs(x) else Abs(x)) && (Abs(x) == 0 <==> x == 0)
  {
  }

  function Pow(x: nat, n: nat): nat {
    if n == 0 then 1 else x * Pow(x, n - 1)
  }

  // ---- Shifts ----

  lemma {:induction false} Pow2Split(m: nat, n: nat)
    ensures Pow2(m + n) == Pow2(m) * Pow2(n)
  {
    if m > 0 {
      Pow2Split(m - 1, n);
    }
  }

  lemma Pow2Step(n: nat)
    requires n > 0
    ensures Pow2(n) == 2 * Pow2(n - 1)
  {
  }

  lemma Pow2At16()
    ensures Pow2(16) == 0x1_0000
  {
    assert Pow2(4) == 16;
  }

  lemma Pow2At256()
    ensures Pow2(256) == TWO_256 && Pow2(255) == TWO_255
  {
    hide Pow2;
    Pow2At16();
    Pow2Split(16, 16);
    Pow2Split(32, 32);
    Pow2Split(64, 64);
    Pow2Split(128, 128);
    Pow2Step(256);
  }

  /** Shifting left by 256 or more leaves nothing. */
  lemma ShlLarge(x: nat, n: nat)
    requires n >= 256
    ensures U256(x * Pow2(n)) == 0
  {
    Pow2Split(n - 256, 256);
    Pow2At256();
    assert x * Pow2(n) == x * Pow2(n - 256) * TWO_256 by {
      MulAssoc(x, Pow2(n - 256), TWO_256);
    }
    MultipleIsZero(x * Pow2(n - 256));
  }

  lemma MulAssoc(x: int, y: int, z: int)
    ensures x * (y * z) == x * y * z
  {
  }

  lemma MultipleIsZero(k: nat)
    ensures U256(k * TWO_256) == 0
  {
  }

  lemma {:induction false} Pow2Grows(m: nat, n: nat)
    requires m <= n
    ensures Pow2(m) <= Pow2(n)
  {
    if m < n {
      Pow2Grows(m, n - 1);
    }
  }

  /** Shifting right by 256 or more leaves the sign. */
  lemma ShrLarge(x: nat, n: nat)
    requires x < TWO_256 && n >= 256
    ensures x / Pow2(n) == 0
    ensures S256(x) / Pow2(n) == if S256(x) >= 0 then 0 else -1
  {
    Pow2At256();
    Pow2Grows(256, n);
    SmallQuotient(x, Pow2(n));
    SmallQuotient(S256(x), Pow2(n));
  }

  lemma SmallQuotient(x: int, d: nat)
    requires d > 0 && 0 - d <= x < d
    ensures x / d == if x >= 0 then 0 else -1
  {
    if x < 0 {
      assert x == d * -1 + (x + d);
    }
  }

  // ---- Sign extension ----

  /** The low n bits read as a signed number. */
  function SignedLow(x: nat, n: nat): int
    requires n >= 1
  {
    var low := x % Pow2(n);
    if low < Pow2(n - 1) then low else low - Pow2(n)
  }

  /** Setting or clearing everything from the sign bit on gives the signed number. */
  lemma SignExtension(x: nat, bit: nat)
    ensures (x / Pow2(bit)) % 2 == 1 ==> SignedLow(x, bit + 1) == x % Pow2(bit) - Pow2(bit)
    ensures (x / Pow2(bit)) % 2 == 0 ==> SignedLow(x, bit + 1) == x % Pow2(bit)
  {
    assert Pow2(bit + 1) == 2 * Pow2(bit);
    hide Pow2;
    LowBits(x, Pow2(bit));
  }

  /** One bit more of a number. */
  lemma LowBits(x: nat, p: nat)
    requires 0 < p
    ensures x % (2 * p) == if x / p % 2 == 1 then p + x % p else x % p
  {
    var q, r := x / p, x % p;
    var half, odd := q / 2, q % 2;
    assert x == p * q + r;
    assert q == 2 * half + odd;
    Halve(p, half, odd);
    if odd == 1 {
      ModUnique(x, 2 * p, half, p + r);
    } else {
      ModUnique(x, 2 * p, half, r);
    }
  }

  lemma Halve(p: nat, half: nat, odd: nat)
    ensures p * (2 * half + odd) == 2 * p * half + p * odd
  {
  }

  // ---- Exponentiation ----

  /** A square replaces two factors. */
  lemma {:induction false} PowDouble(x: nat, n: nat)
    ensures Pow(x * x, n) == Pow(x, 2 * n)
  {
    if n > 0 {
      PowDouble(x, n - 1);
      assert Pow(x, 2 * n) == x * (x * Pow(x, 2 * n - 2));
      MulAssoc(x, x, Pow(x, 2 * n - 2));
    }
  }

  lemma ModProduct(x: int, y: int)
    ensures U256(x * y) == U256(U256(x) * y) && U256(x * y) == U256(x * U256(y))
  {
    ModFactor(x, y);
    ModFactor(y, x);
  }

  lemma ModFactor(x: int, y: int)
    ensures U256(x * y) == U256(U256(x) * y)
  {
    var q := x / TWO_256;
    assert x == q * TWO_256 + U256(x);
    assert x * y == (q * y) * TWO_256 + U256(x) * y by {
      Distribute(q, TWO_256, U256(x), y);
    }
    AddMultiple(U256(x) * y, q * y);
  }

  lemma Distribute(q: int, m: int, r: int, y: int)
    ensures (q * m + r) * y == (q * y) * m + r * y
  {
  }

  lemma AddMultiple(x: int, k: int)
    ensures U256(k * TWO_256 + x) == U256(x)
  {
    ModUniqueInt(k * TWO_256 + x, x, k);
  }

  lemma ModUniqueInt(y: int, x: int, k: int)
    requires y == k * TWO_256 + x
    ensures y % TWO_256 == x % TWO_256
  {
  }

  lemma {:induction false} PowMod(x: nat, n: nat)
    ensures U256(Pow(U256(x), n)) == U256(Pow(x, n))
  {
    if n > 0 {
      PowMod(x, n - 1);
      ModProduct(x, Pow(x, n - 1));
      ModProduct(U256(x), Pow(x, n - 1));
      ModProduct(U256(x), Pow(U256(x), n - 1));
    }
  }

  /** One step of square-and-multiply keeps the value of result times base to the rest. */
  lemma ExpStep(result: nat, base: nat, half: nat, odd: nat)
    requires odd <= 1
    ensures var result' := if odd == 1 then U256(result * base) else result;
            U256(result' * Pow(U256(base * base), half)) == U256(result * Pow(base, 2 * half + odd))
  {
    hide U256;
    var square := Pow(base * base, half);
    PowDouble(base, half);
    PowMod(base * base, half);
    var factor := if odd == 1 then result * base else result;
    assert result * Pow(base, 2 * half + odd) == factor * square by {
      if odd == 1 {
        MulAssoc(result, base, Pow(base, 2 * half));
      }
    }
    var result' := if odd == 1 then U256(result * base) else result;
    ModProduct(factor, square);
    ModProduct(result', square);
    ModProduct(result', Pow(U256(base * base), half));
    SquareRest(result', base, half);
    if odd == 0 {
      assert result' == factor;
    }
  }

  lemma SquareRest(r: nat, base: nat, half: nat)
    ensures U256(r * Pow(U256(base * base), half)) == U256(r * Pow(base * base, half))
  {
    hide U256;
    PowMod(base * base, half);
    ModProduct(r, Pow(U256(base * base), half));
    ModProduct(r, Pow(base * base, half));
  }

  lemma Pow2At64()
    ensures Pow2(64) == TWO_64
  {
    hide Pow2;
    Pow2At16();
    Pow2Split(16, 16);
    Pow2Split(32, 32);
  }
}
