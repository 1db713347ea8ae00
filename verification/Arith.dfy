/** Powers, division and remainders: the integer facts every component rests on. */
module Arith {
  /** The values a byte may take; the programs modelled here see bytes as numbers. */
  type Byte = x: nat | x < 256

  const TWO_32: nat := 0x1_0000_0000
  const TWO_64: nat := 0x1_0000_0000_0000_0000
  const TWO_128: nat := 0x1_0000_0000_0000_0000_0000_0000_0000_0000
  const TWO_256: nat := TWO_128 * TWO_128

  type U16 = x: nat | x < 0x1_0000
  type U32 = x: nat | x < TWO_32
  type U64 = x: nat | x < TWO_64

  function Min(a: int, b: int): int {
    if a <= b then a else b
  }

  function Pow(b: nat, e: nat): (r: nat)
    ensures b > 0 ==> r > 0
  {
    if e == 0 then 1 else b * Pow(b, e - 1)
  }

  /** Multiplication as repeated addition, for contracts about products of long expressions. */
  function Times(a: nat, b: nat): nat {
    if a == 0 then 0 else b + Times(a - 1, b)
  }

  lemma {:induction false} TimesIsMul(a: nat, b: nat)
    ensures Times(a, b) == a * b
    decreases a
  {
    if a > 0 {
      TimesIsMul(a - 1, b);
    }
  }

  lemma MulMono(a: int, b: int, c: int)
    requires a <= b && 0 <= c
    ensures a * c <= b * c
  {
  }

  lemma MulLt(a: int, b: int, c: int)
    requires a < b && 0 < c
    ensures a * c < b * c
    ensures (a + 1) * c <= b * c
  {
    MulMono(a + 1, b, c);
  }

  lemma MulAssoc(a: int, b: int, c: int)
    ensures a * b * c == a * (b * c)
  {
  }

  lemma {:induction false} PowAdd(b: nat, m: nat, n: nat)
    ensures Pow(b, m + n) == Pow(b, m) * Pow(b, n)
    decreases m
  {
    if m > 0 {
      PowAdd(b, m - 1, n);
      MulAssoc(b, Pow(b, m - 1), Pow(b, n));
    }
  }

  lemma PowMono(b: nat, m: nat, n: nat)
    requires b > 0 && m <= n
    ensures Pow(b, m) <= Pow(b, n)
  {
    PowAdd(b, n - m, m);
    MulMono(1, Pow(b, n - m), Pow(b, m));
  }

  lemma {:induction false} PowMul(b: nat, m: nat, n: nat)
    ensures Pow(Pow(b, m), n) == Pow(b, m * n)
    decreases n
  {
    if n == 0 {
      assert m * n == 0;
    } else {
      PowMul(b, m, n - 1);
      assert m * n == m + m * (n - 1);
      PowAdd(b, m, m * (n - 1));
    }
  }

  lemma {:induction false} PowMonoBase(a: nat, b: nat, n: nat)
    requires a <= b
    ensures Pow(a, n) <= Pow(b, n)
    decreases n
  {
    if n > 0 {
      PowMonoBase(a, b, n - 1);
      MulMono(a, b, Pow(a, n - 1));
      MulMono(Pow(a, n - 1), Pow(b, n - 1), b);
    }
  }

  lemma Pow2To8()
    ensures Pow(2, 8) == 256
  {
  }

  /** The first powers of two, for a base the prover does not compute with. */
  lemma TwoPowers(b: nat)
    requires b == 2
    ensures Pow(b, 8) == 256 && Pow(b, 16) == 0x1_0000 && Pow(b, 32) == TWO_32 && Pow(b, 64) == TWO_64
  {
    assert Pow(b, 1) == 2 by { assert Pow(b, 0) == 1; }
    PowJoin(b, 1, 1, 2, 2);
    PowJoin(b, 2, 2, 4, 4);
    PowJoin(b, 4, 4, 16, 16);
    PowJoin(b, 8, 8, 256, 256);
    PowJoin(b, 16, 16, 0x1_0000, 0x1_0000);
    PowJoin(b, 32, 32, 0x1_0000_0000, 0x1_0000_0000);
  }

  /** A power from two known ones. */
  lemma PowJoin(b: nat, m: nat, n: nat, v: nat, w: nat)
    requires Pow(b, m) == v && Pow(b, n) == w
    ensures Pow(b, m + n) == v * w
  {
    PowAdd(b, m, n);
  }

  lemma Pow2To64()
    ensures Pow(2, 64) == TWO_64
  {
    TwoPowers(2);
  }

  lemma Pow2To128()
    ensures Pow(2, 128) == TWO_128
  {
    Pow2To64();
    PowAdd(2, 64, 64);
  }

  lemma Pow2To256()
    ensures Pow(2, 256) == TWO_256
  {
    Pow2To128();
    PowAdd(2, 128, 128);
  }

  /** Quotient and remainder are determined by their defining equation. */
  lemma DivModUnique(x: int, d: int, q: int, r: int)
    requires 0 <= r < d
    requires x == q * d + r
    ensures x / d == q && x % d == r
  {
    var q', r' := x / d, x % d;
    assert x == q' * d + r';
    assert (q - q') * d == r' - r;
    if q < q' {
      MulMono(q - q', -1, d);
    } else if q' < q {
      MulMono(1, q - q', d);
    }
  }

  /** Division of a product, with a remainder that stays below the divisor. */
  lemma DivMulAdd(q: int, d: int, r: int)
    requires 0 <= r < d
    ensures (q * d + r) / d == q && (q * d + r) % d == r
  {
    DivModUnique(q * d + r, d, q, r);
  }

  /** A quotient is below `q` exactly when the dividend is below `q * d`. */
  lemma DivBelow(x: int, d: int, q: int)
    requires 0 < d
    ensures x / d < q <==> x < q * d
  {
    assert x == x / d * d + x % d;
    if x / d < q {
      MulMono(x / d + 1, q, d);
    } else {
      MulMono(q, x / d, d);
    }
  }

  lemma DivNonneg(x: nat, d: nat)
    requires 0 < d
    ensures 0 <= x / d <= x
  {
    DivBelow(x, d, 0);
    DivBelow(x, d, x + 1);
    MulMono(1, d, x + 1);
  }

  /** Multiples of the modulus do not change a remainder. */
  lemma ModAddMultiple(x: int, k: int, m: int)
    requires 0 < m
    ensures (x + k * m) % m == x % m
  {
    DivModUnique(x + k * m, m, x / m + k, x % m);
  }

  /** Reducing an operand first does not change a reduced sum. */
  lemma ModAddLeft(x: int, y: int, m: int)
    requires 0 < m
    ensures (x % m + y) % m == (x + y) % m
  {
    ModAddMultiple(x % m + y, x / m, m);
  }

  /** Reducing a factor first does not change a reduced product. */
  lemma ModMulLeft(x: int, y: int, m: int)
    requires 0 < m
    ensures (x % m * y) % m == (x * y) % m
  {
    assert x == x / m * m + x % m;
    assert x * y == x % m * y + x / m * m * y;
    assert x / m * m * y == x / m * y * m;
    ModAddMultiple(x % m * y, x / m * y, m);
  }

  lemma SmallMod(x: nat, m: nat)
    requires x < m
    ensures x % m == x && x / m == 0
  {
    DivModUnique(x, m, 0, x);
  }
}
