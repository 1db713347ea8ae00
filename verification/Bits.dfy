/** Natural numbers as strings of bits: bitwise operators, bit length and big-endian bit strings. */
module Bits {
  import opened Arith

  /** Left shift, without a width. */
  function Shl(x: nat, n: nat): nat {
    if n == 0 then x else 2 * Shl(x, n - 1)
  }

  /** Right shift. */
  function Shr(x: nat, n: nat): nat {
    if n == 0 then x else Shr(x / 2, n - 1)
  }

  /** The low `n` bits. */
  function Low(x: nat, n: nat): nat {
    if n == 0 then 0 else 2 * Low(x / 2, n - 1) + x % 2
  }

  /** The number has at most `n` bits. */
  predicate Fits(x: nat, n: nat) {
    if n == 0 then x == 0 else Fits(x / 2, n - 1)
  }

  lemma {:induction false} FitsIsBelow(x: nat, n: nat)
    ensures Fits(x, n) <==> x < Pow(2, n)
    decreases n
  {
    if n > 0 {
      FitsIsBelow(x / 2, n - 1);
    }
  }

  lemma {:induction false} FitsMore(x: nat, m: nat, n: nat)
    requires Fits(x, m) && m <= n
    ensures Fits(x, n)
    decreases m
  {
    if m > 0 {
      FitsMore(x / 2, m - 1, n - 1);
    } else {
      LowZero(n);
    }
  }

  lemma Fits8(x: nat)
    ensures Fits(x, 8) <==> x < 256
  {
    FitsIsBelow(x, 8);
    Pow2To8();
  }

  lemma Fits64(x: nat)
    ensures Fits(x, 64) <==> x < TWO_64
  {
    FitsIsBelow(x, 64);
    Pow2To64();
  }

  lemma Fits128(x: nat)
    ensures Fits(x, 128) <==> x < TWO_128
  {
    FitsIsBelow(x, 128);
    Pow2To128();
  }

  lemma Fits256(x: nat)
    ensures Fits(x, 256) <==> x < TWO_256
  {
    FitsIsBelow(x, 256);
    Pow2To256();
  }

  lemma {:induction false} ShlIsMul(x: nat, n: nat)
    ensures Shl(x, n) == x * Pow(2, n)
    decreases n
  {
    if n > 0 {
      ShlIsMul(x, n - 1);
      TwiceProduct(x, Pow(2, n - 1));
    }
  }

  lemma TwiceProduct(x: nat, p: nat)
    ensures x * (2 * p) == 2 * (x * p)
  {
  }

  /** Right shift and low bits are quotient and remainder by a power of two. */
  lemma ShrIsDiv(x: nat, n: nat)
    ensures Shr(x, n) == x / Pow(2, n)
    ensures Low(x, n) == x % Pow(2, n)
  {
    SplitAt(x, n);
    LowSmall(x, n);
    FitsIsBelow(Low(x, n), n);
    ShlIsMul(Shr(x, n), n);
    DivModUnique(x, Pow(2, n), Shr(x, n), Low(x, n));
  }

  /** A left shift cut to `w` bits keeps the low bits that still fit. */
  lemma {:induction false} LowShl(x: nat, n: nat, w: nat)
    requires n <= w
    ensures Low(Shl(x, n), w) == Shl(Low(x, w - n), n)
    decreases n
  {
    if n > 0 {
      LowShl(x, n - 1, w - 1);
    }
  }

  lemma {:induction false} ShrShr(x: nat, m: nat, n: nat)
    ensures Shr(Shr(x, m), n) == Shr(x, m + n)
    decreases m
  {
    if m > 0 {
      ShrShr(x / 2, m - 1, n);
    }
  }

  lemma {:induction false} ShrSmaller(x: nat, n: nat)
    ensures Shr(x, n) <= x
    decreases n
  {
    if n > 0 {
      ShrSmaller(x / 2, n - 1);
    }
  }

  /** A left shift undone by a longer or shorter right shift. */
  lemma {:induction false} ShrShl(x: nat, m: nat, n: nat)
    ensures Shr(Shl(x, m), n) == if m <= n then Shr(x, n - m) else Shl(x, m - n)
    decreases n
  {
    if m > 0 && n > 0 {
      ShrShl(x, m - 1, n - 1);
    }
  }

  /** The top bits of the low bits. */
  lemma {:induction false} ShrLow(x: nat, n: nat, k: nat)
    requires k <= n
    ensures Shr(Low(x, n), k) == Low(Shr(x, k), n - k)
    decreases k
  {
    if k > 0 {
      ShrLow(x / 2, n - 1, k - 1);
    }
  }

  lemma {:induction false} LowLow(x: nat, n: nat, k: nat)
    requires k <= n
    ensures Low(Low(x, n), k) == Low(x, k)
    decreases k
  {
    if k > 0 {
      LowLow(x / 2, n - 1, k - 1);
    }
  }

  lemma LowExtend(x: nat, m: nat, n: nat)
    ensures Low(x, m + n) == Low(x, m) + Shl(Low(Shr(x, m), n), m)
  {
    SplitAt(Low(x, m + n), m);
    LowLow(x, m + n, m);
    ShrLow(x, m + n, m);
  }

  /** A number is its high part shifted back, plus its low part. */
  lemma {:induction false} SplitAt(x: nat, n: nat)
    ensures x == Shl(Shr(x, n), n) + Low(x, n)
    decreases n
  {
    if n > 0 {
      SplitAt(x / 2, n - 1);
    }
  }

  lemma ShlAlone(x: nat, n: nat)
    ensures Shr(Shl(x, n), n) == x && Low(Shl(x, n), n) == 0
  {
    LowZero(n);
    JoinAt(x, 0, n);
  }

  /** Joining a high part with a low part that fits. */
  lemma {:induction false} JoinAt(x: nat, y: nat, n: nat)
    requires Fits(y, n)
    ensures Shr(Shl(x, n) + y, n) == x
    ensures Low(Shl(x, n) + y, n) == y
    decreases n
  {
    if n > 0 {
      JoinAt(x, y / 2, n - 1);
    }
  }

  lemma {:induction false} JoinFits(x: nat, m: nat, y: nat, n: nat)
    requires Fits(x, m) && Fits(y, n)
    ensures Fits(Shl(x, n) + y, m + n)
    decreases n
  {
    if n > 0 {
      JoinFits(x, m, y / 2, n - 1);
    }
  }

  /** Cutting a joined number above the joint cuts its high part. */
  lemma {:induction false} LowJoin(h: nat, l: nat, k: nat, m: nat)
    requires Fits(l, k)
    ensures Low(Shl(h, k) + l, k + m) == Shl(Low(h, m), k) + l
    decreases k
  {
    if k > 0 {
      LowJoin(h, l / 2, k - 1, m);
    }
  }

  /** Shifting a joined number right, but not past the joint. */
  lemma {:induction false} ShrJoin(h: nat, l: nat, k: nat, b: nat)
    requires b <= k
    ensures Shr(Shl(h, k) + l, b) == Shl(h, k - b) + Shr(l, b)
    decreases b
  {
    if b > 0 {
      ShrJoin(h, l / 2, k - 1, b - 1);
    }
  }

  lemma {:induction false} BitLenJoin(h: nat, l: nat, k: nat)
    requires h > 0 && Fits(l, k)
    ensures BitLen(Shl(h, k) + l) == k + BitLen(h)
    decreases k
  {
    if k > 0 {
      BitLenJoin(h, l / 2, k - 1);
      HalfJoin(Shl(h, k - 1), l);
    }
  }

  lemma HalfJoin(y: nat, l: nat)
    ensures (2 * y + l) / 2 == y + l / 2
  {
  }

  lemma {:induction false} BitLenShl(x: nat, n: nat)
    requires x > 0
    ensures BitLen(Shl(x, n)) == BitLen(x) + n
    decreases n
  {
    if n > 0 {
      BitLenShl(x, n - 1);
    }
  }

  lemma {:induction false} BitLenShr(x: nat, n: nat)
    ensures BitLen(Shr(x, n)) == if BitLen(x) <= n then 0 else BitLen(x) - n
    decreases n
  {
    if n > 0 {
      BitLenShr(x / 2, n - 1);
    }
  }

  lemma {:induction false} ShrMono(x: nat, y: nat, n: nat)
    requires x <= y
    ensures Shr(x, n) <= Shr(y, n)
    decreases n
  {
    if n > 0 {
      ShrMono(x / 2, y / 2, n - 1);
    }
  }

  lemma BitLenOrder(x: nat, y: nat)
    requires BitLen(x) < BitLen(y)
    ensures x < y
  {
    if y <= x {
      BitLenMono(y, x);
    }
  }

  /** A larger high part outweighs any low part that fits. */
  lemma {:induction false} JoinBelow(x: nat, y: nat, z: nat, n: nat)
    requires x < z && Fits(y, n)
    ensures Shl(x, n) + y < Shl(z, n)
    decreases n
  {
    if n > 0 {
      JoinBelow(x, y / 2, z, n - 1);
    }
  }

  lemma {:induction false} ShlMono(x: nat, y: nat, n: nat)
    ensures x < y <==> Shl(x, n) < Shl(y, n)
    ensures x <= y <==> Shl(x, n) <= Shl(y, n)
    decreases n
  {
    if n > 0 {
      ShlMono(x, y, n - 1);
    }
  }

  lemma {:induction false} ShlAdd(x: nat, y: nat, n: nat)
    ensures Shl(x + y, n) == Shl(x, n) + Shl(y, n)
    decreases n
  {
    if n > 0 {
      ShlAdd(x, y, n - 1);
    }
  }

  lemma {:induction false} ShlShl(x: nat, m: nat, n: nat)
    ensures Shl(Shl(x, m), n) == Shl(x, m + n)
    decreases n
  {
    if n > 0 {
      ShlShl(x, m, n - 1);
    }
  }

  /** Bits that fit `n` places fit `n + k` places after a left shift by `k`. */
  lemma {:induction false} ShlFits(x: nat, n: nat, k: nat)
    ensures Fits(x, n) <==> Fits(Shl(x, k), n + k)
    decreases k
  {
    if k > 0 {
      ShlFits(x, n, k - 1);
      FitsDouble(Shl(x, k - 1), n + k - 1);
    }
  }

  lemma FitsDouble(y: nat, m: nat)
    ensures Fits(2 * y, m + 1) <==> Fits(y, m)
  {
    assert 2 * y / 2 == y;
  }

  lemma {:induction false} ShrFits(x: nat, n: nat, k: nat)
    ensures Fits(x, n + k) <==> Fits(Shr(x, k), n)
    decreases k
  {
    if k > 0 {
      ShrFits(x / 2, n, k - 1);
    }
  }

  lemma {:induction false} LowZero(n: nat)
    ensures Low(0, n) == 0 && Shr(0, n) == 0 && Shl(0, n) == 0 && Fits(0, n)
  {
    if n > 0 {
      LowZero(n - 1);
    }
  }

  lemma ZeroShifts(x: nat, n: nat)
    requires x == 0
    ensures Low(x, n) == 0 && Shr(x, n) == 0 && Shl(x, n) == 0 && Fits(x, n)
  {
    LowZero(n);
  }

  lemma {:induction false} LowSmall(x: nat, n: nat)
    ensures Low(x, n) <= x && Fits(Low(x, n), n)
    ensures Low(x, n) == x <==> Fits(x, n)
    decreases n
  {
    if n > 0 {
      LowSmall(x / 2, n - 1);
    }
  }

  /** Bitwise inclusive or. */
  function Or(a: nat, b: nat): nat
    decreases a + b
  {
    if a == 0 && b == 0 then 0
    else 2 * Or(a / 2, b / 2) + (if a % 2 == 1 || b % 2 == 1 then 1 else 0)
  }

  /** Bitwise and. */
  function And(a: nat, b: nat): nat
    decreases a
  {
    if a == 0 then 0
    else 2 * And(a / 2, b / 2) + (if a % 2 == 1 && b % 2 == 1 then 1 else 0)
  }

  lemma {:induction false} OrZero(a: nat)
    ensures Or(a, 0) == a == Or(0, a)
  {
    if a > 0 {
      OrZero(a / 2);
    }
  }

  lemma {:induction false} OrSymmetric(a: nat, b: nat)
    ensures Or(a, b) == Or(b, a)
    decreases a + b
  {
    if a > 0 || b > 0 {
      OrSymmetric(a / 2, b / 2);
    }
  }

  /** Where the low `k` bits of `a` are clear and `b` has only those, or is addition. */
  lemma {:induction false} OrDisjoint(a: nat, b: nat, k: nat)
    requires Low(a, k) == 0
    requires Fits(b, k)
    ensures Or(a, b) == a + b
    decreases k
  {
    if k == 0 {
      OrZero(a);
    } else {
      OrDisjoint(a / 2, b / 2, k - 1);
    }
  }

  /** Or acts separately on the bits above and below any position. */
  lemma {:induction false} ShrOr(a: nat, b: nat, k: nat)
    ensures Shr(Or(a, b), k) == Or(Shr(a, k), Shr(b, k))
    decreases k
  {
    if k > 0 {
      ShrOr(a / 2, b / 2, k - 1);
    }
  }

  lemma {:induction false} LowOr(a: nat, b: nat, k: nat)
    ensures Low(Or(a, b), k) == Or(Low(a, k), Low(b, k))
    decreases k
  {
    if k > 0 {
      LowOr(a / 2, b / 2, k - 1);
      var x, y := Low(a, k), Low(b, k);
      assert x / 2 == Low(a / 2, k - 1) && x % 2 == a % 2;
      assert y / 2 == Low(b / 2, k - 1) && y % 2 == b % 2;
    }
  }

  lemma {:induction false} OrIsZero(a: nat, b: nat)
    ensures Or(a, b) == 0 <==> a == 0 && b == 0
    decreases a + b
  {
    if a != 0 || b != 0 {
      OrIsZero(a / 2, b / 2);
    }
  }

  /** And with `2^k - 1` keeps the low `k` bits. */
  lemma {:induction false} AndMask(a: nat, k: nat)
    ensures And(a, Pow(2, k) - 1) == Low(a, k)
    decreases k
  {
    if k == 0 {
      AndZero(a);
    } else {
      AndMask(a / 2, k - 1);
    }
  }

  /** And with a single bit picks that bit. */
  lemma {:induction false} AndBit(a: nat, k: nat)
    ensures And(a, Shl(1, k)) == Shl(Shr(a, k) % 2, k)
    decreases k
  {
    if k == 0 {
      AndZero(a / 2);
    } else {
      AndBit(a / 2, k - 1);
    }
  }

  lemma {:induction false} AndZero(a: nat)
    ensures And(a, 0) == 0
  {
    if a > 0 {
      AndZero(a / 2);
    }
  }

  /** The least number of bits that hold `x`. */
  function BitLen(x: nat): nat {
    if x == 0 then 0 else 1 + BitLen(x / 2)
  }

  lemma {:induction false} BitLenBounds(x: nat)
    ensures x < Pow(2, BitLen(x))
    ensures x > 0 ==> BitLen(x) > 0 && Pow(2, BitLen(x) - 1) <= x
  {
    if x > 0 {
      BitLenBounds(x / 2);
    }
  }

  lemma {:induction false} BitLenMono(x: nat, y: nat)
    requires x <= y
    ensures BitLen(x) <= BitLen(y)
  {
    if x > 0 {
      BitLenMono(x / 2, y / 2);
    }
  }

  lemma {:induction false} BitLenFits(x: nat, n: nat)
    ensures BitLen(x) <= n <==> Fits(x, n)
    decreases n
  {
    if n > 0 {
      BitLenFits(x / 2, n - 1);
    }
  }

  /** The low `w` bits of `v`, most significant first. */
  function Big(v: nat, w: nat): (r: seq<bool>)
    ensures |r| == w
  {
    if w == 0 then [] else Big(v / 2, w - 1) + [v % 2 == 1]
  }

  /** The number a bit string spells, most significant bit first. */
  function Number(s: seq<bool>): nat {
    if s == [] then 0 else 2 * Number(s[..|s| - 1]) + (if s[|s| - 1] then 1 else 0)
  }

  lemma {:induction false} NumberOfBig(v: nat, w: nat)
    ensures Number(Big(v, w)) == Low(v, w)
    decreases w
  {
    if w > 0 {
      NumberOfBig(v / 2, w - 1);
      assert Big(v, w)[..w - 1] == Big(v / 2, w - 1);
    }
  }

  /** Only the low `w` bits of a number show in a string of width `w`. */
  lemma {:induction false} BigLow(v: nat, w: nat)
    ensures Big(Low(v, w), w) == Big(v, w)
    decreases w
  {
    if w > 0 {
      BigLow(v / 2, w - 1);
    }
  }

  /** The string of `v` splits at any point into its high part and its low part. */
  lemma {:induction false} BigSplit(v: nat, m: nat, n: nat)
    ensures Big(v, m + n) == Big(Shr(v, n), m) + Big(v, n)
    decreases n
  {
    if n == 0 {
      assert Big(v, m) + [] == Big(v, m);
    } else {
      BigSplit(v / 2, m, n - 1);
      Associate(Big(Shr(v, n), m), Big(v / 2, n - 1), [v % 2 == 1]);
    }
  }

  /** Strings of two numbers, one after the other. */
  lemma BigConcat(x: nat, m: nat, y: nat, n: nat)
    requires Fits(y, n)
    ensures Big(x, m) + Big(y, n) == Big(Shl(x, n) + y, m + n)
  {
    JoinAt(x, y, n);
    BigSplit(Shl(x, n) + y, m, n);
    BigLow(Shl(x, n) + y, n);
  }

  /** The bits of a byte string. */
  function OfBytes(s: seq<Byte>): (r: seq<bool>)
    ensures |r| == 8 * |s|
  {
    if s == [] then [] else OfBytes(s[..|s| - 1]) + Big(s[|s| - 1], 8)
  }

  lemma OfBytesPush(s: seq<Byte>, b: Byte)
    ensures OfBytes(s + [b]) == OfBytes(s) + Big(b, 8)
  {
    assert (s + [b])[..|s|] == s;
  }

  lemma OfBytesPop(s: seq<Byte>)
    requires s != []
    ensures OfBytes(s) == Big(s[0], 8) + OfBytes(s[1..])
  {
    OfBytesConcat([s[0]], s[1..]);
    OfBytesPush([], s[0]);
    assert s == [s[0]] + s[1..];
    assert [] + [s[0]] == [s[0]];
  }

  lemma {:induction false} OfBytesConcat(s: seq<Byte>, t: seq<Byte>)
    ensures OfBytes(s + t) == OfBytes(s) + OfBytes(t)
    decreases |t|
  {
    if t == [] {
      assert s + t == s;
    } else {
      var u, b := t[..|t| - 1], t[|t| - 1];
      OfBytesConcat(s, u);
      OfBytesPush(s + u, b);
      assert s + t == s + u + [b];
      Associate(OfBytes(s), OfBytes(u), Big(b, 8));
    }
  }

  lemma Associate<T>(a: seq<T>, b: seq<T>, c: seq<T>)
    ensures a + b + c == a + (b + c)
  {
  }
}
