/** Limb multiplication of 256-bit integers, and exactly when the full product is right. */
module Multiply {
  import opened Arith
  import opened Bits
  import opened Uint256

  /** The number four 64-bit limbs spell, least significant first. */
  ghost function Limbs(a: nat, b: nat, c: nat, d: nat): nat {
    a + TWO_64 * (b + TWO_64 * (c + TWO_64 * d))
  }

  lemma LimbsOf(x: U256)
    ensures x.Value() == Limbs(x.lo % TWO_64, x.lo / TWO_64, x.hi % TWO_64, x.hi / TWO_64)
    ensures x.lo / TWO_64 < TWO_64 && x.hi / TWO_64 < TWO_64
  {
  }

  /** One limb of schoolbook multiplication: the low word stays, the high word is carried. */
  lemma LimbStep(rhs: U64, word: U64, carry: U64)
    ensures carry + rhs * word < TWO_128
    ensures (carry + rhs * word) / TWO_64 < TWO_64
  {
    MulMono(rhs, TWO_64 - 1, word);
    MulMono(word, TWO_64 - 1, TWO_64 - 1);
  }

  /** Multiplies every limb and carries the high words along. */
  method MulLimbs(split: seq<U64>, rhs: U64) returns (words: seq<U64>, carry: U64)
    requires |split| == 4
    ensures |words| == 4
    ensures Limbs(split[0], split[1], split[2], split[3]) * rhs
         == Limbs(words[0], words[1], words[2], words[3]) + TWO_256 * carry
  {
    carry, words := 0, [];
    ghost var carries: seq<nat> := [0];
    for i := 0 to 4
      invariant |words| == i && |carries| == i + 1 && carries[0] == 0 && carries[i] == carry
      invariant forall j :: 0 <= j < i ==> carries[j] + rhs * split[j] == words[j] + TWO_64 * carries[j + 1]
    {
      LimbStep(rhs, split[i], carry);
      var n := carry + rhs * split[i];
      words := words + [n % TWO_64];
      carry := n / TWO_64;
      carries := carries + [carry];
    }
    LimbSum(Limbs(split[0], split[1], split[2], split[3]), rhs, split, words, carries);
  }

  lemma JoinWords(low: U64, high: U64)
    ensures Or(low, Shl(high, 64)) == low + high * TWO_64 < TWO_128
  {
    Pow2To64();
    ShlIsMul(high, 64);
    ShlAlone(high, 64);
    Fits64(low);
    OrDisjoint(Shl(high, 64), low, 64);
    OrSymmetric(low, Shl(high, 64));
  }

  /** The product is the wrapped number plus the carry out of the top limb. */
  ghost predicate IsProduct(v: nat, rhs: nat, r: nat, overflow: bool) {
    r == v * rhs % TWO_256 && (overflow <==> v * rhs >= TWO_256)
  }

  /** Multiplication by a 64-bit factor, wrapped, and whether the product was too large. */
  method MulU64(x: U256, rhs: U64) returns (r: U256, overflow: bool)
    ensures IsProduct(x.Value(), rhs, r.Value(), overflow)
  {
    LimbsOf(x);
    var w, carry := MulLimbs([x.lo % TWO_64, x.lo / TWO_64, x.hi % TWO_64, x.hi / TWO_64], rhs);
    JoinWords(w[0], w[1]);
    JoinWords(w[2], w[3]);
    r := U256(Or(w[2], Shl(w[3], 64)), Or(w[0], Shl(w[1], 64)));
    overflow := carry != 0;
    Wrapped(x.Value(), rhs, r.Value(), carry);
  }

  lemma LimbSum(v: nat, rhs: nat, s: seq<nat>, w: seq<nat>, c: seq<nat>)
    requires |s| == 4 && |w| == 4 && |c| == 5 && c[0] == 0
    requires v == Limbs(s[0], s[1], s[2], s[3])
    requires forall j :: 0 <= j < 4 ==> c[j] + rhs * s[j] == w[j] + TWO_64 * c[j + 1]
    ensures v * rhs == Limbs(w[0], w[1], w[2], w[3]) + TWO_256 * c[4]
  {
    assert v * rhs == rhs * s[0] + TWO_64 * (rhs * s[1] + TWO_64 * (rhs * s[2] + TWO_64 * (rhs * s[3])));
  }

  lemma Wrapped(v: nat, rhs: nat, r: nat, carry: nat)
    requires v * rhs == r + TWO_256 * carry && r < TWO_256
    ensures IsProduct(v, rhs, r, carry != 0)
  {
    DivModUnique(v * rhs, TWO_256, carry, r);
  }

  /** The low 64 bits of a shifted number are its limb at that position. */
  method LimbAt(x: U256, i: nat) returns (limb: U64)
    requires i < 4
    ensures limb == Low(Shr(x.Value(), 64 * i), 64)
  {
    var shifted := WrappingShr(x, 64 * i);
    SmallMod(64 * i, 256);
    ValueIsJoin(shifted);
    LowLow(shifted.Value(), 128, 64);
    LowSmall(shifted.lo, 64);
    Fits64(Low(shifted.lo, 64));
    limb := Low(shifted.lo, 64);
  }

  /** Adding the next shifted partial product extends the multiplied low part by one limb. */
  lemma PartialProduct(n: nat, x: nat, low: nat, limb: nat, p: nat, next: nat, sum: nat, res: nat, shifted: nat)
    requires n > 0 && sum == x * low % n && res == x * limb % n && shifted == res * p % n
    requires next == low + limb * p
    ensures (sum + shifted) % n == x * next % n
  {
    ModMulLeft(x * limb, p, n);
    Spread(x, low, limb, p);
    RemaindersAdd(x * low, x * limb * p, n);
  }

  lemma Spread(x: nat, low: nat, limb: nat, p: nat)
    ensures x * (low + limb * p) == x * low + x * limb * p
  {
    MulAssoc(x, limb, p);
  }

  lemma RemaindersAdd(a: nat, b: nat, n: nat)
    requires n > 0
    ensures (a % n + b % n) % n == (a + b) % n
  {
    ModAddLeft(a, b % n, n);
    ModAddLeft(b, a, n);
  }

  /** The partial sum is the product by the first `i` limbs of `y`. */
  ghost predicate MultipliedTo(x: nat, y: nat, i: nat, sum: nat) {
    sum == x * Low(y, 64 * i) % TWO_256
  }

  lemma MulLowStep(x: nat, y: nat, i: nat, ret: nat, limb: nat, res: nat, shifted: nat, sum: nat, over: bool)
    requires i < 4 && MultipliedTo(x, y, i, ret)
    requires limb == Low(Shr(y, 64 * i), 64) && IsProduct(x, limb, res, over)
    requires shifted == Low(Shl(res, 64 * i % 256), 256) && sum == (ret + shifted) % TWO_256
    ensures MultipliedTo(x, y, i + 1, sum)
  {
    var p, next := Pow(2, 64 * i), Low(y, 64 * i + 64);
    ShiftedLimb(res, i, shifted);
    assert next == Low(y, 64 * i) + limb * p by {
      LowExtend(y, 64 * i, 64);
      ShlIsMul(limb, 64 * i);
    }
    PartialProduct(TWO_256, x, Low(y, 64 * i), limb, p, next, ret, res, shifted);
  }

  /** The first three limbs, each shifted into place: the exact product by the low 192 bits. */
  method MulLow(x: U256, y: U256) returns (ret: U256)
    ensures MultipliedTo(x.Value(), y.Value(), 3, ret.Value())
  {
    ret := ZERO;
    NothingYet(x.Value(), y.Value());
    for i := 0 to 3
      invariant MultipliedTo(x.Value(), y.Value(), i, ret.Value())
    {
      var toMul := LimbAt(y, i);
      var res, over := MulU64(x, toMul);
      var shifted := WrappingShl(res, 64 * i);
      var sum, _ := OverflowingAdd(ret, shifted);
      MulLowStep(x.Value(), y.Value(), i, ret.Value(), toMul, res.Value(), shifted.Value(), sum.Value(), over);
      ret := sum;
    }
  }

  lemma NothingYet(x: nat, y: nat)
    ensures MultipliedTo(x, y, 0, 0)
  {
    assert Low(y, 64 * 0) == 0 && x * 0 == 0;
    SmallMod(0, TWO_256);
  }

  lemma ShiftedLimb(v: nat, i: nat, shifted: nat)
    requires i < 4 && shifted == Low(Shl(v, 64 * i % 256), 256)
    ensures shifted == v * Pow(2, 64 * i) % TWO_256
  {
    SmallMod(64 * i, 256);
    ShlIsMul(v, 64 * i);
    ShrIsDiv(Shl(v, 64 * i), 256);
    Pow2To256();
  }

  /** What the full multiplication returns: the top limb's product is added without a shift. */
  ghost function MulResult(x: nat, y: nat): nat {
    (x * Low(y, 192) + x * Shr(y, 192)) % TWO_256
  }

  /** The returned flag: the top limb's product is too large, or the last addition wraps. */
  ghost predicate MulFlag(x: nat, y: nat) {
    || x * Shr(y, 192) >= TWO_256
    || x * Low(y, 192) % TWO_256 + x * Shr(y, 192) % TWO_256 >= TWO_256
  }

  method OverflowingMul(x: U256, y: U256) returns (r: U256, overflow: bool)
    ensures r.Value() == MulResult(x.Value(), y.Value())
    ensures overflow <==> MulFlag(x.Value(), y.Value())
  {
    var ret := MulLow(x, y);
    var toMul := LimbAt(y, 3);
    TopLimb(y);
    var res, tooLarge := MulU64(x, toMul);
    var sum, wraps := OverflowingAdd(ret, res);
    SumOfRemainders(x.Value(), Low(y.Value(), 192), toMul);
    r, overflow := sum, tooLarge || wraps;
  }

  lemma TopLimb(y: U256)
    ensures Low(Shr(y.Value(), 64 * 3), 64) == Shr(y.Value(), 192)
  {
    Fits256(y.Value());
    ShrFits(y.Value(), 64, 192);
    LowSmall(Shr(y.Value(), 192), 64);
  }

  lemma SumOfRemainders(x: nat, a: nat, b: nat)
    ensures (x * a % TWO_256 + x * b % TWO_256) % TWO_256 == (x * a + x * b) % TWO_256
  {
    RemaindersAdd(x * a, x * b, TWO_256);
  }

  /** Multiplying by a large power of two fixes only the zero of the ring. */
  lemma FixedByShift(n: nat, s: nat, k: nat, a: nat)
    requires n > 0 && s * s == k * n && a * s % n == a % n
    ensures a % n == 0
  {
    ModMulLeft(a, s, n);
    ModMulLeft(a * s, s, n);
    assert a * s * s == a * k * n;
    ModAddMultiple(0, a * k, n);
  }

  /**
   The returned number is the wrapped product exactly when the top limb of the right operand
   contributes nothing modulo `2^256`; otherwise its missing shift shows.
   */
  lemma MulIsProductIff(x: nat, y: nat)
    ensures MulResult(x, y) == x * y % TWO_256 <==> x * Shr(y, 192) % TWO_256 == 0
  {
    var s := Pow(2, 192);
    SplitAt(y, 192);
    ShlIsMul(Shr(y, 192), 192);
    SquareOfShift(2, s);
    Distributed(x, Low(y, 192), Shr(y, 192), s, y);
    FixedIff(TWO_256, s, TWO_128, x * Shr(y, 192), x * Shr(y, 192) * s, x * Low(y, 192), x * y);
  }

  lemma SquareOfShift(two: nat, s: nat)
    requires two == 2 && s == Pow(two, 192)
    ensures s * s == TWO_128 * TWO_256
  {
    TwoPowers(two);
    PowAdd(two, 64, 64);
    PowAdd(two, 128, 64);
    PowerSquare(Pow(two, 64), s);
  }

  lemma PowerSquare(p: nat, s: nat)
    requires p == TWO_64 && s == p * p * p
    ensures s * s == TWO_128 * TWO_256
  {
  }

  lemma Distributed(x: nat, low: nat, top: nat, s: nat, y: nat)
    requires y == top * s + low
    ensures x * y == x * low + x * top * s
  {
    assert x * (top * s + low) == x * (top * s) + x * low;
    MulAssoc(x, top, s);
  }

  lemma FixedIff(n: nat, s: nat, k: nat, a: nat, c: nat, b: nat, xy: nat)
    requires n > 0 && s * s == k * n && c == a * s && xy == b + c
    ensures (b + a) % n == xy % n <==> a % n == 0
  {
    FixedOnlyByZero(n, s, k, a, c);
    SameRemainder(n, b, a, c);
  }

  lemma FixedOnlyByZero(n: nat, s: nat, k: nat, a: nat, c: nat)
    requires n > 0 && s * s == k * n && c == a * s
    ensures a % n == c % n <==> a % n == 0
  {
    ModMulLeft(a, s, n);
    if a % n == 0 {
      NoMultiple(a % n, s, n);
    } else if a % n == c % n {
      FixedByShift(n, s, k, a);
    }
  }

  lemma NoMultiple(z: nat, s: nat, n: nat)
    requires z == 0 && n > 0
    ensures z * s % n == 0
  {
    assert z * s == 0;
  }

  lemma SameRemainder(n: nat, b: nat, a: nat, c: nat)
    requires n > 0
    ensures (b + a) % n == (b + c) % n <==> a % n == c % n
  {
    Subtracted(n, b, a);
    Subtracted(n, b, c);
    ModAddLeft(a, b, n);
    ModAddLeft(c, b, n);
  }

  lemma Subtracted(n: nat, b: nat, a: nat)
    requires n > 0
    ensures a % n == ((b + a) % n - b) % n
  {
    ModAddLeft(b + a, 0 - b, n);
  }

  /** With a right operand below `2^192` the product is exact modulo `2^256`, but never flagged. */
  lemma SmallFactor(x: nat, y: nat)
    requires Fits(y, 192)
    ensures MulResult(x, y) == x * y % TWO_256 && !MulFlag(x, y)
  {
    LowSmall(y, 192);
    ShrFits(y, 0, 192);
    assert Shr(y, 192) == 0;
    assert x * 0 == 0;
    SmallMod(0, TWO_256);
  }

  /** Two to the 192 times two: the top limb lands at the bottom of the result. */
  lemma MisplacedLimb()
    ensures MulResult(2, Shl(1, 192)) == 2 != 2 * Shl(1, 192) % TWO_256
  {
    Misplaced(1, Shl(1, 192));
  }

  lemma Misplaced(one: nat, y: nat)
    requires one == 1 && y == Shl(one, 192)
    ensures MulResult(2, y) == 2 != 2 * y % TWO_256
  {
    ShlAlone(one, 192);
    SmallMod(2, TWO_256);
    assert Fits(one, 1);
    ShlFits(one, 1, 193);
    FitsMore(Shl(one, 193), 194, 256);
    Fits256(Shl(one, 193));
    SmallMod(2 * y, TWO_256);
    ShlAtLeast(one, 191);
  }

  lemma {:induction false} ShlAtLeast(x: nat, n: nat)
    ensures Shl(x, n) >= x
  {
    if n > 0 {
      ShlAtLeast(x, n - 1);
    }
  }

  /** The flag never reports an overflow that did not happen, whatever the operands. */
  lemma NoFalseAlarm(x: nat, y: nat)
    ensures MulFlag(x, y) ==> x * y >= TWO_256
  {
    SplitAt(y, 192);
    ShlIsMul(Shr(y, 192), 192);
    PartsBelow(x, Low(y, 192), Shr(y, 192), Pow(2, 192), y, TWO_256);
  }

  lemma PartsBelow(x: nat, low: nat, top: nat, p: nat, y: nat, modulus: nat)
    requires p > 0 && y == top * p + low && modulus > 0
    ensures x * low % modulus + x * top % modulus <= x * low + x * top <= x * y
    ensures x * top <= x * y
  {
    MulMono(1, p, top);
    MulMono(low + top, y, x);
    assert x * (low + top) == x * low + x * top;
    RemainderBelow(x * low, modulus);
    RemainderBelow(x * top, modulus);
  }

  lemma RemainderBelow(a: nat, m: nat)
    requires m > 0
    ensures a % m <= a
  {
    DivNonneg(a, m);
    assert a == a / m * m + a % m;
    MulMono(0, a / m, m);
  }

  /**
   When the flag tells overflow. With a right operand below `2^192`, exactly when there is none; with
   a left operand below `2^64`, exactly when there is none or the operand times the misplaced sum of
   the parts is too large. With both operands larger the product always overflows, and the flag is
   right exactly when it is set.
   */
  lemma FlagIsOverflowIff(x: nat, y: nat)
    ensures Fits(y, 192) ==> ((MulFlag(x, y) <==> x * y >= TWO_256) <==> x * y < TWO_256)
    ensures x < TWO_64 && Fits(y, 256) ==>
              ((MulFlag(x, y) <==> x * y >= TWO_256) <==>
               x * y < TWO_256 || x * (Low(y, 192) + Shr(y, 192)) >= TWO_256)
    ensures x >= TWO_64 && !Fits(y, 192) ==> x * y >= TWO_256
  {
    NoFalseAlarm(x, y);
    if Fits(y, 192) {
      SmallFactor(x, y);
    }
    if x < TWO_64 && Fits(y, 256) {
      SmallLeft(x, y);
    }
    if x >= TWO_64 && !Fits(y, 192) {
      BothLarge(x, y);
    }
  }

  /** With a left operand below `2^64` neither partial product wraps. */
  lemma SmallLeft(x: nat, y: nat)
    requires x < TWO_64 && Fits(y, 256)
    ensures MulFlag(x, y) <==> x * (Low(y, 192) + Shr(y, 192)) >= TWO_256
  {
    LowSmall(y, 192);
    FitsIsBelow(Low(y, 192), 192);
    ShrFits(y, 64, 192);
    FitsIsBelow(Shr(y, 192), 64);
    Pow2To256();
    PowAdd(2, 64, 192);
    Pow2To64();
    PowMono(2, 64, 192);
    SmallProducts(x, Low(y, 192), Shr(y, 192), Pow(2, 192), TWO_64, TWO_256);
  }

  lemma SmallProducts(x: nat, low: nat, top: nat, p: nat, s: nat, modulus: nat)
    requires x < s <= p && low < p && top < s && modulus == s * p
    ensures x * low % modulus == x * low && x * top < modulus && x * top % modulus == x * top
    ensures x * (low + top) == x * low + x * top
  {
    Below(x, low, s, p);
    Below(x, top, s, p);
    SmallMod(x * low, modulus);
    SmallMod(x * top, modulus);
  }

  lemma Below(a: nat, b: nat, s: nat, p: nat)
    requires a < s && b < p
    ensures a * b < s * p
  {
    MulMono(a, s, b);
    MulLt(b, p, s);
  }

  lemma BothLarge(x: nat, y: nat)
    requires x >= TWO_64 && !Fits(y, 192)
    ensures x * y >= TWO_256
  {
    FitsIsBelow(y, 192);
    Pow2To256();
    PowAdd(2, 64, 192);
    Pow2To64();
    MulMono(TWO_64, x, Pow(2, 192));
    MulMono(Pow(2, 192), y, x);
  }

  /** Two to the 255 times two wraps to zero, and the flag does not show it. */
  lemma UnflaggedOverflow()
    ensures TWO_256 / 2 * 2 >= TWO_256 && MulResult(TWO_256 / 2, 2) == 0 && !MulFlag(TWO_256 / 2, 2)
  {
    FitsIsBelow(2, 192);
    PowMono(2, 2, 192);
    assert Pow(2, 1) == 2;
    SmallFactor(TWO_256 / 2, 2);
  }
}
