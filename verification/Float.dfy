/** Conversion of 256-bit integers to binary64 bit patterns. */
module Float {
  import opened Arith
  import opened Bits
  import opened Uint256

  /** The implicit bit of a normal number. */
  const IMPLICIT: nat := 0x10_0000_0000_0000

  /** The exponent field, and whether a non-negative pattern is a finite number. */
  function Exponent(bits: nat): nat { Shr(bits, 52) }

  predicate Finite(bits: nat) { Exponent(bits) < 2047 }

  /** The value of a finite non-negative pattern, in units of the smallest subnormal `2^-1074`. */
  function F64(bits: nat): nat {
    if Exponent(bits) == 0 then Low(bits, 52) else Shl(IMPLICIT + Low(bits, 52), Exponent(bits) - 1)
  }

  /** The distance from a pattern's value to the next larger one. */
  function Ulp(bits: nat): (r: nat)
    ensures r > 0
  {
    ShlPositive(if Exponent(bits) == 0 then 0 else Exponent(bits) - 1);
    Shl(1, if Exponent(bits) == 0 then 0 else Exponent(bits) - 1)
  }

  lemma {:induction false} ShlPositive(n: nat)
    ensures Shl(1, n) > 0
  {
    if n > 0 {
      ShlPositive(n - 1);
    }
  }

  lemma Pow2To52()
    ensures Pow(2, 52) == IMPLICIT
  {
    ImplicitBit(2);
  }

  lemma ImplicitBit(b: nat)
    requires b == 2
    ensures Pow(b, 52) == IMPLICIT
  {
    TwoPowers(b);
    assert Pow(b, 1) == 2 by { assert Pow(b, 0) == 1; }
    PowJoin(b, 1, 1, 2, 2);
    PowJoin(b, 2, 2, 4, 4);
    PowJoin(b, 16, 4, 0x1_0000, 16);
    PowJoin(b, 32, 20, 0x1_0000_0000, 0x10_0000);
  }

  /** Counting up carries out of the low field into the high one. */
  lemma Increment(bits: nat, n: nat)
    ensures Low(bits, n) + 1 < Pow(2, n) ==>
              Shr(bits + 1, n) == Shr(bits, n) && Low(bits + 1, n) == Low(bits, n) + 1
    ensures Low(bits, n) + 1 >= Pow(2, n) ==>
              Low(bits, n) + 1 == Pow(2, n) && Shr(bits + 1, n) == Shr(bits, n) + 1 && Low(bits + 1, n) == 0
  {
    var l := Low(bits, n);
    SplitAt(bits, n);
    LowSmall(bits, n);
    FitsIsBelow(l, n);
    FitsIsBelow(l + 1, n);
    if l + 1 < Pow(2, n) {
      JoinAt(Shr(bits, n), l + 1, n);
    } else {
      ShlIsMul(1, n);
      ShlAdd(Shr(bits, n), 1, n);
      ShlAlone(Shr(bits, n) + 1, n);
    }
  }

  /** Consecutive patterns are one unit in the last place apart, also across exponents. */
  lemma NextPattern(bits: nat)
    ensures F64(bits + 1) == F64(bits) + Ulp(bits)
  {
    Pow2To52();
    Increment(bits, 52);
    var e, f := Exponent(bits), Low(bits, 52);
    if f + 1 < IMPLICIT {
      if e > 0 {
        ShlAdd(IMPLICIT + f, 1, e - 1);
      }
    } else if e > 0 {
      ShlAdd(IMPLICIT + f, 1, e - 1);
      ShlShl(IMPLICIT, 1, e - 1);
      assert Shl(IMPLICIT, 1) == IMPLICIT + f + 1;
    }
  }

  /** Values grow with patterns. */
  lemma {:induction false} PatternOrder(a: nat, b: nat)
    requires a < b
    ensures F64(a) + Ulp(a) <= F64(b)
    decreases b - a
  {
    NextPattern(a);
    if a + 1 < b {
      PatternOrder(a + 1, b);
    }
  }

  function Dist(a: nat, b: nat): nat {
    if a <= b then b - a else a - b
  }

  /** Round to nearest, ties to even: no finite pattern is closer, and a tie is broken to an even one. */
  ghost predicate Nearest(bits: nat, exact: nat) {
    && Finite(bits)
    && forall y: nat :: Finite(y) && y != bits ==>
         && Dist(F64(bits), exact) <= Dist(F64(y), exact)
         && (Dist(F64(bits), exact) == Dist(F64(y), exact) ==> bits % 2 == 0)
  }

  /** Being within half a gap of both neighbours is being nearest to all patterns. */
  lemma NearestFromNeighbours(bits: nat, exact: nat)
    requires Finite(bits)
    requires 2 * exact <= 2 * F64(bits) + Ulp(bits)
    requires 2 * exact == 2 * F64(bits) + Ulp(bits) ==> bits % 2 == 0
    requires bits > 0 ==> 2 * exact >= F64(bits) + F64(bits - 1)
    requires bits > 0 && 2 * exact == F64(bits) + F64(bits - 1) ==> bits % 2 == 0
    ensures Nearest(bits, exact)
  {
    forall y: nat | Finite(y) && y != bits
      ensures Dist(F64(bits), exact) <= Dist(F64(y), exact)
      ensures Dist(F64(bits), exact) == Dist(F64(y), exact) ==> bits % 2 == 0
    {
      if y > bits {
        PatternOrder(bits, y);
      } else {
        PatternOrder(bits - 1, bits);
        if y < bits - 1 {
          PatternOrder(y, bits - 1);
        }
      }
    }
  }

  /** The mantissa rounds up: more than half a unit is dropped, or half a unit from an odd mantissa. */
  predicate RoundsUp(m: nat, d: nat, k: nat)
    requires k > 0
  {
    Shr(d, k - 1) == 1 && (m % 2 == 1 || Low(d, k - 1) != 0)
  }

  /** Dropping `k` bits `d`, the doubled remainder against one unit. */
  lemma HalfUnit(d: nat, k: nat)
    requires k > 0 && Fits(d, k)
    ensures d < Shl(1, k)
    ensures Shr(d, k - 1) == 0 ==> 2 * d < Shl(1, k)
    ensures Shr(d, k - 1) != 0 ==> Shr(d, k - 1) == 1 && 2 * d >= Shl(1, k)
    ensures 2 * d == Shl(1, k) <==> Shr(d, k - 1) == 1 && Low(d, k - 1) == 0
  {
    var top, rest := Shr(d, k - 1), Low(d, k - 1);
    SplitAt(d, k - 1);
    TopBitOf(d, k - 1);
    LowSmall(d, k - 1);
    LowZero(k - 1);
    JoinBelow(0, rest, 1, k - 1);
  }

  lemma TopBitOf(d: nat, n: nat)
    requires Fits(d, n + 1)
    ensures Shr(d, n) <= 1
  {
    ShrFits(d, 1, n);
    assert Fits(Shr(d, n), 1);
  }

  /** The pattern whose fields are `e` and the mantissa `m`, implicit bit included. */
  lemma PatternValue(e: nat, m: nat)
    requires IMPLICIT <= m < 2 * IMPLICIT
    ensures var bits := Shl(e, 52) + m;
            Exponent(bits) == e + 1 && F64(bits) == Shl(m, e) && Ulp(bits) == Shl(1, e) && bits % 2 == m % 2
  {
    Pow2To52();
    Carried(e, m, IMPLICIT, 52);
  }

  /** A mantissa with its implicit bit, added below the exponent, counts one in the exponent. */
  lemma Carried(e: nat, m: nat, unit: nat, n: nat)
    requires n > 0 && unit == Pow(2, n) && unit <= m < 2 * unit
    ensures Shr(Shl(e, n) + m, n) == e + 1 && Low(Shl(e, n) + m, n) == m - unit
    ensures (Shl(e, n) + m) % 2 == m % 2
  {
    ShlIsMul(1, n);
    ShlAdd(e, 1, n);
    FitsIsBelow(m - unit, n);
    JoinAt(e + 1, m - unit, n);
    ParityKept(e, m, n);
  }

  lemma ParityKept(e: nat, m: nat, n: nat)
    requires n > 0
    ensures (Shl(e, n) + m) % 2 == m % 2
  {
    ModAddMultiple(m, Shl(e, n - 1), 2);
  }

  /**
   Rounding `m * 2^k + d` units, all scaled by `2^s`, to `m` or `m + 1` gives the nearest pattern;
   a mantissa that overflows carries into the exponent.
   */
  lemma RoundedIsNearest(e: nat, m: nat, d: nat, k: nat, s: nat)
    requires IMPLICIT <= m < 2 * IMPLICIT && e < 2000 && k > 0 && Fits(d, k) && e == k + s
    ensures Nearest(Shl(e, 52) + m + (if RoundsUp(m, d, k) then 1 else 0), Shl(Shl(m, k) + d, s))
  {
    var low, exact := Shl(e, 52) + m, Shl(Shl(m, k) + d, s);
    ExactParts(e, m, d, k, s);
    RestAgainstHalf(d, k, s, Ulp(low));
    if RoundsUp(m, d, k) {
      FiniteNext(low);
      NearestAbove(low, exact, Shl(d, s));
    } else {
      NearestBelow(low, exact, Shl(d, s));
    }
  }

  /** At least half a gap above a pattern, the next one is nearest. */
  lemma NearestAbove(low: nat, exact: nat, rest: nat)
    requires Finite(low + 1) && exact == F64(low) + rest && rest < Ulp(low) <= 2 * rest
    requires 2 * rest == Ulp(low) ==> low % 2 == 1
    ensures Nearest(low + 1, exact)
  {
    NextPattern(low);
    NearestFromNeighbours(low + 1, exact);
  }

  /** At most half a gap above a pattern, that pattern is nearest. */
  lemma NearestBelow(low: nat, exact: nat, rest: nat)
    requires Finite(low) && low > 0 && exact == F64(low) + rest && 2 * rest <= Ulp(low)
    requires 2 * rest == Ulp(low) ==> low % 2 == 0
    ensures Nearest(low, exact)
  {
    PatternOrder(low - 1, low);
    NearestFromNeighbours(low, exact);
  }

  /** The number to round lies `d` units, scaled, above the pattern of its mantissa. */
  lemma ExactParts(e: nat, m: nat, d: nat, k: nat, s: nat)
    requires IMPLICIT <= m < 2 * IMPLICIT && e == k + s
    ensures var low := Shl(e, 52) + m;
            && Exponent(low) == e + 1 && low % 2 == m % 2
            && Shl(Shl(m, k) + d, s) == F64(low) + Shl(d, s) && Ulp(low) == Shl(Shl(1, k), s)
  {
    PatternValue(e, m);
    ShlAdd(Shl(m, k), d, s);
    ShlShl(m, k, s);
    ShlShl(1, k, s);
  }

  /** The dropped bits against half of the scaled unit. */
  lemma RestAgainstHalf(d: nat, k: nat, s: nat, ulp: nat)
    requires k > 0 && Fits(d, k) && ulp == Shl(Shl(1, k), s)
    ensures Shl(d, s) < ulp
    ensures Shr(d, k - 1) == 0 ==> 2 * Shl(d, s) < ulp
    ensures Shr(d, k - 1) != 0 ==> Shr(d, k - 1) == 1 && 2 * Shl(d, s) >= ulp
    ensures 2 * Shl(d, s) == ulp <==> Shr(d, k - 1) == 1 && Low(d, k - 1) == 0
  {
    HalfUnit(d, k);
    ScaledHalf(d, Shl(1, k), s);
  }

  lemma ScaledHalf(d: nat, unit: nat, s: nat)
    ensures d < unit ==> Shl(d, s) < Shl(unit, s)
    ensures 2 * d < unit ==> 2 * Shl(d, s) < Shl(unit, s)
    ensures 2 * d >= unit ==> 2 * Shl(d, s) >= Shl(unit, s)
    ensures 2 * d == unit <==> 2 * Shl(d, s) == Shl(unit, s)
  {
    ShlMono(d, unit, s);
    ShlMono(2 * d, unit, s);
    ShlMono(unit, 2 * d, s);
    ShlAdd(d, d, s);
  }

  lemma FiniteNext(bits: nat)
    requires Exponent(bits) < 2046
    ensures Finite(bits + 1)
  {
    Increment(bits, 52);
  }

  /** The round bit: the top dropped bit, cancelled by one when only that bit decides on an even mantissa. */
  lemma RoundBit(low: nat, t: nat, a: nat)
    requires Fits(low, a) && t <= 1
    ensures Shl(1, a) >= 1
    ensures Shr(Shl(1, a) + low - t, a) == if t == 1 && low == 0 then 0 else 1
  {
    ShlPositive(a);
    if t == 1 && low == 0 {
      ShlIsMul(1, a);
      FitsIsBelow(Shl(1, a) - 1, a);
      ShrFits(Shl(1, a) - 1, 0, a);
    } else {
      FitsIsBelow(low, a);
      FitsIsBelow(low - t, a);
      JoinAt(1, low - t, a);
    }
  }

  /** Mixing the lowest bits into the word below the mantissa keeps what rounding looks at. */
  lemma MixedBits(high: nat, low: nat, a: nat, b: nat)
    requires b <= a && Fits(high, a + 1) && Fits(low, b)
    ensures var mixed, d := Or(high, low), Shl(high, b) + low;
            && Shr(mixed, a) == Shr(high, a) == Shr(d, a + b) <= 1
            && (Low(mixed, a) == 0 <==> Low(d, a + b) == 0)
  {
    var mixed, d := Or(high, low), Shl(high, b) + low;
    FitsMore(low, b, a);
    ShrFits(low, 0, a);
    ShrOr(high, low, a);
    OrZero(Shr(high, a));
    ShrFits(high, 1, a);
    assert Fits(Shr(high, a), 1);
    JoinAt(high, low, b);
    ShrShr(d, b, a);
    LowOr(high, low, a);
    LowSmall(low, a);
    OrIsZero(Low(high, a), low);
    LowExtend(d, b, a);
    LowZero(b);
    ShlMono(0, Low(high, a), b);
  }

  /** The branch-free rounding increment is the decision of round-half-to-even. */
  lemma RoundingTrick(m: nat, high: nat, low: nat, a: nat, b: nat, flipped: nat)
    requires b <= a && Fits(high, a + 1) && Fits(low, b) && flipped % 2 != m % 2
    ensures var mixed := Or(high, low);
            var t := And(Shr(mixed, a), flipped);
            && t <= mixed
            && Shr(mixed - t, a) == if RoundsUp(m, Shl(high, b) + low, a + b + 1) then 1 else 0
  {
    var mixed := Or(high, low);
    var t := And(Shr(mixed, a), flipped);
    MixedBits(high, low, a, b);
    SplitAt(mixed, a);
    LowSmall(mixed, a);
    if Shr(mixed, a) == 0 {
      assert t == 0;
    } else {
      assert t == flipped % 2 by { assert And(0, flipped / 2) == 0; }
      RoundBit(Low(mixed, a), t, a);
    }
  }

  /** The left-aligned number splits into mantissa and dropped bits. */
  lemma LeftAligned(x: nat, b: nat)
    requires 0 < b <= 256 && BitLen(x) == b
    ensures var l := Shl(x, 256 - b);
            && Fits(l, 256)
            && IMPLICIT <= Shr(l, 203) < 2 * IMPLICIT
            && Shl(l, b + 818) == Shl(x, 1074)
  {
    assert x > 0;
    TopBits(x, b, 256, 203);
    ShlShl(x, 256 - b, b + 818);
    Pow2To52();
  }

  /** Shifted to the top of `w` bits, a number has its highest bit just below what `k` bits cut off leave. */
  lemma TopBits(x: nat, b: nat, w: nat, k: nat)
    requires x > 0 && b == BitLen(x) <= w && k < w
    ensures Fits(Shl(x, w - b), w)
    ensures Pow(2, w - k - 1) <= Shr(Shl(x, w - b), k) < Pow(2, w - k)
  {
    BitLenShl(x, w - b);
    BitLenFits(Shl(x, w - b), w);
    TopOfLength(Shl(x, w - b), w, k);
  }

  lemma TopOfLength(l: nat, w: nat, k: nat)
    requires BitLen(l) == w && k < w
    ensures Pow(2, w - k - 1) <= Shr(l, k) < Pow(2, w - k)
  {
    BitLenShr(l, k);
    BoundsOfLength(Shr(l, k), w - k);
  }

  lemma BoundsOfLength(h: nat, n: nat)
    requires BitLen(h) == n > 0
    ensures Pow(2, n - 1) <= h < Pow(2, n)
  {
    BitLenBounds(h);
  }

  /** The 53-bit mantissa of a left-aligned number, and the increment its dropped bits call for. */
  method Mantissa(left: U256) returns (mantissa: U128, up: nat)
    ensures mantissa == Shr(left.Value(), 203)
    ensures up == if RoundsUp(mantissa, Low(left.Value(), 203), 203) then 1 else 0
  {
    var middle := WrappingShr(left, 75);
    mantissa := middle.hi;
    var mixed := And(left.lo, 0x7FF_FFFF_FFFF_FFFF_FFFF);
    var dropped := Or(middle.lo, mixed);
    var t := And(Shr(dropped, 127), MAX_128 - mantissa);
    Words(left, middle);
    FlippedParity(mantissa, MAX_128 - mantissa);
    ComputedIncrement(left.Value(), mantissa, middle.lo, mixed, MAX_128 - mantissa, dropped, t);
    up := Shr(dropped - t, 127);
  }

  lemma FlippedParity(m: nat, flipped: nat)
    requires m + flipped == MAX_128
    ensures flipped % 2 != m % 2
  {
  }

  /** Converts to the nearest binary64 number; the result is its bit pattern. */
  method ToF64(x: U256) returns (bits: U64)
    ensures Nearest(bits, Shl(x.Value(), 1074))
  {
    var n := BitCount(x);
    var leadingZeroes := 256 - n;
    var left := WrappingShl(x, leadingZeroes);
    bits := PackF64(left, leadingZeroes, x == ZERO, x.Value());
  }

  /** Rounds a left-aligned number and puts the exponent above the mantissa. */
  method PackF64(left: U256, leadingZeroes: nat, zero: bool, ghost v: nat) returns (bits: U64)
    requires leadingZeroes == 256 - BitLen(v) && (zero <==> v == 0)
    requires left.Value() == Low(Shl(v, leadingZeroes % 256), 256)
    ensures Nearest(bits, Shl(v, 1074))
  {
    var mantissa, up := Mantissa(left);
    var exponent := if zero then 0 else 1277 - leadingZeroes;
    var pattern := Shl(exponent, 52) + (mantissa + up);
    Converted(v, 256 - leadingZeroes, left.Value(), mantissa, up, exponent, pattern);
    bits := pattern;
  }

  lemma Mask75()
    ensures 0x7FF_FFFF_FFFF_FFFF_FFFF == Pow(2, 75) - 1
  {
    Pow2To64();
    assert Pow(2, 8) == 256 && Pow(2, 3) == 8;
    PowAdd(2, 8, 3);
    PowAdd(2, 64, 11);
  }

  /** The words the conversion works on, in terms of the left-aligned number. */
  lemma Words(left: U256, middle: U256)
    requires middle.Value() == Shr(left.Value(), 75 % 256)
    ensures middle.hi == Shr(left.Value(), 203)
    ensures Fits(middle.lo, 128) && middle.lo == Low(Shr(left.Value(), 75), 128)
    ensures And(left.lo, 0x7FF_FFFF_FFFF_FFFF_FFFF) == Low(left.Value(), 75) && Fits(Low(left.Value(), 75), 75)
  {
    ValueIsJoin(left);
    ValueIsJoin(middle);
    SplitWord(left.Value(), middle.Value(), left.lo, 75, 128);
    Mask75();
    AndMask(left.lo, 75);
  }

  lemma SplitWord(l: nat, middle: nat, low: nat, a: nat, w: nat)
    requires middle == Shr(l, a) && low == Low(l, w) && a <= w
    ensures Shr(middle, w) == Shr(l, a + w)
    ensures Low(low, a) == Low(l, a) && Fits(Low(l, a), a)
  {
    ShrShr(l, a, w);
    LowLow(l, w, a);
    LowSmall(l, a);
  }

  /** The computed increment is the rounding decision on all 203 dropped bits. */
  lemma ComputedIncrement(l: nat, m: nat, high: nat, low: nat, flipped: nat, dropped: nat, t: nat)
    requires high == Low(Shr(l, 75), 128) && Fits(high, 128) && low == Low(l, 75) && Fits(low, 75)
    requires flipped % 2 != m % 2 && dropped == Or(high, low) && t == And(Shr(dropped, 127), flipped)
    ensures t <= dropped && Shr(dropped - t, 127) == if RoundsUp(m, Low(l, 203), 203) then 1 else 0
  {
    LowExtend(l, 75, 128);
    RoundingTrick(m, high, low, 127, 75, flipped);
  }

  lemma Converted(x: nat, n: nat, l: nat, m: nat, up: nat, e: nat, bits: nat)
    requires n == BitLen(x) <= 256 && l == Low(Shl(x, (256 - n) % 256), 256)
    requires m == Shr(l, 203) && up == if RoundsUp(m, Low(l, 203), 203) then 1 else 0
    requires e == (if x == 0 then 0 else n + 1021) && bits == Shl(e, 52) + (m + up)
    ensures Nearest(bits, Shl(x, 1074)) && bits < TWO_64
  {
    if x == 0 {
      ZeroParts(x, (256 - n) % 256, 256, l, 203);
      NoRounding(m, Low(l, 203), 203);
      ZeroShifts(e, 52);
      ZeroShifts(x, 1074);
      ZeroIsNearest(bits, Shl(x, 1074));
    } else {
      Aligned203(x, n, l);
      RoundedIsNearest(e, m, Low(l, 203), 203, n + 818);
      FiniteFits(bits);
    }
  }

  lemma Aligned203(x: nat, n: nat, l: nat)
    requires x > 0 && n == BitLen(x) <= 256 && l == Low(Shl(x, (256 - n) % 256), 256)
    ensures IMPLICIT <= Shr(l, 203) < 2 * IMPLICIT && Fits(Low(l, 203), 203)
    ensures Shl(Shl(Shr(l, 203), 203) + Low(l, 203), n + 818) == Shl(x, 1074)
  {
    SmallMod(256 - n, 256);
    LeftAligned(x, n);
    LowSmall(Shl(x, 256 - n), 256);
    SplitAt(l, 203);
    LowSmall(l, 203);
  }

  lemma FiniteFits(bits: nat)
    requires Finite(bits)
    ensures bits < TWO_64
  {
    SplitAt(bits, 52);
    LowSmall(bits, 52);
    JoinBelow(Exponent(bits), Low(bits, 52), 2047, 52);
    Pow2To52();
    ShlIsMul(2047, 52);
  }

  /** Zero has mantissa, dropped bits and exponent zero. */
  lemma ZeroParts(x: nat, s: nat, w: nat, l: nat, n: nat)
    requires x == 0 && l == Low(Shl(x, s), w)
    ensures Shr(l, n) == 0 && Low(l, n) == 0
  {
    ZeroShifts(x, s);
    ZeroShifts(Shl(x, s), w);
    ZeroShifts(l, n);
  }

  lemma NoRounding(m: nat, d: nat, k: nat)
    requires d == 0 && k > 0
    ensures !RoundsUp(m, d, k)
  {
    ZeroShifts(d, k - 1);
  }

  lemma ZeroIsNearest(bits: nat, exact: nat)
    requires bits == 0 && exact == 0
    ensures Nearest(bits, exact)
  {
    ZeroShifts(bits, 52);
    NearestFromNeighbours(bits, exact);
  }
}
