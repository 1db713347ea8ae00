/** 256-bit unsigned integers as two 128-bit halves; every operation refines integer arithmetic. */
module Uint256 {
  import opened Arith
  import opened Bits

  type U128 = x: nat | x < TWO_128

  const MAX_128: U128 := TWO_128 - 1

  datatype U256 = U256(hi: U128, lo: U128) {
    ghost function Value(): (v: nat)
      ensures v < TWO_256
    {
      hi * TWO_128 + lo
    }
  }

  const ZERO: U256 := U256(0, 0)
  const ONE: U256 := U256(0, 1)
  const MAX: U256 := U256(MAX_128, MAX_128)

  lemma ValueIsJoin(x: U256)
    ensures x.Value() == Shl(x.hi, 128) + x.lo
    ensures Fits(x.lo, 128)
    ensures Low(x.Value(), 128) == x.lo && Shr(x.Value(), 128) == x.hi
  {
    Fits128(x.lo);
    Pow2To128();
    ShlIsMul(x.hi, 128);
    JoinAt(x.hi, x.lo, 128);
  }

  /** The low 128 bits, as a cast to the narrower type keeps them. */
  function Cut(x: nat): U128 {
    LowSmall(x, 128);
    Fits128(Low(x, 128));
    Low(x, 128)
  }

  /** Lexicographic comparison of the halves, as the derived order of the pair. */
  predicate Less(x: U256, y: U256) {
    x.hi < y.hi || (x.hi == y.hi && x.lo < y.lo)
  }

  lemma LessIsLess(x: U256, y: U256)
    ensures Less(x, y) <==> x.Value() < y.Value()
  {
  }

  /** The least number of bits that hold the number, from the leading zeros of one half. */
  method BitCount(x: U256) returns (n: nat)
    ensures n == BitLen(x.Value()) && n <= 256
  {
    ValueIsJoin(x);
    Fits128(x.hi);
    BitLenFits(x.hi, 128);
    BitLenFits(x.lo, 128);
    if x.hi > 0 {
      LengthOfHalves(x.Value(), x.hi, x.lo, 128);
      n := 128 + BitLen(x.hi);
    } else {
      n := BitLen(x.lo);
    }
  }

  lemma LengthOfHalves(v: nat, hi: nat, lo: nat, w: nat)
    requires hi > 0 && v == Shl(hi, w) + lo && Fits(lo, w)
    ensures BitLen(v) == w + BitLen(hi)
  {
    BitLenJoin(hi, lo, w);
  }

  method OverflowingAdd(x: U256, y: U256) returns (r: U256, overflow: bool)
    ensures r.Value() == (x.Value() + y.Value()) % TWO_256
    ensures overflow <==> x.Value() + y.Value() >= TWO_256
  {
    var high, low;
    high, low, overflow := AddHalves(x.hi, x.lo, y.hi, y.lo);
    r := U256(high, low);
  }

  /** Adds the halves, the low ones first carrying into the high ones. */
  method AddHalves(a: U128, b: U128, c: U128, d: U128) returns (high: U128, low: U128, overflow: bool)
    ensures high * TWO_128 + low == (a * TWO_128 + b + (c * TWO_128 + d)) % TWO_256
    ensures overflow <==> a * TWO_128 + b + (c * TWO_128 + d) >= TWO_256
  {
    var lost, carry;
    high, lost := (a + c) % TWO_128, a + c >= TWO_128;
    low, carry := (b + d) % TWO_128, b + d >= TWO_128;
    overflow := lost;
    if carry {
      overflow := overflow || high + 1 >= TWO_128;
      high := (high + 1) % TWO_128;
    }
    AddedHalves(a, b, c, d, TWO_128, high, low, overflow);
  }

  /** Halves added with a carry, in any base, make up the wrapped sum. */
  lemma AddedHalves(a: nat, b: nat, c: nat, d: nat, base: nat, high: nat, low: nat, overflow: bool)
    requires a < base && b < base && c < base && d < base
    requires low == (b + d) % base
    requires high == if b + d >= base then ((a + c) % base + 1) % base else (a + c) % base
    requires overflow <==> a + c >= base || (b + d >= base && (a + c) % base + 1 >= base)
    ensures high * base + low == (a * base + b + (c * base + d)) % (base * base)
    ensures overflow <==> a * base + b + (c * base + d) >= base * base
  {
    var carry, k := if b + d >= base then 1 else 0, if overflow then 1 else 0;
    WrapOnce(b + d, base);
    WrapOnce(a + c, base);
    WrapOnce((a + c) % base + 1, base);
    Combined(a, b, c, d, base, carry, k, high, low);
  }

  lemma Combined(a: nat, b: nat, c: nat, d: nat, base: nat, carry: nat, k: nat, high: nat, low: nat)
    requires high < base && low < base && k <= 1
    requires b + d == carry * base + low && a + c + carry == k * base + high
    ensures high * base + low == (a * base + b + (c * base + d)) % (base * base)
    ensures k == 1 <==> a * base + b + (c * base + d) >= base * base
  {
    assert (a + c + carry) * base == a * base + c * base + carry * base;
    assert (k * base + high) * base == k * (base * base) + high * base;
    MulMono(high, base - 1, base);
    assert (base - 1) * base == base * base - base;
    DivMulAdd(k, base * base, high * base + low);
  }

  lemma WrapOnce(x: nat, base: nat)
    requires x < 2 * base
    ensures x % base == if x < base then x else x - base
  {
    DivModUnique(x, base, if x < base then 0 else 1, if x < base then x else x - base);
  }

  method Not(x: U256) returns (r: U256)
    ensures r.Value() == TWO_256 - 1 - x.Value()
  {
    r := U256(MAX_128 - x.hi, MAX_128 - x.lo);
  }

  /** Subtraction as addition of the two's complement. */
  method OverflowingSub(x: U256, y: U256) returns (r: U256, overflow: bool)
    ensures r.Value() == (x.Value() - y.Value()) % TWO_256
    ensures overflow <==> y.Value() > x.Value()
  {
    var flipped := Not(y);
    var sum, _ := OverflowingAdd(x, flipped);
    var twos, _ := OverflowingAdd(sum, ONE);
    r := twos;
    overflow := Less(x, y);
    LessIsLess(x, y);
    TwosComplement(x.Value(), y.Value(), flipped.Value(), sum.Value(), ONE.Value(), TWO_256);
  }

  lemma TwosComplement(x: nat, y: nat, flipped: nat, sum: nat, one: nat, modulus: nat)
    requires modulus > 0 && flipped == modulus - 1 - y && sum == (x + flipped) % modulus && one == 1
    ensures (sum + one) % modulus == (x - y) % modulus
  {
    ModAddLeft(x + flipped, one, modulus);
    ModAddMultiple(x - y, 1, modulus);
  }

  method WrappingInc(x: U256) returns (r: U256)
    ensures r.Value() == (x.Value() + 1) % TWO_256
  {
    var low := (x.lo + 1) % TWO_128;
    var high := if low == 0 then (x.hi + 1) % TWO_128 else x.hi;
    r := U256(high, low);
    IncrementedHalves(x.hi, x.lo, TWO_128, high, low);
  }

  lemma IncrementedHalves(a: nat, b: nat, base: nat, high: nat, low: nat)
    requires 1 < base && a < base && b < base
    requires low == (b + 1) % base && high == if low == 0 then (a + 1) % base else a
    ensures high * base + low == (a * base + b + 1) % (base * base)
  {
    WrapOnce(b + 1, base);
    WrapOnce(a + 1, base);
    var carry, k := if b + 1 == base then 1 else 0, if b + 1 == base && a + 1 == base then 1 else 0;
    Combined(a, b, 0, 1, base, carry, k, high, low);
  }

  /** Left shift by the amount modulo 256; bits pushed out at the top are lost. */
  method WrappingShl(x: U256, amount: nat) returns (r: U256)
    ensures r.Value() == Low(Shl(x.Value(), amount % 256), 256)
  {
    var shift := amount % 256;
    var bits := shift % 128;
    if shift >= 128 {
      r := U256(Cut(Shl(x.lo, bits)), 0);
      ShlWord(x, bits);
      assert 128 + bits == shift;
    } else {
      assert bits == shift;
      var carried := if bits > 0 then Shr(x.lo, 128 - bits) else 0;
      var high, low := Cut(Shl(x.hi, bits)), Cut(Shl(x.lo, bits));
      ShlAcross(x, bits, carried, high, low);
      r := U256(high + carried, low);
    }
  }

  lemma JoinedValue(high: U128, low: U128)
    ensures U256(high, low).Value() == Shl(high, 128) + low
  {
    ValueIsJoin(U256(high, low));
  }

  lemma ShlWord(x: U256, b: nat)
    requires b < 128
    ensures U256(Cut(Shl(x.lo, b)), 0).Value() == Low(Shl(x.Value(), 128 + b), 256)
  {
    ValueIsJoin(x);
    ValueIsJoin(U256(Cut(Shl(x.lo, b)), 0));
    LowShl(x.Value(), 128 + b, 256);
    LowLow(x.Value(), 128, 128 - b);
    LowShl(x.lo, b, 128);
    ShlShl(Low(x.lo, 128 - b), b, 128);
  }

  lemma ShlAcross(x: U256, b: nat, carried: nat, high: nat, low: U128)
    requires b < 128 && carried == if b > 0 then Shr(x.lo, 128 - b) else 0
    requires high == Low(Shl(x.hi, b), 128) && low == Low(Shl(x.lo, b), 128)
    ensures high + carried < TWO_128
    ensures U256(high + carried, low).Value() == Low(Shl(x.Value(), b), 256)
  {
    ValueIsJoin(x);
    AcrossLeft(x.Value(), x.hi, x.lo, 128, b, carried);
    Fits128(high + carried);
    JoinedValue(high + carried, low);
  }

  /** A left shift of two words of any width: the bits pushed out of the low word enter the high one. */
  lemma AcrossLeft(v: nat, hi: nat, lo: nat, w: nat, b: nat, carried: nat)
    requires b < w && v == Shl(hi, w) + lo && Fits(lo, w) && carried == if b > 0 then Shr(lo, w - b) else 0
    ensures Fits(Low(Shl(hi, b), w) + carried, w)
    ensures Shl(Low(Shl(hi, b), w) + carried, w) + Low(Shl(lo, b), w) == Low(Shl(v, b), 2 * w)
  {
    ShrFits(lo, b, w - b);
    assert b == 0 ==> Fits(Shr(lo, w - b), 0);
    LowShl(hi, b, w);
    LowShl(lo, b, w);
    CarryFits(hi, lo, w, b);
    ShlValue(v, hi, lo, w, b);
    ShlLowParts(hi, lo, w, b);
  }

  lemma ShlValue(v: nat, hi: nat, lo: nat, w: nat, b: nat)
    requires b < w && v == Shl(hi, w) + lo && Fits(lo, w)
    ensures Low(Shl(v, b), 2 * w) == Shl(Shl(Low(hi, w - b), w) + lo, b)
  {
    LowShl(v, b, 2 * w);
    LowJoin(hi, lo, w, w - b);
  }

  lemma CarryFits(hi: nat, lo: nat, w: nat, b: nat)
    requires b < w && Fits(lo, w)
    ensures Fits(Shl(Low(hi, w - b), b) + Shr(lo, w - b), w)
  {
    LowSmall(hi, w - b);
    ShrFits(lo, b, w - b);
    JoinFits(Low(hi, w - b), w - b, Shr(lo, w - b), b);
  }

  lemma ShlLowParts(hi: nat, lo: nat, w: nat, b: nat)
    requires b < w
    ensures Shl(Shl(Low(hi, w - b), b) + Shr(lo, w - b), w) + Shl(Low(lo, w - b), b)
         == Shl(Shl(Low(hi, w - b), w) + lo, b)
  {
    var h, t, l := Low(hi, w - b), Shr(lo, w - b), Low(lo, w - b);
    ShlAdd(Shl(h, b), t, w);
    ShlShl(h, b, w);
    ShlShl(h, w, b);
    ShlAdd(Shl(h, w), lo, b);
    SplitAt(lo, w - b);
    ShlAdd(Shl(t, w - b), l, b);
    ShlShl(t, w - b, b);
  }

  /** Right shift by the amount modulo 256. */
  method WrappingShr(x: U256, amount: nat) returns (r: U256)
    ensures r.Value() == Shr(x.Value(), amount % 256)
  {
    var shift := amount % 256;
    var bits := shift % 128;
    if shift >= 128 {
      ShrWord(x, bits);
      r := U256(0, Shr(x.hi, bits));
    } else {
      var carried := if bits > 0 then Cut(Shl(x.hi, 128 - bits)) else 0;
      ShrAcross(x, bits, carried);
      r := U256(Shr(x.hi, bits), Shr(x.lo, bits) + carried);
    }
  }

  lemma ShrWord(x: U256, b: nat)
    requires b < 128
    ensures Shr(x.hi, b) < TWO_128
    ensures Shr(x.hi, b) == Shr(x.Value(), 128 + b)
  {
    ValueIsJoin(x);
    ShrShr(x.Value(), 128, b);
    ShrSmaller(x.hi, b);
  }

  lemma ShrAcross(x: U256, b: nat, carried: nat)
    requires b < 128 && carried == if b > 0 then Low(Shl(x.hi, 128 - b), 128) else 0
    ensures Shr(x.hi, b) < TWO_128 && Shr(x.lo, b) + carried < TWO_128
    ensures U256(Shr(x.hi, b), Shr(x.lo, b) + carried).Value() == Shr(x.Value(), b)
  {
    ValueIsJoin(x);
    ShrSmaller(x.hi, b);
    AcrossRight(x.Value(), x.hi, x.lo, 128, b, carried);
    Fits128(Shr(x.lo, b) + carried);
    JoinedValue(Shr(x.hi, b), Shr(x.lo, b) + carried);
  }

  /** A right shift of two words of any width: the bits pushed out of the high word enter the low one. */
  lemma AcrossRight(v: nat, hi: nat, lo: nat, w: nat, b: nat, carried: nat)
    requires b < w && v == Shl(hi, w) + lo && Fits(lo, w)
    requires carried == if b > 0 then Low(Shl(hi, w - b), w) else 0
    ensures Fits(Shr(lo, b) + carried, w)
    ensures Shl(Shr(hi, b), w) + (Shr(lo, b) + carried) == Shr(v, b)
  {
    CarriedDown(hi, w, b, carried);
    ShrJoin(hi, lo, w, b);
    LowSmall(hi, b);
    ShrFits(lo, w - b, b);
    JoinFits(Low(hi, b), b, Shr(lo, b), w - b);
  }

  lemma CarriedDown(hi: nat, w: nat, b: nat, carried: nat)
    requires b < w && carried == if b > 0 then Low(Shl(hi, w - b), w) else 0
    ensures carried == Shl(Low(hi, b), w - b)
    ensures Shl(hi, w - b) == Shl(Shr(hi, b), w) + carried
  {
    LowShl(hi, w - b, w);
    LowZero(w);
    SplitAt(hi, b);
    ShlAdd(Shl(Shr(hi, b), b), Low(hi, b), w - b);
    ShlShl(Shr(hi, b), b, w - b);
  }
}
