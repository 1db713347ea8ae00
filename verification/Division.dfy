/** Shift-and-subtract long division of 256-bit integers. */
module Division {
  import opened Arith
  import opened Bits
  import opened Uint256

  /** Sets bit `n` of a number whose low `n + 1` bits are clear. */
  method SetBit(x: U256, n: nat) returns (r: U256)
    requires n < 256 && Low(x.Value(), n + 1) == 0
    ensures r.Value() == x.Value() + Shl(1, n)
  {
    if n >= 128 {
      SetHigh(x, n - 128);
      r := U256(Or(x.hi, Shl(1, n - 128)), x.lo);
    } else {
      SetLow(x, n);
      r := U256(x.hi, Or(x.lo, Shl(1, n)));
    }
  }

  lemma SetHigh(x: U256, n: nat)
    requires n < 128 && Low(x.Value(), n + 129) == 0
    ensures Or(x.hi, Shl(1, n)) < TWO_128
    ensures U256(Or(x.hi, Shl(1, n)), x.lo).Value() == x.Value() + Shl(1, n + 128)
  {
    ValueIsJoin(x);
    Fits128(x.hi);
    SetInHigh(x.Value(), x.hi, x.lo, 128, n);
    OrBit(x.hi, 128, n);
    Fits128(Or(x.hi, Shl(1, n)));
    ValueIsJoin(U256(Or(x.hi, Shl(1, n)), x.lo));
  }

  lemma SetLow(x: U256, n: nat)
    requires n < 128 && Low(x.Value(), n + 1) == 0
    ensures Or(x.lo, Shl(1, n)) < TWO_128
    ensures U256(x.hi, Or(x.lo, Shl(1, n))).Value() == x.Value() + Shl(1, n)
  {
    ValueIsJoin(x);
    SetInLow(x.Value(), x.lo, 128, n);
    OrBit(x.lo, 128, n);
    Fits128(Or(x.lo, Shl(1, n)));
  }

  lemma SetInHigh(v: nat, hi: nat, lo: nat, w: nat, n: nat)
    requires v == Shl(hi, w) + lo && Fits(lo, w) && Low(v, w + n + 1) == 0
    ensures lo == 0 && Low(hi, n + 1) == 0
    ensures Shl(hi + Shl(1, n), w) + lo == v + Shl(1, w + n)
  {
    LowJoin(hi, lo, w, n + 1);
    ShlMono(0, Low(hi, n + 1), w);
    LowZero(w);
    ShlAdd(hi, Shl(1, n), w);
    ShlShl(1, n, w);
  }

  lemma SetInLow(v: nat, lo: nat, w: nat, n: nat)
    requires n < w && lo == Low(v, w) && Low(v, n + 1) == 0
    ensures Low(lo, n + 1) == 0
  {
    LowLow(v, w, n + 1);
  }

  /** Or-ing a single bit in above clear bits adds it, and stays within the width. */
  lemma OrBit(x: nat, w: nat, n: nat)
    requires n < w && Fits(x, w) && Low(x, n + 1) == 0
    ensures Or(x, Shl(1, n)) == x + Shl(1, n) && Fits(x + Shl(1, n), w)
  {
    var h := Shr(x, n + 1);
    assert Fits(1, 1);
    ShlFits(1, 1, n);
    OrDisjoint(x, Shl(1, n), n + 1);
    SplitAt(x, n + 1);
    ShrFits(x, w - n - 1, n + 1);
    JoinFits(h, w - n - 1, Shl(1, n), n + 1);
  }

  /** `q` and `r` are the quotient and the remainder of `x` by `y`. */
  ghost predicate IsDivision(x: nat, y: nat, q: nat, r: nat) {
    x == Times(q, y) + r && r < y
  }

  lemma DivisionIsQuotient(x: nat, y: nat, q: nat, r: nat)
    requires IsDivision(x, y, q, r)
    ensures q == x / y && r == x % y && x == q * y + r
  {
    TimesIsMul(q, y);
    DivModUnique(x, y, q, r);
  }

  /** What the division loop keeps: quotient bits from `s` up are found, the rest is in `sub`. */
  ghost predicate Partial(x: nat, y: nat, k: nat, s: nat, ret: nat, sub: nat) {
    ret == Shl(k, s) && x == Shl(Times(k, y), s) + sub && sub < Shl(y, s)
  }

  lemma DivisionStep(x: nat, y: nat, k: nat, s: nat, ret: nat, sub: nat)
    requires s > 0 && Partial(x, y, k, s, ret, sub)
    ensures Low(ret, s) == 0
    ensures sub >= Shl(y, s - 1) ==> Partial(x, y, 2 * k + 1, s - 1, ret + Shl(1, s - 1), sub - Shl(y, s - 1))
    ensures sub < Shl(y, s - 1) ==> Partial(x, y, 2 * k, s - 1, ret, sub)
  {
    ShlAlone(k, s);
    ShlShl(k, 1, s - 1);
    ShlShl(Times(k, y), 1, s - 1);
    assert Shl(k, 1) == 2 * k && Shl(Times(k, y), 1) == 2 * Times(k, y);
    TimesDouble(k, y);
    ShlAdd(2 * k, 1, s - 1);
    ShlAdd(2 * Times(k, y), y, s - 1);
  }

  lemma TimesDouble(k: nat, y: nat)
    ensures Times(2 * k, y) == 2 * Times(k, y) && Times(2 * k + 1, y) == 2 * Times(k, y) + y
  {
    TimesIsMul(k, y);
    TimesIsMul(2 * k, y);
    TimesIsMul(2 * k + 1, y);
  }

  /** The aligned divisor fits, and the dividend is below its double. */
  lemma Aligned(x: nat, y: nat, w: nat)
    requires y > 0 && BitLen(y) <= BitLen(x) <= w
    ensures Fits(Shl(y, BitLen(x) - BitLen(y)), w)
    ensures x < Shl(y, BitLen(x) - BitLen(y) + 1)
  {
    AlignedFor(x, y, w, BitLen(x), BitLen(y));
  }

  lemma AlignedFor(x: nat, y: nat, w: nat, m: nat, n: nat)
    requires 0 < n <= m <= w && m == BitLen(x) && n == BitLen(y)
    ensures Fits(Shl(y, m - n), w) && x < Shl(y, m - n + 1)
  {
    BitLenFits(y, n);
    ShlFits(y, n, m - n);
    FitsMore(Shl(y, m - n), m, w);
    BitLenFits(x, m);
    BitLenFits(y, n - 1);
    ShlFits(y, n - 1, m - n + 1);
    FitsOrder(x, Shl(y, m - n + 1), m);
  }

  lemma {:induction false} FitsOrder(x: nat, y: nat, n: nat)
    requires Fits(x, n) && !Fits(y, n)
    ensures x < y
    decreases n
  {
    if n > 0 {
      FitsOrder(x / 2, y / 2, n - 1);
    }
  }

  /** One position of the long division: subtracts the shifted divisor if it still fits. */
  method TryBit(sub: U256, shifted: U256, ret: U256, shift: nat, ghost x: nat, ghost y: nat, ghost k: nat)
    returns (newSub: U256, newRet: U256, ghost newK: nat)
    requires shift < 256 && shifted.Value() == Shl(y, shift)
    requires Partial(x, y, k, shift + 1, ret.Value(), sub.Value())
    ensures Partial(x, y, newK, shift, newRet.Value(), newSub.Value())
  {
    DivisionStep(x, y, k, shift + 1, ret.Value(), sub.Value());
    LessIsLess(sub, shifted);
    newSub, newRet, newK := sub, ret, 2 * k;
    if !Less(sub, shifted) {
      newRet := SetBit(ret, shift);
      var diff, _ := OverflowingSub(sub, shifted);
      SmallMod(sub.Value() - shifted.Value(), TWO_256);
      newSub := diff;
      newK := 2 * k + 1;
    }
  }

  /** Quotient and remainder, by bitwise long division; panics on a zero divisor. */
  method DivRem(x: U256, y: U256) returns (quotient: U256, remainder: U256)
    requires y.Value() != 0
    ensures IsDivision(x.Value(), y.Value(), quotient.Value(), remainder.Value())
  {
    var myBits := BitCount(x);
    var yourBits := BitCount(y);
    if myBits < yourBits {
      Smaller(x.Value(), y.Value());
      return ZERO, x;
    }
    var shift := myBits - yourBits;
    var shiftCopy := WrappingShl(y, shift);
    Begin(x.Value(), y.Value(), shift, shiftCopy.Value());
    quotient, remainder := LongDivide(x, shiftCopy, shift, x.Value(), y.Value());
  }

  /** The loop over all positions, from the aligned divisor down. */
  method LongDivide(dividend: U256, aligned: U256, start: nat, ghost x: nat, ghost y: nat)
    returns (ret: U256, subCopy: U256)
    requires y > 0 && start < 256 && aligned.Value() == Shl(y, start)
    requires Partial(x, y, 0, start + 1, 0, dividend.Value())
    ensures IsDivision(x, y, ret.Value(), subCopy.Value())
  {
    ghost var k: nat := 0;
    var shift, shiftCopy := start, aligned;
    subCopy, ret := dividend, ZERO;
    while true
      invariant 0 <= shift < 256
      invariant Partial(x, y, k, shift + 1, ret.Value(), subCopy.Value())
      invariant shiftCopy.Value() == Shl(y, shift)
      decreases shift
    {
      subCopy, ret, k := TryBit(subCopy, shiftCopy, ret, shift, x, y, k);
      var halved := WrappingShr(shiftCopy, 1);
      if shift == 0 {
        break;
      }
      HalveShl(y, shift, shiftCopy.Value(), halved.Value());
      shift, shiftCopy := shift - 1, halved;
    }
    Finished(x, y, k, ret.Value(), subCopy.Value());
  }

  lemma Begin(x: nat, y: nat, shift: nat, aligned: nat)
    requires y > 0 && BitLen(y) <= BitLen(x) <= 256 && shift == BitLen(x) - BitLen(y)
    requires aligned == Low(Shl(y, shift % 256), 256)
    ensures shift < 256 && aligned == Shl(y, shift)
    ensures Partial(x, y, 0, shift + 1, 0, x)
  {
    assert BitLen(y) > 0;
    SmallMod(shift, 256);
    BeginAt(x, y, shift, 256);
  }

  lemma BeginAt(x: nat, y: nat, shift: nat, w: nat)
    requires y > 0 && BitLen(y) <= BitLen(x) <= w && shift == BitLen(x) - BitLen(y)
    ensures Low(Shl(y, shift), w) == Shl(y, shift)
    ensures Partial(x, y, 0, shift + 1, 0, x)
  {
    Aligned(x, y, w);
    LowSmall(Shl(y, shift), w);
    LowZero(shift + 1);
  }

  lemma Finished(x: nat, y: nat, k: nat, ret: nat, sub: nat)
    requires y > 0 && Partial(x, y, k, 0, ret, sub)
    ensures IsDivision(x, y, ret, sub)
  {
  }

  lemma HalveShl(y: nat, n: nat, v: nat, half: nat)
    requires n > 0 && v == Shl(y, n) && half == Shr(v, 1 % 256)
    ensures half == Shl(y, n - 1)
  {
    ShrShl(y, n, 1);
  }

  lemma Smaller(x: nat, y: nat)
    requires BitLen(x) < BitLen(y)
    ensures IsDivision(x, y, 0, x)
  {
    if y <= x {
      BitLenMono(y, x);
    }
  }
}
