/** The compact "nBits" encoding of targets: a byte of exponent and a signed 23-bit mantissa. */
module Compact {
  import opened Arith
  import opened Bits
  import opened Uint256

  /** Exponent byte of an encoded number: its bytes, counting room for the sign bit. */
  function SizeOf(t: nat): nat {
    if t == 0 then 0 else BitLen(t) / 8 + 1
  }

  /** Bits that do not fit into the mantissa. */
  function LostBits(t: nat): nat {
    if SizeOf(t) <= 3 then 0 else 8 * (SizeOf(t) - 3)
  }

  function MantissaOf(t: nat): nat {
    if SizeOf(t) <= 3 then Shl(t, 8 * (3 - SizeOf(t))) else Shr(t, LostBits(t))
  }

  /** The compact form of any number of at most 256 bits. */
  function CompactOf(t: nat): nat {
    Shl(SizeOf(t), 24) + MantissaOf(t)
  }

  /** The number with the bits beyond its mantissa cleared. */
  function Truncated(t: nat): nat {
    Shl(Shr(t, LostBits(t)), LostBits(t))
  }

  /** Mantissa and shift that a 32-bit compact form denotes. */
  function Denoted(c: nat): (nat, nat) {
    var expt := Shr(c, 24);
    if expt <= 3 then (Shr(Low(c, 24), 8 * (3 - expt)), 0) else (Low(c, 24), 8 * (expt - 3))
  }

  /** The target of a compact form: negative ones are zero, and the shift is taken modulo 256. */
  function TargetOf(c: nat): nat {
    var (mant, expt) := Denoted(c);
    if mant > 0x7F_FFFF then 0 else Low(Shl(mant, expt % 256), 256)
  }

  method FromCompact(c: U32) returns (t: U256)
    ensures t.Value() == TargetOf(c)
  {
    var unshifted, masked := Shr(c, 24), And(c, 0xFF_FFFF);
    var mant, expt;
    Mask24(c);
    if unshifted <= 3 {
      mant, expt := Shr(masked, 8 * (3 - unshifted)), 0;
    } else {
      mant, expt := masked, 8 * (unshifted - 3);
    }
    assert (mant, expt) == Denoted(c);
    if mant > 0x7F_FFFF {
      t := ZERO;
    } else {
      t := WrappingShl(U256(0, mant), expt);
    }
  }

  lemma Pow2To24()
    ensures Pow(2, 24) == 0x100_0000 && Pow(2, 23) == 0x80_0000
  {
    Pow2To8();
    PowAdd(2, 8, 8);
    PowAdd(2, 16, 8);
    assert Pow(2, 7) == 128;
    PowAdd(2, 16, 7);
  }

  lemma Mask24(c: nat)
    ensures And(c, 0xFF_FFFF) == Low(c, 24)
  {
    Pow2To24();
    AndMask(c, 24);
  }

  /** Decoding gives the denoted number exactly when that number has at most 256 bits. */
  lemma TargetIsDenotedIff(c: nat)
    requires Denoted(c).0 <= 0x7F_FFFF
    ensures TargetOf(c) == Shl(Denoted(c).0, Denoted(c).1) <==> Fits(Shl(Denoted(c).0, Denoted(c).1), 256)
  {
    var (mant, expt) := Denoted(c);
    WrappedShift(mant, expt, 256);
  }

  /** Shifting by an amount taken modulo the width is exact when and only when the result fits. */
  lemma WrappedShift(mant: nat, expt: nat, w: nat)
    requires w > 0
    ensures Low(Shl(mant, expt % w), w) == Shl(mant, expt) <==> Fits(Shl(mant, expt), w)
  {
    var n := expt % w;
    LowSmall(Shl(mant, n), w);
    if expt < w {
      SmallMod(expt, w);
    } else if Fits(Shl(mant, expt), w) {
      ShiftedOut(mant, expt, w);
      ZeroShifts(mant, n);
      ZeroShifts(mant, expt);
    }
  }

  /** Only zero fits a width it was shifted beyond. */
  lemma ShiftedOut(mant: nat, expt: nat, w: nat)
    requires expt >= w && Fits(Shl(mant, expt), w)
    ensures mant == 0
  {
    var high := Shl(mant, expt - w);
    ShlShl(mant, expt - w, w);
    ShlFits(high, 0, w);
    assert high == 0;
    LowZero(expt - w);
    ShlMono(0, mant, expt - w);
  }

  /** A set sign bit makes the target zero, unless the exponent shifts the sign bit out. */
  lemma NegativeIsZero(c: U32)
    requires Shr(c, 24) >= 3 && Shr(c, 23) % 2 == 1
    ensures TargetOf(c) == 0
  {
    ShrLow(c, 24, 23);
    SignSet(Low(c, 24));
    Unshifted(Low(c, 24), 8 * (3 - 3));
  }

  lemma SignSet(m: nat)
    requires Shr(m, 23) >= 1
    ensures m >= 0x80_0000
  {
    Pow2To24();
    ShrIsDiv(m, 23);
    DivBelow(m, 0x80_0000, 1);
  }

  lemma Unshifted(m: nat, n: nat)
    requires n == 0
    ensures Shr(m, n) == m
  {
  }

  /** Where bits are lost, at least sixteen are kept. */
  lemma EnoughKept(t: nat)
    requires LostBits(t) > 0
    ensures Shr(t, LostBits(t)) >= 0x8000
  {
    BitLenShr(t, LostBits(t));
    KeptLength(t);
    BitLenFits(Shr(t, LostBits(t)), 15);
    SixteenBits(Shr(t, LostBits(t)));
  }

  lemma KeptLength(t: nat)
    requires LostBits(t) > 0
    ensures BitLen(t) >= LostBits(t) + 16
  {
  }

  lemma SixteenBits(m: nat)
    requires !Fits(m, 15)
    ensures m >= 0x8000
  {
    FitsIsBelow(m, 15);
    FifteenBits(2);
  }

  lemma FifteenBits(b: nat)
    requires b == 2
    ensures Pow(b, 15) == 0x8000
  {
    TwoPowers(b);
    assert Pow(b, 1) == 2 by { assert Pow(b, 0) == 1; }
    PowAdd(b, 15, 1);
  }

  /** A compact form that denotes `2^256` and decodes to one. */
  lemma WrappedForm(c: U32)
    requires c == 0x2300_0001
    ensures Denoted(c) == (1, 256) && TargetOf(c) == 1 != Shl(Denoted(c).0, Denoted(c).1)
  {
    FormParts(c, 35, 1);
    FitsIsBelow(1, 256);
    PowMono(2, 1, 256);
    assert Pow(2, 1) == 2;
    LowSmall(1, 256);
    NotOne(256);
  }

  lemma FormParts(c: nat, e: nat, m: nat)
    requires c == 0x100_0000 * e + m && m < 0x100_0000
    ensures Shr(c, 24) == e && Low(c, 24) == m
  {
    Pow2To24();
    ShlIsMul(e, 24);
    FitsIsBelow(m, 24);
    JoinAt(e, m, 24);
  }

  lemma NotOne(n: nat)
    requires n > 0
    ensures Shl(1, n) != 1
  {
  }

  /** Bounds on the parts of an encoded number: the sign bit stays clear. */
  lemma PartsFit(t: nat)
    requires Fits(t, 256)
    ensures SizeOf(t) <= 33 && Fits(MantissaOf(t), 23) && Fits(MantissaOf(t), 24)
    ensures t > 0 ==> BitLen(t) > LostBits(t)
  {
    BitLenFits(t, 256);
    LowZero(24);
    LowZero(23);
    if t == 0 {
      LowZero(8 * 3);
    } else {
      if SizeOf(t) <= 3 {
        BitLenShl(t, 8 * (3 - SizeOf(t)));
      } else {
        BitLenShr(t, LostBits(t));
      }
      BitLenFits(MantissaOf(t), 23);
      FitsMore(MantissaOf(t), 23, 24);
    }
  }

  lemma SplitCompact(t: nat)
    requires Fits(t, 256)
    ensures Shr(CompactOf(t), 24) == SizeOf(t) && Low(CompactOf(t), 24) == MantissaOf(t)
  {
    PartsFit(t);
    SplitForm(CompactOf(t), SizeOf(t), MantissaOf(t));
  }

  lemma SplitForm(c: nat, size: nat, mantissa: nat)
    requires c == Shl(size, 24) + mantissa && Fits(mantissa, 24)
    ensures Shr(c, 24) == size && Low(c, 24) == mantissa
  {
    JoinAt(size, mantissa, 24);
  }

  lemma DecodeParts(c: nat, t: nat)
    requires Fits(t, 256) && Shr(c, 24) == SizeOf(t) && Low(c, 24) == MantissaOf(t)
    ensures Denoted(c) == (Shr(t, LostBits(t)), LostBits(t))
  {
    var e := SizeOf(t);
    if e <= 3 {
      ShrShl(t, 8 * (3 - e), 8 * (3 - e));
    }
  }

  /** Decoding an encoded number clears the bits below one unit of its mantissa, and nothing else. */
  lemma DecodeEncode(t: nat)
    requires Fits(t, 256)
    ensures TargetOf(CompactOf(t)) == Truncated(t)
  {
    var c := CompactOf(t);
    SplitCompact(t);
    DecodeParts(c, t);
    SmallMantissa(t);
    TruncatedBelow(t);
    TargetIsDenotedIff(c);
  }

  lemma SmallMantissa(t: nat)
    requires Fits(t, 256)
    ensures Shr(t, LostBits(t)) <= 0x7F_FFFF
  {
    PartsFit(t);
    Pow2To24();
    FitsIsBelow(MantissaOf(t), 23);
    if SizeOf(t) <= 3 {
      BitLenFits(t, 23);
      FitsIsBelow(t, 23);
    }
  }

  /** The round trip never increases a number and loses less than one unit of its mantissa. */
  lemma TruncatedBelow(t: nat)
    ensures Truncated(t) <= t < Truncated(t) + Pow(2, LostBits(t))
    ensures t - Truncated(t) == Low(t, LostBits(t))
    ensures Fits(t, 256) ==> Fits(Truncated(t), 256)
  {
    SplitAt(t, LostBits(t));
    LowSmall(t, LostBits(t));
    FitsIsBelow(Low(t, LostBits(t)), LostBits(t));
    if Fits(t, 256) {
      Fits256(t);
      Fits256(Truncated(t));
    }
  }

  /** Clearing the lost bits keeps size and mantissa, so encoding again changes nothing. */
  lemma EncodeDecodeEncode(t: nat)
    requires Fits(t, 256)
    ensures BitLen(Truncated(t)) == BitLen(t)
    ensures CompactOf(TargetOf(CompactOf(t))) == CompactOf(t)
  {
    DecodeEncode(t);
    PartsFit(t);
    ClearedLength(t, LostBits(t));
    SameSize(t, Truncated(t));
    SameEncoding(t, Truncated(t));
  }

  /** Clearing low bits keeps the length as long as a higher bit is set. */
  lemma ClearedLength(t: nat, k: nat)
    requires t > 0 ==> BitLen(t) > k
    ensures BitLen(Shl(Shr(t, k), k)) == BitLen(t)
    ensures Shr(Shl(Shr(t, k), k), k) == Shr(t, k)
  {
    ShlAlone(Shr(t, k), k);
    if t > 0 {
      BitLenShr(t, k);
      BitLenShl(Shr(t, k), k);
    } else {
      ZeroShifts(t, k);
      ZeroShifts(Shr(t, k), k);
    }
  }

  lemma SameSize(t: nat, u: nat)
    requires BitLen(t) == BitLen(u)
    ensures SizeOf(t) == SizeOf(u)
  {
  }

  lemma SameEncoding(t: nat, u: nat)
    requires SizeOf(t) == SizeOf(u) && Shr(u, LostBits(t)) == Shr(t, LostBits(t))
    ensures CompactOf(u) == CompactOf(t)
  {
    if SizeOf(t) <= 3 {
      assert u == t;
    }
  }

  /** Encodings compare as the numbers do. */
  lemma CompactMonotone(t: nat, u: nat)
    requires t <= u && Fits(u, 256)
    ensures CompactOf(t) <= CompactOf(u)
  {
    SmallerFits(t, u);
    PartsFit(t);
    PartsFit(u);
    SizeMonotone(t, u);
    if SizeOf(t) == SizeOf(u) {
      MantissaMonotone(t, u);
    } else {
      JoinBelow(SizeOf(t), MantissaOf(t), SizeOf(u), 24);
    }
  }

  lemma SizeMonotone(t: nat, u: nat)
    requires t <= u
    ensures SizeOf(t) <= SizeOf(u)
  {
    BitLenMono(t, u);
  }

  lemma MantissaMonotone(t: nat, u: nat)
    requires t <= u && SizeOf(t) == SizeOf(u)
    ensures MantissaOf(t) <= MantissaOf(u)
  {
    if SizeOf(u) <= 3 {
      ShlMono(t, u, 8 * (3 - SizeOf(u)));
    } else {
      ShrMono(t, u, LostBits(u));
    }
  }

  lemma SmallerFits(t: nat, u: nat)
    requires t <= u && Fits(u, 256)
    ensures Fits(t, 256)
  {
    Fits256(t);
    Fits256(u);
  }

  /** Truncation compares as the numbers do. */
  lemma TruncatedMonotone(t: nat, u: nat)
    requires t <= u && Fits(u, 256)
    ensures Truncated(t) <= Truncated(u)
  {
    SmallerFits(t, u);
    BitLenMono(t, u);
    if BitLen(t) == BitLen(u) {
      if t > 0 {
        ShrMono(t, u, LostBits(u));
        ShlMono(Shr(t, LostBits(u)), Shr(u, LostBits(u)), LostBits(u));
      }
    } else {
      EncodeDecodeEncode(t);
      EncodeDecodeEncode(u);
      BitLenOrder(Truncated(t), Truncated(u));
    }
  }

  /** Encoding: aligns the top three bytes and makes room when they would look negative. */
  method ToCompactLossy(t: U256) returns (c: U32)
    ensures c == CompactOf(t.Value())
  {
    Fits256(t.Value());
    var bits := BitCount(t);
    var size := (bits + 7) / 8;
    var compact: nat;
    ValueIsJoin(t);
    if size <= 3 {
      LowLow(t.Value(), 128, 64);
      compact := Low(Shl(Low(t.lo, 64), 8 * (3 - size)), 32);
      AlignedSmall(t.Value(), size);
    } else {
      var bn := WrappingShr(t, 8 * (size - 3));
      ValueIsJoin(bn);
      LowLow(bn.Value(), 128, 32);
      compact := Low(bn.lo, 32);
      AlignedLarge(t.Value(), size);
    }
    var signed := And(compact, 0x80_0000) != 0;
    AlignedFits(t.Value(), size);
    TopBit(compact);
    SignBit(t.Value(), size, compact, signed);
    if signed {
      compact := Shr(compact, 8);
      size := size + 1;
    }
    Assemble(t.Value(), size, compact);
    c := Or(compact, Shl(size, 24));
  }

  /** The number aligned to `size` whole bytes, three of which are kept. */
  function AlignedTo(t: nat, size: nat): nat {
    if size <= 3 then Shl(t, 8 * (3 - size)) else Shr(t, 8 * (size - 3))
  }

  lemma AlignedFits(t: nat, size: nat)
    requires size == (BitLen(t) + 7) / 8
    ensures Fits(AlignedTo(t, size), 24)
    ensures t > 0 ==> BitLen(AlignedTo(t, size)) == BitLen(t) + 24 - 8 * size
  {
    if t == 0 {
      ZeroShifts(t, 8 * (3 - size));
      ZeroShifts(AlignedTo(t, size), 24);
    } else {
      AlignedLength(t, size);
      BitLenFits(AlignedTo(t, size), 24);
    }
  }

  lemma AlignedLength(t: nat, size: nat)
    requires t > 0 && size == (BitLen(t) + 7) / 8
    ensures BitLen(AlignedTo(t, size)) == BitLen(t) + 24 - 8 * size
  {
    AlignedLengthFor(t, size, BitLen(t));
  }

  lemma AlignedLengthFor(t: nat, size: nat, n: nat)
    requires t > 0 && n == BitLen(t) && n <= 8 * size < n + 8
    ensures BitLen(AlignedTo(t, size)) == n + 24 - 8 * size
  {
    if size <= 3 {
      BitLenShl(t, 8 * (3 - size));
    } else {
      BitLenShr(t, 8 * (size - 3));
    }
  }

  lemma AlignedSmall(t: nat, size: nat)
    requires size == (BitLen(t) + 7) / 8 && size <= 3
    ensures Low(Shl(Low(t, 64), 8 * (3 - size)), 32) == AlignedTo(t, size)
  {
    BitLenFits(t, 64);
    LowSmall(t, 64);
    AlignedFits(t, size);
    FitsMore(AlignedTo(t, size), 24, 32);
    LowSmall(AlignedTo(t, size), 32);
  }

  lemma AlignedLarge(t: nat, size: nat)
    requires size == (BitLen(t) + 7) / 8 && 3 < size <= 32
    ensures Low(Shr(t, 8 * (size - 3) % 256), 32) == AlignedTo(t, size)
  {
    SmallMod(8 * (size - 3), 256);
    AlignedFits(t, size);
    FitsMore(AlignedTo(t, size), 24, 32);
    LowSmall(AlignedTo(t, size), 32);
  }

  /** The sign bit shows exactly when the number fills its top byte; then one byte is given up. */
  lemma SignBit(t: nat, size: nat, compact: nat, signed: bool)
    requires size == (BitLen(t) + 7) / 8 && compact == AlignedTo(t, size)
    requires signed <==> BitLen(compact) == 24
    ensures signed <==> t > 0 && BitLen(t) % 8 == 0
    ensures signed ==> size + 1 == SizeOf(t) && Shr(compact, 8) == MantissaOf(t)
    ensures !signed ==> size == SizeOf(t) && compact == MantissaOf(t)
  {
    AlignedFits(t, size);
    if t > 0 && BitLen(t) % 8 == 0 {
      FullTopByte(t, size);
    } else {
      OpenTopByte(t, size);
      if t == 0 {
        LowZero(24);
      }
    }
  }

  lemma OpenTopByte(t: nat, size: nat)
    requires (t == 0 || BitLen(t) % 8 != 0) && size == (BitLen(t) + 7) / 8
    ensures size == SizeOf(t) && AlignedTo(t, size) == MantissaOf(t)
  {
    OpenSize(t, size);
  }

  lemma OpenSize(t: nat, size: nat)
    requires (t == 0 || BitLen(t) % 8 != 0) && size == (BitLen(t) + 7) / 8
    ensures size == SizeOf(t)
  {
  }

  lemma FullTopByte(t: nat, size: nat)
    requires t > 0 && BitLen(t) % 8 == 0 && size == (BitLen(t) + 7) / 8
    ensures size + 1 == SizeOf(t) && Shr(AlignedTo(t, size), 8) == MantissaOf(t)
  {
    FullSize(t, size);
    OneByteLess(t, size);
  }

  lemma FullSize(t: nat, size: nat)
    requires t > 0 && BitLen(t) % 8 == 0 && size == (BitLen(t) + 7) / 8
    ensures SizeOf(t) == size + 1
  {
  }

  lemma OneByteLess(t: nat, size: nat)
    requires SizeOf(t) == size + 1
    ensures Shr(AlignedTo(t, size), 8) == MantissaOf(t)
  {
    if size <= 3 {
      ShrShl(t, 8 * (3 - size), 8);
    } else {
      ShrShr(t, 8 * (size - 3), 8);
    }
  }

  lemma TopBit(a: nat)
    requires Fits(a, 24)
    ensures And(a, 0x80_0000) != 0 <==> BitLen(a) == 24
  {
    Pow2To24();
    ShlIsMul(1, 23);
    AndBit(a, 23);
    ShrFits(a, 1, 23);
    BitLenFits(a, 24);
    BitLenShr(a, 23);
    assert Fits(Shr(a, 23), 1);
    LowZero(23);
    ShlMono(0, Shr(a, 23) % 2, 23);
  }

  lemma Assemble(t: nat, size: nat, compact: nat)
    requires Fits(t, 256) && size == SizeOf(t) && compact == MantissaOf(t)
    ensures Or(compact, Shl(size, 24)) == CompactOf(t) < TWO_32
  {
    PartsFit(t);
    ShlAlone(size, 24);
    OrDisjoint(Shl(size, 24), compact, 24);
    OrSymmetric(compact, Shl(size, 24));
    JoinBelow(size, compact, 34, 24);
    Pow2To24();
    ShlIsMul(34, 24);
  }
}
