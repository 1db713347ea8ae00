/** 32-bit words and the logical functions of SHA-256, in two equivalent forms. */
module Words {
  import opened Arith
  import opened Bits

  type Word = U32

  lemma Fits32(x: nat)
    ensures Fits(x, 32) <==> x < TWO_32
  {
    FitsIsBelow(x, 32);
    Pow2To32();
  }

  lemma Pow2To32()
    ensures Pow(2, 32) == TWO_32
  {
    Pow2To8();
    PowAdd(2, 8, 8);
    PowAdd(2, 16, 16);
  }

  /** Bitwise exclusive or. */
  function Xor(a: nat, b: nat): nat
    decreases a + b
  {
    if a == 0 && b == 0 then 0
    else 2 * Xor(a / 2, b / 2) + (if a % 2 != b % 2 then 1 else 0)
  }

  /** The complement of `n` bits. */
  function Flip(x: nat, n: nat): nat {
    if n == 0 then 0 else 2 * Flip(x / 2, n - 1) + 1 - x % 2
  }

  lemma {:induction false} XorFits(a: nat, b: nat, n: nat)
    requires Fits(a, n) && Fits(b, n)
    ensures Fits(Xor(a, b), n)
    decreases n
  {
    if n > 0 {
      XorFits(a / 2, b / 2, n - 1);
    }
  }

  lemma {:induction false} OrFits(a: nat, b: nat, n: nat)
    requires Fits(a, n) && Fits(b, n)
    ensures Fits(Or(a, b), n)
    decreases n
  {
    if n > 0 {
      OrFits(a / 2, b / 2, n - 1);
    }
  }

  lemma {:induction false} AndFits(a: nat, b: nat, n: nat)
    requires Fits(a, n)
    ensures Fits(And(a, b), n)
    decreases n
  {
    if n > 0 {
      AndFits(a / 2, b / 2, n - 1);
    }
  }

  lemma {:induction false} FlipFits(x: nat, n: nat)
    ensures Fits(Flip(x, n), n)
    decreases n
  {
    if n > 0 {
      FlipFits(x / 2, n - 1);
    }
  }

  /** Both forms of the choice function pick the bits of `y` where `x` is set, else those of `z`. */
  lemma {:induction false} ChoiceForms(x: nat, y: nat, z: nat, n: nat)
    requires Fits(x, n) && Fits(y, n) && Fits(z, n)
    ensures Xor(z, And(x, Xor(y, z))) == Xor(And(x, y), And(Flip(x, n), z))
    decreases n
  {
    if n > 0 {
      ChoiceForms(x / 2, y / 2, z / 2, n - 1);
      AndBits(x, Xor(y, z));
      XorBits(y, z);
      AndBits(x, y);
      AndBits(Flip(x, n), z);
      XorBits(z, And(x, Xor(y, z)));
      XorBits(And(x, y), And(Flip(x, n), z));
    }
  }

  /** The lowest bit of a conjunction and the rest. */
  lemma AndBits(a: nat, b: nat)
    ensures And(a, b) / 2 == And(a / 2, b / 2)
    ensures And(a, b) % 2 == if a % 2 == 1 && b % 2 == 1 then 1 else 0
  {
  }

  lemma XorBits(a: nat, b: nat)
    ensures Xor(a, b) / 2 == Xor(a / 2, b / 2)
    ensures Xor(a, b) % 2 == if a % 2 != b % 2 then 1 else 0
  {
  }

  lemma OrBits(a: nat, b: nat)
    ensures Or(a, b) / 2 == Or(a / 2, b / 2)
    ensures Or(a, b) % 2 == if a % 2 == 1 || b % 2 == 1 then 1 else 0
  {
  }

  /** Bit `k` of a bitwise operation is the operation on bits `k`. */
  lemma {:induction false} BitAt(a: nat, b: nat, k: nat)
    ensures Bit(And(a, b), k) <==> Bit(a, k) && Bit(b, k)
    ensures Bit(Or(a, b), k) <==> Bit(a, k) || Bit(b, k)
    ensures Bit(Xor(a, b), k) <==> Bit(a, k) != Bit(b, k)
    decreases k
  {
    AndBits(a, b);
    OrBits(a, b);
    XorBits(a, b);
    if k > 0 {
      BitAt(a / 2, b / 2, k - 1);
    }
  }

  predicate Bit(x: nat, k: nat) {
    Shr(x, k) % 2 == 1
  }

  lemma {:induction false} FlipBitAt(x: nat, n: nat, k: nat)
    ensures Bit(Flip(x, n), k) <==> k < n && !Bit(x, k)
    decreases k
  {
    if n == 0 {
      LowZero(k);
    } else if k > 0 {
      assert Flip(x, n) / 2 == Flip(x / 2, n - 1);
      FlipBitAt(x / 2, n - 1, k - 1);
    }
  }

  /** Both forms of the majority function set a bit where at least two operands have it. */
  lemma {:induction false} MajorityForms(x: nat, y: nat, z: nat)
    ensures Or(And(x, y), And(z, Or(x, y))) == Xor(Xor(And(x, y), And(x, z)), And(y, z))
    decreases x + y + z
  {
    if x > 0 || y > 0 || z > 0 {
      MajorityForms(x / 2, y / 2, z / 2);
      OrBits(x, y);
      AndBits(x, y);
      AndBits(x, z);
      AndBits(y, z);
      AndBits(z, Or(x, y));
      OrBits(And(x, y), And(z, Or(x, y)));
      XorBits(And(x, y), And(x, z));
      XorBits(Xor(And(x, y), And(x, z)), And(y, z));
    }
  }

  /** Addition modulo 2^32. */
  function Plus(x: Word, y: Word): Word { (x + y) % TWO_32 }

  function WordAnd(x: Word, y: Word): Word {
    Fits32(x);
    AndFits(x, y, 32);
    Fits32(And(x, y));
    And(x, y)
  }

  function WordOr(x: Word, y: Word): Word {
    Fits32(x);
    Fits32(y);
    OrFits(x, y, 32);
    Fits32(Or(x, y));
    Or(x, y)
  }

  function WordXor(x: Word, y: Word): Word {
    Fits32(x);
    Fits32(y);
    XorFits(x, y, 32);
    Fits32(Xor(x, y));
    Xor(x, y)
  }

  function WordNot(x: Word): Word {
    FlipFits(x, 32);
    Fits32(Flip(x, 32));
    Flip(x, 32)
  }

  function ShiftRight(x: Word, n: nat): Word {
    ShrSmaller(x, n);
    Shr(x, n)
  }

  /** Left shift; bits pushed out at the top are lost. */
  function ShiftLeft(x: Word, n: nat): Word {
    LowSmall(Shl(x, n), 32);
    Fits32(Low(Shl(x, n), 32));
    Low(Shl(x, n), 32)
  }

  function RotateLeft(x: Word, n: nat): Word
    requires n <= 32
  {
    WordOr(ShiftLeft(x, n), ShiftRight(x, 32 - n))
  }

  // The functions of sections 3.2 and 4.1.2 of FIPS 180-4.

  function Rotr(x: Word, n: nat): Word
    requires n <= 32
  {
    WordOr(ShiftRight(x, n), ShiftLeft(x, 32 - n))
  }

  /** What the bitwise word operations do to each bit. */
  lemma WordBits(x: Word, y: Word, k: nat)
    ensures Bit(WordAnd(x, y), k) <==> Bit(x, k) && Bit(y, k)
    ensures Bit(WordOr(x, y), k) <==> Bit(x, k) || Bit(y, k)
    ensures Bit(WordXor(x, y), k) <==> Bit(x, k) != Bit(y, k)
    ensures Bit(WordNot(x), k) <==> k < 32 && !Bit(x, k)
  {
    BitAt(x, y, k);
    FlipBitAt(x, 32, k);
  }

  /** A right shift divides, and a sum loses at most one multiple of 2^32. */
  lemma ShiftAndSum(x: Word, y: Word, k: nat)
    ensures ShiftRight(x, k) == x / Pow(2, k)
    ensures Plus(x, y) == if x + y < TWO_32 then x + y else x + y - TWO_32
  {
    ShrIsDiv(x, k);
    PlusIsSum(x, y);
  }

  lemma PlusIsSum(x: Word, y: Word)
    ensures Plus(x, y) == if x + y < TWO_32 then x + y else x + y - TWO_32
  {
  }

  /** A rotation as a number: the low bits move on top of the others. */
  lemma RotrIsSum(x: Word, n: nat)
    requires n <= 32
    ensures Rotr(x, n) == x / Pow(2, n) + x % Pow(2, n) * Pow(2, 32 - n)
  {
    Fits32(x);
    RotatedSum(x, n, 32);
    ShrIsDiv(x, n);
    ShlIsMul(Low(x, n), 32 - n);
  }

  lemma RotatedSum(x: nat, n: nat, w: nat)
    requires n <= w && Fits(x, w)
    ensures Or(Shr(x, n), Low(Shl(x, w - n), w)) == Shr(x, n) + Shl(Low(x, n), w - n)
  {
    LowShl(x, w - n, w);
    ShrFits(x, w - n, n);
    ShlAlone(Low(x, n), w - n);
    OrDisjoint(Shl(Low(x, n), w - n), Shr(x, n), w - n);
    OrSymmetric(Shr(x, n), Shl(Low(x, n), w - n));
  }

  function Choose(x: Word, y: Word, z: Word): Word {
    WordXor(WordAnd(x, y), WordAnd(WordNot(x), z))
  }

  function Majority(x: Word, y: Word, z: Word): Word {
    WordXor(WordXor(WordAnd(x, y), WordAnd(x, z)), WordAnd(y, z))
  }

  function BigSigma0(x: Word): Word { WordXor(WordXor(Rotr(x, 2), Rotr(x, 13)), Rotr(x, 22)) }

  function BigSigma1(x: Word): Word { WordXor(WordXor(Rotr(x, 6), Rotr(x, 11)), Rotr(x, 25)) }

  function SmallSigma0(x: Word): Word { WordXor(WordXor(Rotr(x, 7), Rotr(x, 18)), ShiftRight(x, 3)) }

  function SmallSigma1(x: Word): Word { WordXor(WordXor(Rotr(x, 17), Rotr(x, 19)), ShiftRight(x, 10)) }

  // The same functions as the program computes them.

  lemma LeftIsRight(x: Word, n: nat)
    requires n <= 32
    ensures RotateLeft(x, n) == Rotr(x, 32 - n)
  {
    OrSymmetric(ShiftLeft(x, n), ShiftRight(x, 32 - n));
  }

  function Ch(x: Word, y: Word, z: Word): (r: Word)
    ensures r == Choose(x, y, z)
  {
    Fits32(x);
    Fits32(y);
    Fits32(z);
    ChoiceForms(x, y, z, 32);
    WordXor(z, WordAnd(x, WordXor(y, z)))
  }

  function Maj(x: Word, y: Word, z: Word): (r: Word)
    ensures r == Majority(x, y, z)
  {
    MajorityForms(x, y, z);
    WordOr(WordAnd(x, y), WordAnd(z, WordOr(x, y)))
  }

  function Sigma0(x: Word): (r: Word)
    ensures r == BigSigma0(x)
  {
    LeftIsRight(x, 30);
    LeftIsRight(x, 19);
    LeftIsRight(x, 10);
    WordXor(WordXor(RotateLeft(x, 30), RotateLeft(x, 19)), RotateLeft(x, 10))
  }

  function Sigma1(x: Word): (r: Word)
    ensures r == BigSigma1(x)
  {
    LeftIsRight(x, 26);
    LeftIsRight(x, 21);
    LeftIsRight(x, 7);
    WordXor(WordXor(RotateLeft(x, 26), RotateLeft(x, 21)), RotateLeft(x, 7))
  }

  function LowerSigma0(x: Word): (r: Word)
    ensures r == SmallSigma0(x)
  {
    LeftIsRight(x, 25);
    LeftIsRight(x, 14);
    WordXor(WordXor(RotateLeft(x, 25), RotateLeft(x, 14)), ShiftRight(x, 3))
  }

  function LowerSigma1(x: Word): (r: Word)
    ensures r == SmallSigma1(x)
  {
    LeftIsRight(x, 15);
    LeftIsRight(x, 13);
    WordXor(WordXor(RotateLeft(x, 15), RotateLeft(x, 13)), ShiftRight(x, 10))
  }

  /** Wrapped sums may be added in any order. */
  lemma PlusReorder(a: Word, b: Word, c: Word, d: Word)
    ensures Plus(Plus(Plus(d, a), b), c) == Plus(Plus(Plus(a, b), c), d)
  {
    PlusAll(d, a, b, c);
    PlusAll(a, b, c, d);
  }

  lemma PlusAll(a: Word, b: Word, c: Word, d: Word)
    ensures Plus(Plus(Plus(a, b), c), d) == (a + b + c + d) % TWO_32
  {
    PlusOnce(a, b, c);
    PlusOnce(a + b, c, d);
  }

  lemma PlusOnce(x: nat, y: nat, z: nat)
    ensures ((x + y) % TWO_32 + z) % TWO_32 == (x + y + z) % TWO_32
  {
    ModAddLeft(x + y, z, TWO_32);
  }
}
