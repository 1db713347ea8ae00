/** Inversion between targets and work, and the difficulty measure. */
module Work {
  import opened Arith
  import opened Uint256
  import opened Division

  /** What the inversion computes in a ring of `n` values: `n / (x + 1)`, with 0 and 1 sent to the top. */
  function InverseOf(n: nat, x: nat): nat
    requires x < n
    ensures InverseOf(n, x) < n
  {
    if x <= 1 then n - 1 else (DivNonneg(n, x + 1); InverseBound(n, x); n / (x + 1))
  }

  /** The quotient of the complement, plus one, is the quotient of the full range. */
  lemma ComplementQuotient(n: nat, x: nat, q: nat, r: nat)
    requires x < n && IsDivision(n - 1 - x, x + 1, q, r)
    ensures n / (x + 1) == q + 1
  {
    DivisionIsQuotient(n - 1 - x, x + 1, q, r);
    DivModUnique(n, x + 1, q + 1, r);
  }

  /** Both directions between target and work are this inversion. */
  method Inverse(x: U256) returns (r: U256)
    ensures r.Value() == InverseOf(TWO_256, x.Value())
  {
    if x == ZERO || x == ONE {
      return MAX;
    }
    AboveOne(x);
    if x == MAX {
      DivModUnique(TWO_256, TWO_256, 1, 0);
      return ONE;
    }
    var flipped := Not(x);
    var next := WrappingInc(x);
    SmallMod(x.Value() + 1, TWO_256);
    var q, rem := DivRem(flipped, next);
    ComplementQuotient(TWO_256, x.Value(), q.Value(), rem.Value());
    InverseBound(TWO_256, x.Value());
    r := WrappingInc(q);
    SmallMod(q.Value() + 1, TWO_256);
  }

  lemma AboveOne(x: U256)
    requires x != ZERO && x != ONE
    ensures x.Value() > 1
    ensures x != MAX ==> x.Value() + 1 < TWO_256
  {
  }

  lemma InverseBound(n: nat, x: nat)
    requires 1 < x < n
    ensures n / (x + 1) < n
  {
    DivBelow(n, x + 1, n);
    MulLt(1, x + 1, n);
  }

  /** The documented formula `n / (x + 1)` is computed exactly when the argument is at least two. */
  lemma InverseIsQuotient(n: nat, x: nat)
    requires x < n && n > 2
    ensures InverseOf(n, x) == n / (x + 1) <==> x >= 2
  {
    if x == 0 {
      assert n / 1 == n;
    } else if x == 1 {
      assert n / 2 < n - 1;
    }
  }

  /** A larger target never means more work. */
  lemma InverseAntitone(n: nat, x: nat, y: nat)
    requires x <= y < n
    ensures InverseOf(n, x) >= InverseOf(n, y)
  {
    if x <= 1 {
      if y > 1 {
        InverseBound(n, y);
      }
    } else {
      var q := n / (y + 1);
      DivBelow(n, y + 1, q + 1);
      DivBelow(n, x + 1, q);
      MulMono(x + 1, y + 1, q);
    }
  }

  /** `n / (w + 1)` gives `x` back from `w == n / (x + 1)` exactly when `x * (w + 1)` still fits. */
  lemma QuotientOfQuotient(n: nat, x: nat, w: nat)
    requires w == n / (x + 1)
    ensures n / (w + 1) == x <==> x * (w + 1) <= n
  {
    DivBelow(n, x + 1, w + 1);
    assert n < (w + 1) * (x + 1);
    DivBelow(n, w + 1, x + 1);
    DivBelow(n, w + 1, x);
  }

  /**
   Target to work to target, decided for every value: the ends of the range, and the values whose
   rounded quotient leaves room for one more.
   */
  lemma InverseTwice(n: nat, x: nat)
    requires x < n && n > 4
    ensures InverseOf(n, InverseOf(n, x)) == x <==>
              x == 1 || x == n - 1 || (x >= 2 && n / (x + 1) >= 2 && x * (n / (x + 1) + 1) <= n)
  {
    if x <= 1 {
      DivModUnique(n, n, 1, 0);
    } else {
      InverseBound(n, x);
      var w := n / (x + 1);
      QuotientOfQuotient(n, x, w);
      DivBelow(n, x + 1, 1);
      if x == n - 1 {
        DivModUnique(n, n, 1, 0);
      } else if w == 1 {
        DivBelow(n, x + 1, 2);
      }
    }
  }

  lemma RoomLeft(n: nat, m: nat, x: nat, w: nat)
    requires 1 < x < m && n == m * m && w == n / (x + 1)
    ensures w >= m && x * (w + 1) <= n
  {
    DivBelow(n, x + 1, m);
    MulMono(x + 1, m, m);
    DivBelow(n, x + 1, w);
    assert x * (w + 1) == w * (x + 1) - w + x;
  }

  /** The round trip is the identity for every target from one up to the square root of the range. */
  lemma InverseRoundTrip(x: nat)
    requires 1 <= x < TWO_128
    ensures InverseOf(TWO_256, InverseOf(TWO_256, x)) == x
  {
    InverseTwice(TWO_256, x);
    if x > 1 {
      RoomLeft(TWO_256, TWO_128, x, TWO_256 / (x + 1));
    }
  }

  /** Work above the square root does not survive: half the range inverts to one, and one to the top. */
  lemma InverseLosesLargeTargets()
    ensures InverseOf(TWO_256, InverseOf(TWO_256, TWO_256 / 2)) == TWO_256 - 1
  {
    DivModUnique(TWO_256, TWO_256 / 2 + 1, 1, TWO_256 / 2 - 1);
  }

  /** Difficulty: how many times the target goes into the maximum, saturated at 128 bits. */
  method Difficulty(max: U256, target: U256) returns (d: U128)
    requires target.Value() != 0
    ensures d == Min(max.Value() / target.Value(), MAX_128)
  {
    var q, r := DivRem(max, target);
    DivisionIsQuotient(max.Value(), target.Value(), q.Value(), r.Value());
    d := if Less(U256(0, MAX_128), q) then MAX_128 else q.lo;
    LessIsLess(U256(0, MAX_128), q);
  }
}
