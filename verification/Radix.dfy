/** Positional numerals in any base: values, canonical forms, and why 11/15 of a length suffices. */
module Radix {
  import opened Arith

  /** Digits of a base. */
  ghost predicate InBase(s: seq<nat>, base: nat) {
    forall i :: 0 <= i < |s| ==> s[i] < base
  }

  /** The number digits spell, most significant first. */
  function Value(s: seq<nat>, base: nat): nat {
    if s == [] then 0 else base * Value(s[..|s| - 1], base) + s[|s| - 1]
  }

  lemma ValuePush(s: seq<nat>, d: nat, base: nat)
    ensures Value(s + [d], base) == base * Value(s, base) + d
  {
    assert (s + [d])[..|s|] == s;
  }

  lemma {:induction false} ValueCons(d: nat, s: seq<nat>, base: nat)
    ensures Value([d] + s, base) == d * Pow(base, |s|) + Value(s, base)
    decreases |s|
  {
    if s == [] {
      assert [d] + s == [] + [d];
      ValuePush([], d, base);
      assert d * 1 == d;
    } else {
      var t := s[..|s| - 1];
      ValueCons(d, t, base);
      assert ([d] + s)[..|s|] == [d] + t;
      Distribute(base, Value(t, base), d, Pow(base, |t|));
    }
  }

  lemma {:induction false} ValueBound(s: seq<nat>, base: nat)
    requires base > 0 && InBase(s, base)
    ensures Value(s, base) < Pow(base, |s|)
    decreases |s|
  {
    if s != [] {
      var t := s[..|s| - 1];
      ValueBound(t, base);
      HornerBound(Value(t, base), Pow(base, |t|), s[|s| - 1], base);
    }
  }

  lemma HornerBound(v: nat, p: nat, d: nat, base: nat)
    requires v < p && d < base
    ensures base * v + d < base * p
  {
    MulMono(v + 1, p, base);
  }

  /** The number digits spell, least significant first. */
  function ValueLE(s: seq<nat>, base: nat): nat {
    if s == [] then 0 else s[0] + base * ValueLE(s[1..], base)
  }

  lemma {:induction false} ValueLEPush(s: seq<nat>, d: nat, base: nat)
    ensures ValueLE(s + [d], base) == ValueLE(s, base) + d * Pow(base, |s|)
  {
    if s == [] {
      assert s + [d] == [d];
      assert d * 1 == d;
    } else {
      ValueLEPush(s[1..], d, base);
      assert (s + [d])[1..] == s[1..] + [d];
      Distribute(base, ValueLE(s[1..], base), d, Pow(base, |s| - 1));
    }
  }

  lemma Distribute(base: nat, v: nat, d: nat, p: nat)
    ensures base * (v + d * p) == base * v + d * (base * p)
  {
    assert base * (d * p) == d * (base * p);
  }

  lemma {:induction false} ValueLEBound(s: seq<nat>, base: nat)
    requires InBase(s, base) && base > 0
    ensures ValueLE(s, base) < Pow(base, |s|)
  {
    if s != [] {
      ValueLEBound(s[1..], base);
      HornerBound(ValueLE(s[1..], base), Pow(base, |s| - 1), s[0], base);
    }
  }

  lemma {:induction false} ValueLEConcat(s: seq<nat>, t: seq<nat>, base: nat)
    ensures ValueLE(s + t, base) == ValueLE(s, base) + ValueLE(t, base) * Pow(base, |s|)
    decreases |s|
  {
    if s == [] {
      assert s + t == t;
      assert ValueLE(t, base) * 1 == ValueLE(t, base);
    } else {
      ValueLEConcat(s[1..], t, base);
      assert (s + t)[1..] == s[1..] + t;
      Distribute(base, ValueLE(s[1..], base), ValueLE(t, base), Pow(base, |s| - 1));
    }
  }

  /** How many zeros a sequence starts with. */
  function LeadingZeros(s: seq<nat>): (n: nat)
    ensures n <= |s| && (n < |s| ==> s[n] != 0)
    ensures forall i :: 0 <= i < n ==> s[i] == 0
  {
    if s == [] || s[0] != 0 then 0 else 1 + LeadingZeros(s[1..])
  }

  function Zeros(n: nat): (s: seq<Byte>)
    ensures |s| == n && forall i :: 0 <= i < n ==> s[i] == 0
  {
    seq(n, _ => 0)
  }

  /** Leading zeros do not count. */
  lemma {:induction false} ValueOfPadded(n: nat, s: seq<nat>, base: nat)
    ensures Value(Zeros(n) + s, base) == Value(s, base)
    decreases n
  {
    if n == 0 {
      assert Zeros(0) + s == s;
    } else {
      ValueOfPadded(n - 1, s, base);
      ValueCons(0, Zeros(n - 1) + s, base);
      assert Zeros(n) + s == [0] + (Zeros(n - 1) + s);
      assert 0 * Pow(base, |Zeros(n - 1) + s|) == 0;
    }
  }

  lemma {:induction false} LeadingZerosOfPadded(n: nat, s: seq<nat>)
    requires s == [] || s[0] != 0
    ensures LeadingZeros(Zeros(n) + s) == n
    decreases n
  {
    if n == 0 {
      assert Zeros(0) + s == s;
    } else {
      LeadingZerosOfPadded(n - 1, s);
      OneMoreZero(Zeros(n) + s, Zeros(n - 1) + s);
    }
  }

  lemma OneMoreZero(s: seq<nat>, t: seq<nat>)
    requires s == [0] + t
    ensures LeadingZeros(s) == 1 + LeadingZeros(t)
  {
    assert s[1..] == t;
  }

  lemma SplitZeros(s: seq<nat>)
    ensures s == Zeros(LeadingZeros(s)) + s[LeadingZeros(s)..]
  {
  }

  lemma {:induction false} PositiveValue(s: seq<nat>, base: nat)
    requires base > 0 && s != [] && s[0] != 0
    ensures Value(s, base) > 0
    decreases |s|
  {
    if |s| > 1 {
      PositiveValue(s[..|s| - 1], base);
      MulMono(1, Value(s[..|s| - 1], base), base);
    }
  }

  /** Digits without a leading zero are determined by their value. */
  lemma {:induction false} CanonicalUnique(a: seq<nat>, b: seq<nat>, base: nat)
    requires base > 1 && InBase(a, base) && InBase(b, base)
    requires (a == [] || a[0] != 0) && (b == [] || b[0] != 0)
    requires Value(a, base) == Value(b, base)
    ensures a == b
    decreases |a|
  {
    if a == [] {
      if b != [] {
        PositiveValue(b, base);
      }
    } else if b == [] {
      PositiveValue(a, base);
    } else {
      LastDigits(a, b, base);
      CanonicalUnique(a[..|a| - 1], b[..|b| - 1], base);
      assert a == a[..|a| - 1] + [a[|a| - 1]] && b == b[..|b| - 1] + [b[|b| - 1]];
    }
  }

  /** Equal numbers have the same last digit and the same number above it. */
  lemma LastDigits(a: seq<nat>, b: seq<nat>, base: nat)
    requires base > 1 && InBase(a, base) && InBase(b, base) && a != [] && b != []
    requires Value(a, base) == Value(b, base)
    ensures a[|a| - 1] == b[|b| - 1] && Value(a[..|a| - 1], base) == Value(b[..|b| - 1], base)
  {
    SameDigits(Value(a[..|a| - 1], base), a[|a| - 1], Value(b[..|b| - 1], base), b[|b| - 1], base);
  }

  lemma SameDigits(q: nat, d: nat, r: nat, e: nat, base: nat)
    requires d < base && e < base && base * q + d == base * r + e
    ensures q == r && d == e
  {
    DivModUnique(base * q + d, base, q, d);
    DivModUnique(base * q + d, base, r, e);
  }

  /** Value and number of leading zeros determine the digits. */
  lemma DigitsUnique(a: seq<nat>, b: seq<nat>, base: nat)
    requires base > 1 && InBase(a, base) && InBase(b, base)
    requires LeadingZeros(a) == LeadingZeros(b) && Value(a, base) == Value(b, base)
    ensures a == b
  {
    var n := LeadingZeros(a);
    SplitZeros(a);
    SplitZeros(b);
    ValueOfPadded(n, a[n..], base);
    ValueOfPadded(n, b[n..], base);
    CanonicalUnique(a[n..], b[n..], base);
  }

  /** Fifteen base-58 digits fit into eleven bytes. */
  lemma FifteenInEleven()
    ensures Pow(58, 15) <= Pow(256, 11)
  {
    assert Pow(58, 5) == 656356768;
    PowAdd(58, 5, 5);
    PowAdd(58, 10, 5);
    assert Pow(256, 4) == 4294967296;
    assert Pow(256, 3) == 16777216;
    PowAdd(256, 4, 4);
    PowAdd(256, 8, 3);
  }

  lemma {:induction false} PowStrictBase(a: nat, b: nat, n: nat)
    requires a < b && n > 0
    ensures Pow(a, n) < Pow(b, n)
    decreases n
  {
    if n > 1 {
      PowStrictBase(a, b, n - 1);
      MulMono(a, b, Pow(a, n - 1));
      MulLt(Pow(a, n - 1), Pow(b, n - 1), b);
    }
  }

  /** If `m` digits of one base fit `n` digits of another, `len` fit one more than `n / m` of `len`. */
  lemma DigitsFit(b: nat, c: nat, m: nat, n: nat, len: nat)
    requires m > 0 && c > 0 && Pow(b, m) <= Pow(c, n)
    ensures len * n / m >= 0
    ensures Pow(b, len) <= Pow(c, 1 + len * n / m)
  {
    DivNonneg(len * n, m);
    assert len * n == n * len && len * m == m * len;
    var k := 1 + len * n / m;
    if Pow(b, len) > Pow(c, k) {
      PowStrictBase(Pow(c, k), Pow(b, len), m);
      PowMul(c, k, m);
      PowMul(b, len, m);
      PowMul(b, m, len);
      PowMul(c, n, len);
      PowMonoBase(Pow(b, m), Pow(c, n), len);
      DivBelow(n * len, m, k);
      PowMono(c, n * len, k * m);
    }
  }

  /** A scratch of one plus 11/15 of the length bytes holds any base-58 number of that length. */
  lemma ScratchSuffices(len: nat)
    ensures Pow(58, len) <= Pow(256, 1 + len * 11 / 15)
  {
    FifteenInEleven();
    Scratch(58, 256, len);
  }

  lemma Scratch(b: nat, c: nat, len: nat)
    requires c > 0 && Pow(b, 15) <= Pow(c, 11)
    ensures Pow(b, len) <= Pow(c, 1 + len * 11 / 15)
  {
    DigitsFit(b, c, 15, 11, len);
  }
}
