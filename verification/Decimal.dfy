/** Canonical decimal numerals. */
module Decimal {
  import opened Arith

  predicate IsDigit(c: char) {
    '0' <= c <= '9'
  }

  function DigitChar(d: nat): (c: char)
    requires d < 10
    ensures IsDigit(c) && c as int - '0' as int == d
  {
    '0' + d as char
  }

  function DigitValue(c: char): nat
    requires IsDigit(c)
  {
    c as int - '0' as int
  }

  ghost predicate AllDigits(s: string) {
    forall i :: 0 <= i < |s| ==> IsDigit(s[i])
  }

  /** The number a string of digits spells; leading zeros are allowed. */
  function Number(s: string): nat
    requires AllDigits(s)
  {
    if s == [] then 0 else 10 * Number(s[..|s| - 1]) + DigitValue(s[|s| - 1])
  }

  /** The numeral of a number, without leading zeros. */
  function Numeral(n: nat): (s: string)
    ensures s != [] && AllDigits(s)
  {
    if n < 10 then [DigitChar(n)] else Numeral(n / 10) + [DigitChar(n % 10)]
  }

  lemma {:induction false} NumberOfNumeral(n: nat)
    ensures Number(Numeral(n)) == n
    ensures n > 0 ==> Numeral(n)[0] != '0'
  {
    if n < 10 {
      assert Numeral(n)[..0] == [];
    } else {
      NumberOfNumeral(n / 10);
      assert Numeral(n)[..|Numeral(n)| - 1] == Numeral(n / 10);
    }
  }

  lemma {:induction false} NumeralLength(n: nat, k: nat)
    requires k > 0 && n < Pow(10, k)
    ensures |Numeral(n)| <= k
  {
    assert Pow(10, 1) == 10;
    if n >= 10 {
      NumeralLength(n / 10, k - 1);
    }
  }

  /** Appending digits shifts by decimal places and adds. */
  lemma {:induction false} NumberConcat(s: string, t: string)
    requires AllDigits(s) && AllDigits(t)
    ensures AllDigits(s + t)
    ensures Number(s + t) == TimesTen(Number(s), |t|) + Number(t)
    decreases |t|
  {
    if t == [] {
      assert s + t == s;
    } else {
      var u := t[..|t| - 1];
      NumberConcat(s, u);
      NumberPush(s + u, t[|t| - 1]);
      assert s + t == s + u + [t[|t| - 1]];
    }
  }

  lemma NumberPush(s: string, c: char)
    requires AllDigits(s) && IsDigit(c)
    ensures AllDigits(s + [c]) && Number(s + [c]) == 10 * Number(s) + DigitValue(c)
  {
    assert (s + [c])[..|s|] == s;
  }

  /** A number shifted left by `k` decimal places. */
  function TimesTen(n: nat, k: nat): nat {
    if k == 0 then n else 10 * TimesTen(n, k - 1)
  }

  lemma {:induction false} TimesTenIsPow(n: nat, k: nat)
    ensures TimesTen(n, k) == n * Pow(10, k)
    decreases k
  {
    if k > 0 {
      TimesTenIsPow(n, k - 1);
      TenProduct(n, Pow(10, k - 1));
    }
  }

  lemma TenProduct(n: nat, p: nat)
    ensures n * (10 * p) == 10 * (n * p)
  {
  }

  lemma {:induction false} TimesTenGrows(n: nat, j: nat, k: nat)
    requires j <= k
    ensures TimesTen(n, j) <= TimesTen(n, k)
    decreases k
  {
    if j < k {
      TimesTenGrows(n, j, k - 1);
    }
  }

  /** Shifting a sum shifts its parts. */
  lemma {:induction false} TimesTenSum(a: nat, b: nat, k: nat)
    ensures TimesTen(a + b, k) == TimesTen(a, k) + TimesTen(b, k)
    decreases k
  {
    if k > 0 {
      TimesTenSum(a, b, k - 1);
    }
  }

  /** Shifting twice shifts by the sum. */
  lemma {:induction false} TimesTenTwice(n: nat, j: nat, k: nat)
    ensures TimesTen(TimesTen(n, j), k) == TimesTen(n, j + k)
    decreases k
  {
    if k > 0 {
      TimesTenTwice(n, j, k - 1);
    }
  }

  lemma {:induction false} TimesTenOfZero(k: nat)
    ensures TimesTen(0, k) == 0
  {
    if k > 0 {
      TimesTenOfZero(k - 1);
    }
  }
}

/** Decimal printing of 256-bit integers into a buffer of 78 digits. */
module FormatU256 {
  import opened Arith
  import opened Uint256
  import opened Division
  import opened Decimal

  const DIGITS: nat := 78

  /** No 256-bit number has more than 78 digits. */
  lemma AtMost78(n: nat)
    requires n < TWO_256
    ensures |Numeral(n)| <= DIGITS
  {
    TenPowers(10);
    NumeralLength(n, 78);
  }

  lemma TenPowers(b: nat)
    requires b == 10
    ensures Pow(b, 78) > TWO_256
  {
    assert Pow(b, 1) == 10 by { assert Pow(b, 0) == 1; }
    PowJoin(b, 1, 1, 10, 10);
    PowJoin(b, 2, 1, 100, 10);
    PowJoin(b, 3, 3, 1000, 1000);
    PowJoin(b, 6, 6, 1000000, 1000000);
    PowJoin(b, 12, 1, 1000000000000, 10);
    PowJoin(b, 13, 13, 10000000000000, 10000000000000);
    PowJoin(b, 26, 13, 100000000000000000000000000, 10000000000000);
    PowJoin(b, 39, 39, 1000000000000000000000000000000000000000, 1000000000000000000000000000000000000000);
  }

  /** Writing the last digit of `v` leaves the numeral of `v / 10` to be written, if any. */
  lemma DigitWritten(v: nat, q: nat, r: nat, rest: string, all: string)
    requires q == v / 10 && r == v % 10 && all == Numeral(v) + rest
    ensures q == 0 ==> all == [DigitChar(r)] + rest
    ensures q > 0 ==> all == Numeral(q) + ([DigitChar(r)] + rest) && |Numeral(v)| == |Numeral(q)| + 1
  {
    if q > 0 {
      assert Numeral(v) == Numeral(q) + [DigitChar(r)];
    }
  }

  /** Writes digits from the right end of the buffer and returns the part that was filled. */
  method FmtDecimal(x: U256) returns (s: string)
    requires x.Value() != 0
    ensures s == Numeral(x.Value())
  {
    var buf := new char[DIGITS](_ => '0');
    var i, cur := DIGITS - 1, x;
    AtMost78(x.Value());
    while true
      invariant 0 <= i < DIGITS && |Numeral(cur.Value())| <= i + 1
      invariant Numeral(x.Value()) == Numeral(cur.Value()) + buf[i + 1..]
      decreases i
    {
      cur := WriteDigit(buf, i, cur, Numeral(x.Value()));
      if cur == ZERO {
        break;
      }
      i := i - 1;
    }
    s := buf[i..];
  }

  /** Writes the last digit of `cur` at place `i` and returns the number without that digit. */
  method WriteDigit(buf: array<char>, i: nat, cur: U256, ghost all: string) returns (q: U256)
    requires i < buf.Length && all == Numeral(cur.Value()) + buf[i + 1..]
    modifies buf
    ensures q == ZERO ==> all == buf[i..]
    ensures q != ZERO ==> all == Numeral(q.Value()) + buf[i..] && |Numeral(cur.Value())| == |Numeral(q.Value())| + 1
  {
    var digit;
    q, digit := LastDigit(cur);
    ghost var v, rest := q.Value(), buf[i + 1..];
    assert q == ZERO <==> v == 0;
    DigitWritten(cur.Value(), v, digit, rest, all);
    buf[i] := DigitChar(digit);
    assert buf[i..] == [DigitChar(digit)] + rest;
  }

  /** The last decimal digit, and the number without it. */
  method LastDigit(cur: U256) returns (q: U256, digit: nat)
    ensures q.Value() == cur.Value() / 10 && digit == cur.Value() % 10 < 10
  {
    var r;
    q, r := DivRem(cur, U256(0, 10));
    DivisionIsQuotient(cur.Value(), 10, q.Value(), r.Value());
    digit := r.lo;
  }
}
