/** Base58 and Base58Check: in-place radix conversion in both directions. */
module Base58 {
  import opened Arith
  import opened Results
  import opened Radix

  /** The alphabet: ASCII digits and letters, but neither zero, O, I nor l, which look like others. */
  predicate IsLetter(c: nat) {
    && ('0' as nat <= c <= '9' as nat || 'A' as nat <= c <= 'Z' as nat || 'a' as nat <= c <= 'z' as nat)
    && c != '0' as nat && c != 'O' as nat && c != 'I' as nat && c != 'l' as nat
  }

  /** How many letters of the alphabet come before a byte in ASCII: the digit a letter stands for. */
  function Rank(c: nat): nat {
    if c == 0 then 0 else Rank(c - 1) + (if IsLetter(c - 1) then 1 else 0)
  }

  /** The ranks in closed form. */
  lemma {:induction false} RankIs(c: nat)
    requires c <= 256
    ensures Rank(c) ==
            if c < 49 then 0 else if c <= 58 then c - 49
            else if c < 65 then 9 else if c <= 73 then c - 65 + 9
            else if c <= 79 then c - 74 + 17
            else if c <= 91 then c - 80 + 22
            else if c < 97 then 33 else if c <= 108 then c - 97 + 33
            else if c <= 123 then c - 109 + 44 else 58
  {
    if c > 0 {
      RankIs(c - 1);
    }
  }

  lemma RankBelow(c: Byte)
    requires IsLetter(c)
    ensures Rank(c) < 58
  {
    RankIs(c);
  }

  /** Different letters have different ranks, in their order. */
  lemma RankOrder(c: Byte, e: Byte)
    requires IsLetter(c) && IsLetter(e)
    ensures c < e <==> Rank(c) < Rank(e)
    ensures c == e <==> Rank(c) == Rank(e)
  {
    RankIs(c);
    RankIs(e);
  }

  /** The program's table: the digit of a letter, and nothing for any other byte. */
  function DigitOf(c: Byte): (r: Option<nat>)
    ensures r == if IsLetter(c) then Some(Rank(c)) else None
  {
    RankIs(c);
    if 49 <= c <= 57 then Some(c - 49)
    else if 65 <= c <= 72 then Some(c - 65 + 9)
    else if 74 <= c <= 78 then Some(c - 74 + 17)
    else if 80 <= c <= 90 then Some(c - 80 + 22)
    else if 97 <= c <= 107 then Some(c - 97 + 33)
    else if 109 <= c <= 122 then Some(c - 109 + 44)
    else None
  }

  /** The program's table of letters: letter `d` has rank `d`. */
  function CharOf(d: nat): (c: Byte)
    requires d < 58
    ensures IsLetter(c) && Rank(c) == d
  {
    CharRank(d);
    if d < 9 then 49 + d
    else if d < 17 then 65 + d - 9
    else if d < 22 then 74 + d - 17
    else if d < 33 then 80 + d - 22
    else if d < 44 then 97 + d - 33
    else 109 + d - 44
  }

  lemma CharRank(d: nat)
    requires d < 58
    ensures d < 9 ==> Rank(49 + d) == d
    ensures 9 <= d < 17 ==> Rank(65 + d - 9) == d
    ensures 17 <= d < 22 ==> Rank(74 + d - 17) == d
    ensures 22 <= d < 33 ==> Rank(80 + d - 22) == d
    ensures 33 <= d < 44 ==> Rank(97 + d - 33) == d
    ensures 44 <= d ==> Rank(109 + d - 44) == d
  {
    RankIs(if d < 9 then 49 + d else if d < 17 then 65 + d - 9 else if d < 22 then 74 + d - 17
           else if d < 33 then 80 + d - 22 else if d < 44 then 97 + d - 33 else 109 + d - 44);
  }

  /** Letters come in the order of their digits. */
  lemma AlphabetOrder(d: nat, e: nat)
    requires d < e < 58
    ensures CharOf(d) < CharOf(e)
  {
  }

  /** Every byte is a letter of the alphabet. */
  ghost predicate Valid(s: seq<Byte>) {
    forall i :: 0 <= i < |s| ==> IsLetter(s[i])
  }

  ghost function Digits(s: seq<Byte>): (ds: seq<nat>)
    requires Valid(s)
    ensures |ds| == |s| && InBase(ds, 58)
  {
    RanksBelow(s);
    seq(|s|, i requires 0 <= i < |s| => Rank(s[i]))
  }

  lemma RanksBelow(s: seq<Byte>)
    requires Valid(s)
    ensures forall i :: 0 <= i < |s| ==> Rank(s[i]) < 58
  {
    forall i | 0 <= i < |s|
      ensures Rank(s[i]) < 58
    {
      RankBelow(s[i]);
    }
  }

  /** A string stands for bytes: same number, and a one for every leading zero byte. */
  ghost predicate StandsFor(s: seq<Byte>, b: seq<Byte>) {
    && Valid(s)
    && Value(Digits(s), 58) == Value(b, 256)
    && LeadingZeros(Digits(s)) == LeadingZeros(b)
  }

  /** No string stands for two byte sequences, and no byte sequence has two strings. */
  lemma StandsForOneToOne(s: seq<Byte>, b: seq<Byte>, t: seq<Byte>, c: seq<Byte>)
    requires StandsFor(s, b) && StandsFor(t, c)
    ensures s == t <==> b == c
  {
    if s == t {
      DigitsUnique(b, c, 256);
    }
    if b == c {
      DigitsUnique(Digits(s), Digits(t), 58);
      forall i | 0 <= i < |s|
        ensures s[i] == t[i]
      {
        assert Digits(s)[i] == Digits(t)[i];
        RankOrder(s[i], t[i]);
      }
    }
  }

  /** The digits `now`, with `carry` above them, are 58 times the digits `was` plus `digit`. */
  ghost predicate Scaled(now: seq<Byte>, was: seq<Byte>, carry: nat, digit: nat) {
    && |now| == |was|
    && Value(now, 256) + carry * Pow(256, |now|) == 58 * Value(was, 256) + digit
  }

  /** Multiplies the big-endian number in the scratch by 58 and adds a digit, in place. */
  method MulAdd58(scratch: array<Byte>, digit: nat) returns (carry: nat)
    requires digit < 58
    modifies scratch
    ensures Scaled(scratch[..], old(scratch[..]), carry, digit)
  {
    ghost var before := scratch[..];
    carry := digit;
    var j := scratch.Length;
    ScaledEmpty(digit);
    while j > 0
      invariant 0 <= j <= scratch.Length
      invariant scratch[..j] == before[..j]
      invariant Scaled(scratch[j..], before[j..], carry, digit)
    {
      j := j - 1;
      ghost var tail := scratch[j + 1..];
      assert scratch[j] == before[j];
      var n := carry + scratch[j] as nat * 58;
      scratch[j] := n % 256;
      ScaledStep(tail, before[j + 1..], before[j], carry, n, digit);
      carry := n / 256;
      assert scratch[j..] == [scratch[j]] + tail;
      assert before[j..] == [before[j]] + before[j + 1..];
    }
    assert scratch[0..] == scratch[..] && before[0..] == before;
  }

  lemma ScaledEmpty(digit: nat)
    ensures Scaled([], [], digit, digit)
  {
    assert Pow(256, 0) == 1 && digit * 1 == digit;
  }

  lemma ScaledStep(tail: seq<Byte>, was: seq<Byte>, x: Byte, carry: nat, n: nat, digit: nat)
    requires Scaled(tail, was, carry, digit) && n == carry + x * 58
    ensures Scaled([n % 256] + tail, [x] + was, n / 256, digit)
  {
    ValueCons(n % 256, tail, 256);
    ValueCons(x, was, 256);
    CarryArithmetic(Value(tail, 256), Value(was, 256), Pow(256, |tail|), x, carry, n, digit);
  }

  lemma CarryArithmetic(v: nat, w: nat, p: nat, x: nat, carry: nat, n: nat, digit: nat)
    requires n == carry + x * 58 && v + carry * p == 58 * w + digit
    ensures n % 256 * p + v + n / 256 * (256 * p) == 58 * (x * p + w) + digit
  {
    var q, d := n / 256, n % 256;
    assert q * (256 * p) + d * p == (q * 256 + d) * p;
    assert (carry + x * 58) * p == carry * p + 58 * (x * p);
  }

  /** The number of the first `k` characters, kept in the scratch. */
  lemma NextCharacter(s: seq<Byte>, k: nat, was: seq<Byte>, now: seq<Byte>, carry: nat)
    requires k < |s| && Valid(s[..k + 1]) && Value(was, 256) == Value(Digits(s[..k]), 58)
    requires Scaled(now, was, carry, DigitOf(s[k]).value) && |was| == 1 + |s| * 11 / 15
    ensures carry == 0 && Value(now, 256) == Value(Digits(s[..k + 1]), 58)
  {
    DigitsPush(s, k);
    FitsScratch(Digits(s[..k + 1]), |s|);
    NothingCarried(Value(now, 256), carry, Pow(256, |now|), Value(Digits(s[..k + 1]), 58));
  }

  lemma DigitsPush(s: seq<Byte>, k: nat)
    requires k < |s| && Valid(s[..k + 1])
    ensures Valid(s[..k]) && DigitOf(s[k]).Some?
    ensures Value(Digits(s[..k + 1]), 58) == 58 * Value(Digits(s[..k]), 58) + DigitOf(s[k]).value
  {
    var t := s[..k + 1];
    assert t[k] == s[k] && t[..k] == s[..k];
    assert forall i :: 0 <= i < k ==> s[..k][i] == t[i];
    assert Digits(t)[..k] == Digits(s[..k]);
  }

  lemma FitsScratch(ds: seq<nat>, len: nat)
    requires InBase(ds, 58) && |ds| <= len
    ensures Value(ds, 58) < Pow(256, 1 + len * 11 / 15)
  {
    ValueBound(ds, 58);
    PowMono(58, |ds|, len);
    ScratchSuffices(len);
  }

  lemma NothingCarried(v: nat, carry: nat, p: nat, total: nat)
    requires v + carry * p == total < p
    ensures carry == 0 && v == total
  {
    if carry > 0 {
      MulMono(1, carry, p);
    }
  }

  method CountOnes(s: seq<Byte>) returns (n: nat)
    requires Valid(s)
    ensures n == LeadingZeros(Digits(s))
  {
    ghost var ds := Digits(s);
    n := 0;
    assert ds[0..] == ds;
    while n < |s| && s[n] == CharOf(0)
      invariant n <= |s| && n + LeadingZeros(ds[n..]) == LeadingZeros(ds)
    {
      OneZero(ds, n);
      n := n + 1;
    }
    if n < |s| {
      RankOrder(s[n], CharOf(0));
      NoZero(ds, n);
    } else {
      assert ds[n..] == [];
    }
  }

  lemma OneZero(ds: seq<nat>, n: nat)
    requires n < |ds| && ds[n] == 0
    ensures LeadingZeros(ds[n..]) == 1 + LeadingZeros(ds[n + 1..])
  {
    assert ds[n..][1..] == ds[n + 1..];
  }

  lemma NoZero(ds: seq<nat>, n: nat)
    requires n < |ds| && ds[n] != 0
    ensures LeadingZeros(ds[n..]) == 0
  {
  }

  datatype InvalidCharacter = InvalidCharacter(invalid: Byte)

  /** The first byte outside the alphabet is at `i`. */
  ghost predicate FirstInvalid(s: seq<Byte>, i: nat) {
    i < |s| && Valid(s[..i]) && DigitOf(s[i]).None?
  }

  /** Builds the number of a string in base 256; the final carry is always zero. */
  method ToBase256(s: seq<Byte>) returns (scratch: seq<Byte>, invalid: Option<nat>)
    ensures invalid.Some? ==> FirstInvalid(s, invalid.value)
    ensures invalid.None? ==> Valid(s) && Value(scratch, 256) == Value(Digits(s), 58)
  {
    var buffer := new Byte[1 + |s| * 11 / 15](_ => 0);
    assert buffer[..] == Zeros(buffer.Length) + [];
    ValueOfPadded(buffer.Length, [], 256);
    for k := 0 to |s|
      invariant Valid(s[..k]) && Value(buffer[..], 256) == Value(Digits(s[..k]), 58)
    {
      var digit := DigitOf(s[k]);
      if digit.None? {
        return buffer[..], Some(k);
      }
      ghost var was := buffer[..];
      var carry := MulAdd58(buffer, digit.value);
      ValidNext(s, k);
      NextCharacter(s, k, was, buffer[..], carry);
      assert carry == 0;
    }
    assert s[..|s|] == s;
    scratch, invalid := buffer[..], None;
  }

  lemma ValidNext(s: seq<Byte>, k: nat)
    requires k < |s| && Valid(s[..k]) && DigitOf(s[k]).Some?
    ensures Valid(s[..k + 1])
  {
    assert s[..k + 1] == s[..k] + [s[k]];
  }

  /** Decodes a string; fails with its first byte outside the alphabet. */
  method Decode(s: seq<Byte>) returns (r: Result<seq<Byte>, InvalidCharacter>)
    ensures r.Ok? <==> Valid(s)
    ensures r.Ok? ==> StandsFor(s, r.value)
    ensures r.Err? ==> exists i: nat :: FirstInvalid(s, i) && s[i] == r.error.invalid
  {
    var scratch, invalid := ToBase256(s);
    if invalid.Some? {
      return Err(InvalidCharacter(s[invalid.value]));
    }
    var ones := CountOnes(s);
    var skip := LeadingZeros(scratch);
    Assembled(scratch, ones, skip);
    r := Ok(Zeros(ones) + scratch[skip..]);
  }

  lemma Assembled(scratch: seq<Byte>, ones: nat, skip: nat)
    requires skip == LeadingZeros(scratch)
    ensures Value(Zeros(ones) + scratch[skip..], 256) == Value(scratch, 256)
    ensures LeadingZeros(Zeros(ones) + scratch[skip..]) == ones
  {
    SplitZeros(scratch);
    ValueOfPadded(skip, scratch[skip..], 256);
    ValueOfPadded(ones, scratch[skip..], 256);
    LeadingZerosOfPadded(ones, scratch[skip..]);
  }

  /** A vector that keeps its first hundred elements in a fixed buffer and the rest on the heap. */
  class SmallVec {
    var len: nat
    const stack: array<Byte>
    var heap: seq<Byte>

    ghost predicate Valid()
      reads this
    {
      stack.Length == 100 && len <= 100 && (heap != [] ==> len == 100)
    }

    ghost function Contents(): seq<Byte>
      requires Valid()
      reads this, stack
    {
      stack[..len] + heap
    }

    constructor ()
      ensures Valid() && Contents() == [] && fresh(stack)
    {
      len, stack, heap := 0, new Byte[100](_ => 0), [];
    }

    method Push(v: Byte)
      requires Valid()
      modifies this, stack
      ensures Valid() && Contents() == old(Contents()) + [v]
    {
      if len < 100 {
        stack[len] := v;
        len := len + 1;
      } else {
        heap := heap + [v];
      }
    }

    function Count(): (n: nat)
      requires Valid()
      reads this, stack
      ensures n == |Contents()|
    {
      len + |heap|
    }

    function Get(i: nat): (v: Byte)
      requires Valid() && i < Count()
      reads this, stack
      ensures v == Contents()[i]
    {
      if i < len then stack[i] else heap[i - len]
    }

    method Set(i: nat, v: Byte)
      requires Valid() && i < Count()
      modifies this, stack
      ensures Valid() && Contents() == old(Contents())[i := v]
    {
      if i < len {
        stack[i] := v;
      } else {
        heap := heap[i - len := v];
      }
    }
  }

  /** The digits `now`, with `carry` above them, are 256 times the digits `was` plus `byte`. */
  ghost predicate ScaledLE(now: seq<Byte>, was: seq<Byte>, carry: nat, byte: nat) {
    && |now| == |was|
    && ValueLE(now, 58) + carry * Pow(58, |now|) == 256 * ValueLE(was, 58) + byte
  }

  lemma ScaledLEStep(now: seq<Byte>, was: seq<Byte>, x: Byte, carry: nat, n: nat, byte: nat)
    requires ScaledLE(now, was, carry, byte) && n == x * 256 + carry
    ensures ScaledLE(now + [n % 58], was + [x], n / 58, byte)
  {
    var p := Pow(58, |now|);
    ValueLEPush(now, n % 58, 58);
    ValueLEPush(was, x, 58);
    LimbArithmetic(ValueLE(now, 58), ValueLE(was, 58), p, x, carry, n, byte);
  }

  lemma LimbArithmetic(v: nat, w: nat, p: nat, x: nat, carry: nat, n: nat, byte: nat)
    requires n == x * 256 + carry && v + carry * p == 256 * w + byte
    ensures v + n % 58 * p + n / 58 * (58 * p) == 256 * (w + x * p) + byte
  {
    var q, d := n / 58, n % 58;
    assert q * (58 * p) + d * p == (q * 58 + d) * p;
    assert (x * 256 + carry) * p == 256 * (x * p) + carry * p;
  }

  /** Little-endian base-58 digits of a number, the last one not zero. */
  ghost predicate Canonical(ds: seq<Byte>, n: nat) {
    && InBase(ds, 58)
    && ValueLE(ds, 58) == n
    && (ds != [] ==> ds[|ds| - 1] != 0)
  }

  /** One byte of the input: scales all digits in place and pushes what is carried out. */
  method Absorb(ret: SmallVec, byte: Byte, ghost n: nat)
    requires ret.Valid() && Canonical(ret.Contents(), n)
    modifies ret, ret.stack
    ensures ret.Valid() && Canonical(ret.Contents(), 256 * n + byte)
  {
    ghost var was := ret.Contents();
    var carry := ScaleDigits(ret, byte);
    TopDigit(ret.Contents(), was, carry, byte, n);
    PushCarry(ret, carry, 256 * n + byte);
  }

  /** Multiplies the digits by 256 and adds a byte, in place; returns what is carried out. */
  method ScaleDigits(ret: SmallVec, byte: Byte) returns (carry: nat)
    requires ret.Valid() && InBase(ret.Contents(), 58)
    modifies ret, ret.stack
    ensures ret.Valid() && InBase(ret.Contents(), 58)
    ensures ScaledLE(ret.Contents(), old(ret.Contents()), carry, byte)
  {
    ghost var was := ret.Contents();
    var count := ret.Count();
    carry := byte;
    ScaledLEEmpty(byte);
    for i := 0 to count
      invariant ret.Valid() && |ret.Contents()| == |was|
      invariant InBase(ret.Contents(), 58) && ret.Contents()[i..] == was[i..]
      invariant ScaledLE(ret.Contents()[..i], was[..i], carry, byte)
    {
      var next := ret.Get(i) as nat * 256 + carry;
      DigitStep(ret.Contents(), was, i, carry, next, byte);
      ret.Set(i, next % 58);
      carry := next / 58;
    }
    assert ret.Contents()[..|was|] == ret.Contents() && was[..|was|] == was;
  }

  /** Overwriting one digit extends the scaled part by that digit. */
  lemma DigitStep(now: seq<Byte>, was: seq<Byte>, i: nat, carry: nat, n: nat, byte: nat)
    requires |now| == |was| && i < |was| && InBase(now, 58) && now[i..] == was[i..]
    requires ScaledLE(now[..i], was[..i], carry, byte) && n == now[i] as nat * 256 + carry
    ensures var r := now[i := n % 58];
            && InBase(r, 58) && r[i + 1..] == was[i + 1..]
            && ScaledLE(r[..i + 1], was[..i + 1], n / 58, byte)
  {
    var r := now[i := n % 58];
    assert now[i] == now[i..][0] == was[i..][0] == was[i];
    ScaledLEStep(now[..i], was[..i], was[i], carry, n, byte);
    assert r[..i + 1] == now[..i] + [n % 58];
    assert was[..i + 1] == was[..i] + [was[i]];
    assert r[i + 1..] == now[i..][1..];
  }

  lemma ScaledLEEmpty(byte: nat)
    ensures ScaledLE([], [], byte, byte)
  {
    assert Pow(58, 0) == 1 && byte * 1 == byte;
  }

  /** What is still to be pushed: the digits and the carry above them make up the number. */
  ghost predicate Carrying(ds: seq<Byte>, carry: nat, total: nat) {
    && InBase(ds, 58)
    && ValueLE(ds, 58) + carry * Pow(58, |ds|) == total
    && (carry == 0 && ds != [] ==> ds[|ds| - 1] != 0)
  }

  method PushCarry(ret: SmallVec, high: nat, ghost total: nat)
    requires ret.Valid() && Carrying(ret.Contents(), high, total)
    modifies ret, ret.stack
    ensures ret.Valid() && Canonical(ret.Contents(), total)
  {
    var carry := high;
    while carry > 0
      invariant ret.Valid() && Carrying(ret.Contents(), carry, total)
    {
      CarryStep(ret.Contents(), carry, total);
      ret.Push(carry % 58);
      carry := carry / 58;
    }
    assert 0 * Pow(58, |ret.Contents()|) == 0;
  }

  lemma CarryStep(ds: seq<Byte>, carry: nat, total: nat)
    requires carry > 0 && Carrying(ds, carry, total)
    ensures Carrying(ds + [carry % 58], carry / 58, total)
  {
    ValueLEPush(ds, carry % 58, 58);
    CarrySplits(carry, carry / 58, carry % 58, Pow(58, |ds|));
  }

  lemma CarrySplits(carry: nat, q: nat, d: nat, p: nat)
    requires carry == q * 58 + d
    ensures d * p + q * (58 * p) == carry * p
  {
    assert q * (58 * p) == q * 58 * p;
  }

  /** When nothing is carried out, the top digit has not become zero. */
  lemma TopDigit(now: seq<Byte>, was: seq<Byte>, carry: nat, byte: nat, n: nat)
    requires ScaledLE(now, was, carry, byte) && InBase(now, 58) && Canonical(was, n)
    ensures Carrying(now, carry, 256 * n + byte)
  {
    if now != [] && carry == 0 {
      var k := |now| - 1;
      var p := Pow(58, k);
      assert now == now[..k] + [now[k]] && was == was[..k] + [was[k]];
      ValueLEPush(now[..k], now[k], 58);
      ValueLEPush(was[..k], was[k], 58);
      ValueLEBound(now[..k], 58);
      assert 0 * Pow(58, |now|) == 0;
      NotZero(ValueLE(now[..k], 58), now[k], ValueLE(was[..k], 58), was[k], p, byte);
    }
  }

  lemma ZeroProduct(a: nat, p: nat)
    requires a == 0
    ensures a * p == 0
  {
  }

  lemma NotZero(v: nat, a: nat, w: nat, x: nat, p: nat, byte: nat)
    requires v + a * p == 256 * (w + x * p) + byte && v < p && x > 0
    ensures a > 0
  {
    if a == 0 {
      ZeroProduct(a, p);
      MulMono(1, x, p);
    }
  }

  function Reversed(s: seq<Byte>): (r: seq<Byte>)
    ensures |r| == |s| && forall i :: 0 <= i < |s| ==> r[i] == s[|s| - 1 - i]
  {
    seq(|s|, i requires 0 <= i < |s| => s[|s| - 1 - i])
  }

  lemma {:induction false} ValueReversed(s: seq<Byte>, base: nat)
    ensures Value(Reversed(s), base) == ValueLE(s, base)
  {
    if s != [] {
      ValueReversed(s[1..], base);
      assert Reversed(s)[..|s| - 1] == Reversed(s[1..]);
    }
  }

  /** Builds the little-endian digits of the input and counts its leading zeros. */
  method ToBase58(data: seq<Byte>) returns (ret: SmallVec, zeros: nat)
    ensures fresh(ret) && fresh(ret.stack) && ret.Valid()
    ensures Canonical(ret.Contents(), Value(data, 256)) && zeros == LeadingZeros(data)
  {
    ret := new SmallVec();
    zeros := CountZeros(data);
    ghost var n: nat := 0;
    for k := 0 to |data|
      invariant fresh(ret) && fresh(ret.stack) && ret.Valid()
      invariant n == Value(data[..k], 256) && Canonical(ret.Contents(), n)
    {
      NextByte(data, k);
      Absorb(ret, data[k], n);
      n := 256 * n + data[k];
    }
    assert data[..|data|] == data;
  }

  /** Counts zero bytes until the first other byte. */
  method CountZeros(data: seq<Byte>) returns (zeros: nat)
    ensures zeros == LeadingZeros(data)
  {
    var leading := true;
    zeros := 0;
    for k := 0 to |data|
      invariant zeros == LeadingZeros(data[..k]) && (leading <==> zeros == k)
    {
      if leading && data[k] == 0 {
        zeros := zeros + 1;
      } else {
        leading := false;
      }
      NextZero(data, k);
    }
    assert data[..|data|] == data;
  }

  lemma NextByte(data: seq<Byte>, k: nat)
    requires k < |data|
    ensures Value(data[..k + 1], 256) == 256 * Value(data[..k], 256) + data[k]
  {
    assert data[..k + 1] == data[..k] + [data[k]];
    ValuePush(data[..k], data[k], 256);
  }

  lemma NextZero(data: seq<Byte>, k: nat)
    requires k < |data|
    ensures LeadingZeros(data[..k + 1])
         == if LeadingZeros(data[..k]) == k && data[k] == 0 then k + 1 else LeadingZeros(data[..k])
  {
    assert data[..k + 1] == data[..k] + [data[k]];
    LeadingZerosPush(data[..k], data[k]);
  }

  /** Encodes bytes: digits are built least significant first, then reversed and spelled. */
  method Encode(data: seq<Byte>) returns (s: seq<Byte>)
    ensures StandsFor(s, data)
  {
    var ret, zeros := ToBase58(data);
    ghost var ds := ret.Contents();
    for k := 0 to zeros
      invariant fresh(ret) && fresh(ret.stack) && ret.Valid()
      invariant ret.Contents() == ds + Zeros(k)
    {
      ret.Push(0);
      assert Zeros(k + 1) == Zeros(k) + [0];
    }
    s := Spell(ret, ds + Zeros(zeros));
    Spelled(s, ds, zeros, data);
  }

  lemma {:induction false} LeadingZerosPush(s: seq<nat>, d: nat)
    ensures LeadingZeros(s + [d]) == if LeadingZeros(s) == |s| && d == 0 then |s| + 1 else LeadingZeros(s)
  {
    if s != [] {
      LeadingZerosPush(s[1..], d);
      assert (s + [d])[1..] == s[1..] + [d];
    }
  }

  /** Writes the characters of the digits from the last to the first. */
  method Spell(ret: SmallVec, ghost ds: seq<Byte>) returns (s: seq<Byte>)
    requires ret.Valid() && ret.Contents() == ds && InBase(ds, 58)
    ensures |s| == |ds| && forall i :: 0 <= i < |ds| ==> s[i] == CharOf(Reversed(ds)[i])
  {
    s := [];
    var n := ret.Count();
    for k := 0 to n
      invariant |s| == k && forall i :: 0 <= i < k ==> s[i] == CharOf(Reversed(ds)[i])
    {
      s := s + [CharOf(ret.Get(n - 1 - k))];
    }
  }

  lemma Spelled(s: seq<Byte>, ds: seq<Byte>, zeros: nat, data: seq<Byte>)
    requires InBase(ds, 58) && InBase(ds + Zeros(zeros), 58)
    requires Canonical(ds, Value(data, 256)) && zeros == LeadingZeros(data)
    requires |s| == |ds| + zeros && forall i :: 0 <= i < |s| ==> s[i] == CharOf(Reversed(ds + Zeros(zeros))[i])
    ensures StandsFor(s, data)
  {
    var all := Reversed(ds + Zeros(zeros));
    SpelledDigits(s, all);
    assert all == Zeros(zeros) + Reversed(ds);
    ValueOfPadded(zeros, Reversed(ds), 58);
    ValueReversed(ds, 58);
    LeadingZerosOfPadded(zeros, Reversed(ds));
  }

  lemma SpelledDigits(s: seq<Byte>, ds: seq<Byte>)
    requires InBase(ds, 58) && |s| == |ds| && forall i :: 0 <= i < |s| ==> s[i] == CharOf(ds[i])
    ensures Valid(s) && Digits(s) == ds
  {
    forall i | 0 <= i < |s|
      ensures DigitOf(s[i]) == Some(ds[i])
    {
      CharDigit(ds[i]);
    }
  }

  lemma CharDigit(d: nat)
    requires d < 58
    ensures DigitOf(CharOf(d)) == Some(d)
  {
  }

  /** Decoding an encoding gives the bytes back. */
  method EncodeThenDecode(data: seq<Byte>) returns (r: Result<seq<Byte>, InvalidCharacter>)
    ensures r == Ok(data)
  {
    var s := Encode(data);
    r := Decode(s);
    StandsForOneToOne(s, data, s, r.value);
  }

  /** Encoding a decoded string gives the string back. */
  method DecodeThenEncode(s: seq<Byte>) returns (t: Option<seq<Byte>>)
    ensures t == if Valid(s) then Some(s) else None
  {
    var r := Decode(s);
    if r.Err? {
      return None;
    }
    var u := Encode(r.value);
    StandsForOneToOne(s, r.value, u, r.value);
    t := Some(u);
  }

  /** The four checksum bytes of some data. */
  type Four = s: seq<Byte> | |s| == 4 witness [0, 0, 0, 0]

  function FromLE(s: Four): U32 {
    ValueLEBound(s, 256);
    assert Pow(256, 4) == TWO_32;
    ValueLE(s, 256)
  }

  /** The least significant byte comes first. */
  lemma FromLEBytes(s: Four)
    ensures FromLE(s) == s[0] + 0x100 * s[1] as nat + 0x1_0000 * s[2] as nat + 0x100_0000 * s[3] as nat
  {
    assert ValueLE(s, 256) == s[0] + 256 * ValueLE(s[1..], 256);
    assert ValueLE(s[1..], 256) == s[1] + 256 * ValueLE(s[2..], 256) by { assert s[1..][1..] == s[2..]; }
    assert ValueLE(s[2..], 256) == s[2] + 256 * ValueLE(s[3..], 256) by { assert s[2..][1..] == s[3..]; }
    assert ValueLE(s[3..], 256) == s[3] by { assert s[3..][1..] == []; }
  }

  lemma {:induction false} ValueLEInjective(s: seq<Byte>, t: seq<Byte>)
    requires |s| == |t| && ValueLE(s, 256) == ValueLE(t, 256)
    ensures s == t
  {
    if s != [] {
      SameDigits(ValueLE(s[1..], 256), s[0], ValueLE(t[1..], 256), t[0], 256);
      ValueLEInjective(s[1..], t[1..]);
      assert s == [s[0]] + s[1..] && t == [t[0]] + t[1..];
    }
  }

  datatype CheckError =
    | Decoding(error: InvalidCharacter)
    | TooShort(length: nat)
    | IncorrectChecksum(incorrect: U32, expected: U32)

  method EncodeCheck(data: seq<Byte>, checksum: seq<Byte> -> Four) returns (s: seq<Byte>)
    ensures StandsFor(s, data + checksum(data))
  {
    s := Encode(data + checksum(data));
  }

  /** Succeeds with exactly the payload whose checked encoding this string is. */
  method DecodeCheck(s: seq<Byte>, checksum: seq<Byte> -> Four) returns (r: Result<seq<Byte>, CheckError>)
    ensures forall p: seq<Byte> :: r == Ok(p) <==> StandsFor(s, p + checksum(p))
    ensures r.Err? && r.error.Decoding? <==> !Valid(s)
    ensures r.Err? && r.error.TooShort? ==>
              exists b: seq<Byte> :: StandsFor(s, b) && |b| == r.error.length < 4
    ensures r.Err? && r.error.IncorrectChecksum? ==>
              exists p: seq<Byte>, c: Four ::
                StandsFor(s, p + c) && r.error == IncorrectChecksum(FromLE(c), FromLE(checksum(p)))
  {
    var ret := Decode(s);
    if ret.Err? {
      return Err(Decoding(ret.error));
    }
    var bytes := ret.value;
    forall p: seq<Byte> | StandsFor(s, p + checksum(p))
      ensures bytes == p + checksum(p)
    {
      StandsForOneToOne(s, bytes, s, p + checksum(p));
    }
    if |bytes| < 4 {
      return Err(TooShort(|bytes|));
    }
    var payload, tail := bytes[..|bytes| - 4], bytes[|bytes| - 4..];
    assert bytes == payload + tail;
    var expected, actual := FromLE(checksum(payload)), FromLE(tail);
    if actual != expected {
      assert forall p: seq<Byte> :: bytes == p + checksum(p) ==> p == payload && tail == checksum(p);
      return Err(IncorrectChecksum(actual, expected));
    }
    ValueLEInjective(tail, checksum(payload));
    r := Ok(payload);
  }

  /** A string decodes with its checksum to `p` exactly when it is the checked encoding of `p`. */
  method CheckedRoundTrip(p: seq<Byte>, s: seq<Byte>, checksum: seq<Byte> -> Four) returns (decodes: bool, encodes: bool)
    ensures decodes <==> encodes
    ensures encodes <==> StandsFor(s, p + checksum(p))
  {
    var r := DecodeCheck(s, checksum);
    decodes := r == Ok(p);
    var t := EncodeCheck(p, checksum);
    encodes := t == s;
    if StandsFor(s, p + checksum(p)) {
      StandsForOneToOne(s, p + checksum(p), t, p + checksum(p));
    }
  }
}
