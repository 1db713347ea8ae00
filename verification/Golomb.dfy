/** Golomb-Rice coding on a bit stream, as in the section "Golomb-Rice Coding" of BIP 158. */
module Golomb {
  import opened Arith
  import opened Bits
  import opened Results
  import opened BitStream

  function Ones(n: nat): (s: seq<bool>)
    ensures |s| == n
  {
    seq(n, _ => true)
  }

  /** The quotient by `2^p` in unary, a stop bit, and the remainder in `p` bits. */
  function RiceCode(n: nat, p: nat): seq<bool> {
    Ones(Shr(n, p)) + [false] + Big(n, p)
  }

  /** What a decoder that has counted `q` ones finds next: a 64-bit value and the bits after it. */
  function DecodeFrom(s: seq<bool>, q: nat, p: nat): Option<(nat, seq<bool>)>
    decreases |s|
  {
    if s == [] then None
    else if s[0] then DecodeFrom(s[1..], q + 1, p)
    else if |s| < 1 + p then None
    else Some((Low(Shl(q, p), 64) + Number(s[1..1 + p]), s[1 + p..]))
  }

  /** What a decoder finds at the front of any bit string. */
  function RiceDecode(s: seq<bool>, p: nat): Option<(nat, seq<bool>)> {
    DecodeFrom(s, 0, p)
  }

  lemma {:induction false} CountOnes(k: nat, s: seq<bool>, q: nat, p: nat)
    ensures DecodeFrom(Ones(k) + s, q, p) == DecodeFrom(s, q + k, p)
    decreases k
  {
    if k == 0 {
      assert Ones(0) + s == s;
    } else {
      CountOnes(k - 1, s, q + 1, p);
      assert (Ones(k) + s)[1..] == Ones(k - 1) + s;
    }
  }

  /** Decoding inverts coding for every 64-bit number, whatever follows it in the stream. */
  lemma RiceRoundTrip(n: U64, p: nat, rest: seq<bool>)
    ensures RiceDecode(RiceCode(n, p) + rest, p) == Some((n, rest))
  {
    var q, low := Shr(n, p), Big(n, p);
    Regroup(Ones(q), [false], low, rest);
    CodedNumber(n, p);
    PartsDecode(q, low, rest, p, n);
  }

  lemma PartsDecode(q: nat, low: seq<bool>, rest: seq<bool>, p: nat, n: nat)
    requires |low| == p && Low(Shl(q, p), 64) + Number(low) == n
    ensures DecodeFrom(Ones(q) + ([false] + low + rest), 0, p) == Some((n, rest))
  {
    CountOnes(q, [false] + low + rest, 0, p);
    AfterStop(low, rest, q, p);
  }

  lemma Regroup<T>(a: seq<T>, b: seq<T>, c: seq<T>, d: seq<T>)
    ensures a + b + c + d == a + (b + c + d)
  {
  }

  /** Behind the stop bit come the remainder and then the rest of the stream. */
  lemma AfterStop(low: seq<bool>, rest: seq<bool>, q: nat, p: nat)
    requires |low| == p
    ensures DecodeFrom([false] + low + rest, q, p) == Some((Low(Shl(q, p), 64) + Number(low), rest))
  {
    var t := [false] + low + rest;
    assert t[1..1 + p] == low;
    assert t[1 + p..] == rest;
  }

  lemma CodedNumber(n: U64, p: nat)
    ensures Low(Shl(Shr(n, p), p), 64) + Number(Big(n, p)) == n
  {
    NumberOfBig(n, p);
    SplitAt(n, p);
    Fits64(Shl(Shr(n, p), p));
    LowSmall(Shl(Shr(n, p), p), 64);
  }

  lemma {:induction false} OnesFromMask(n: nat, w: nat)
    requires n <= w
    ensures Big(Pow(2, w) - 1, n) == Ones(n)
    decreases w
  {
    if n > 0 {
      OnesFromMask(n - 1, w - 1);
      assert (Pow(2, w) - 1) / 2 == Pow(2, w - 1) - 1;
    }
  }

  lemma MoreOnes(prior: seq<bool>, n: nat, nbits: nat)
    requires nbits <= 64
    ensures prior + Ones(n) + Big(TWO_64 - 1, nbits) == prior + Ones(n + nbits)
  {
    Pow2To64();
    OnesFromMask(nbits, 64);
  }

  lemma CodeParts(prior: seq<bool>, n: nat, p: nat, s0: seq<bool>, s1: seq<bool>)
    requires s0 == prior + Ones(Shr(n, p)) && s1 == s0 + Big(0, 1)
    ensures s1 + Big(n, p) == prior + RiceCode(n, p)
  {
    StopBit();
    Regroup(prior, Ones(Shr(n, p)), [false], Big(n, p));
  }

  lemma StopBit()
    ensures Big(0, 1) == [false]
  {
  }

  /** Codes one number; runs of the unary part longer than a word take several writes. */
  method Encode(writer: BitStreamWriter, n: U64, p: nat) returns (wrote: nat)
    requires writer.Valid() && writer.offset < 8 && p < 64
    modifies writer
    ensures writer.Valid() && writer.offset < 8
    ensures wrote == |writer.out| - |old(writer.out)|
    ensures writer.Written() == old(writer.Written()) + RiceCode(n, p)
  {
    ghost var prior := writer.Written();
    wrote := WriteOnes(writer, Shr(n, p));
    ghost var s0 := writer.Written();
    var r0 := writer.Write(0, 1);
    ghost var s1 := writer.Written();
    var r1 := writer.Write(n, p);
    CodeParts(prior, n, p, s0, s1);
    wrote := wrote + r0.value + r1.value;
  }

  /** Writes a run of ones, at most a word at a time. */
  method WriteOnes(writer: BitStreamWriter, count: nat) returns (wrote: nat)
    requires writer.Valid() && writer.offset < 8
    modifies writer
    ensures writer.Valid() && writer.offset < 8
    ensures wrote == |writer.out| - |old(writer.out)|
    ensures writer.Written() == old(writer.Written()) + Ones(count)
  {
    wrote := 0;
    ghost var prior := writer.Written();
    assert prior + Ones(0) == prior;
    var q: nat := count;
    while q > 0
      invariant q <= count && writer.Valid() && writer.offset < 8
      invariant wrote == |writer.out| - |old(writer.out)|
      invariant writer.Written() == prior + Ones(count - q)
    {
      var nbits := Min(q, 64);
      MoreOnes(prior, count - q, nbits);
      var r := writer.Write(TWO_64 - 1, nbits);
      wrote := wrote + r.value;
      q := q - nbits;
    }
  }

  /** Decodes one number; fails exactly where the stream ends before a code does. */
  method Decode(reader: BitStreamReader, p: nat) returns (r: Result<U64, StreamError>)
    requires reader.Valid() && p < 64
    modifies reader
    ensures reader.Valid()
    ensures if RiceDecode(old(reader.Pending()), p).Some? then r.Ok? else r == Err(UnexpectedEof)
    ensures r.Ok? ==> RiceDecode(old(reader.Pending()), p) == Some((r.value, reader.Pending()))
  {
    var q := ReadOnes(reader, p);
    if q.None? {
      return Err(UnexpectedEof);
    }
    ghost var pending := reader.Pending();
    r := reader.Read(p);
    Remainder(pending, q.value, p, r, reader.Pending());
    if r.Ok? {
      r := Ok(Low(Shl(q.value, p), 64) + r.value);
    }
  }

  /** Counts the ones of the unary part and reads the stop bit behind them. */
  method ReadOnes(reader: BitStreamReader, ghost p: nat) returns (count: Option<nat>)
    requires reader.Valid()
    modifies reader
    ensures reader.Valid()
    ensures count.None? ==> RiceDecode(old(reader.Pending()), p).None?
    ensures count.Some? ==>
              RiceDecode(old(reader.Pending()), p) == DecodeFrom([false] + reader.Pending(), count.value, p)
  {
    ghost var prior, pending := reader.Pending(), reader.Pending();
    var q: nat := 0;
    var bit := reader.Read(1);
    OneBit(pending, bit, reader.Pending(), 0, p);
    while bit == Ok(1)
      invariant reader.Valid()
      invariant RiceDecode(prior, p) == AfterBit(bit, reader.Pending(), q, p)
      decreases if bit.Ok? then 1 + |reader.Pending()| else 0
    {
      pending := reader.Pending();
      q := q + 1;
      bit := reader.Read(1);
      OneBit(pending, bit, reader.Pending(), q, p);
    }
    count := if bit.Err? then None else Some(q);
  }

  /** What the decoder finds once it has read `bit`, with `rest` still pending. */
  ghost function AfterBit(bit: Result<U64, StreamError>, rest: seq<bool>, q: nat, p: nat): Option<(nat, seq<bool>)> {
    match bit
    case Err(_) => None
    case Ok(v) => if v == 1 then DecodeFrom(rest, q + 1, p) else DecodeFrom([false] + rest, q, p)
  }

  lemma OneBit(pending: seq<bool>, bit: Result<U64, StreamError>, rest: seq<bool>, q: nat, p: nat)
    requires bit.Ok? <==> 1 <= |pending|
    requires bit.Ok? ==> Fits(bit.value, 1) && pending == Big(bit.value, 1) + rest
    ensures DecodeFrom(pending, q, p) == AfterBit(bit, rest, q, p)
    ensures bit.Ok? ==> |pending| == 1 + |rest|
  {
    if bit.Ok? {
      assert Big(bit.value, 1) == [bit.value == 1];
      assert pending[1..] == rest;
    }
  }

  lemma Remainder(pending: seq<bool>, q: nat, p: nat, r: Result<U64, StreamError>, rest: seq<bool>)
    requires p < 64 && (r.Ok? <==> p <= |pending|)
    requires r.Ok? ==> Fits(r.value, p) && pending == Big(r.value, p) + rest
    ensures r.Err? ==> DecodeFrom([false] + pending, q, p).None?
    ensures r.Ok? ==>
              && Low(Shl(q, p), 64) + r.value < TWO_64
              && DecodeFrom([false] + pending, q, p) == Some((Low(Shl(q, p), 64) + r.value, rest))
  {
    if r.Ok? {
      Associate([false], Big(r.value, p), rest);
      AfterStop(Big(r.value, p), rest, q, p);
      NumberOfBig(r.value, p);
      LowSmall(r.value, p);
      ValueFits(q, p, r.value);
    }
  }

  lemma ValueFits(q: nat, p: nat, r: nat)
    requires p < 64 && Fits(r, p)
    ensures Low(Shl(q, p), 64) + r < TWO_64
  {
    LowShl(q, p, 64);
    LowSmall(q, 64 - p);
    JoinFits(Low(q, 64 - p), 64 - p, r, p);
    Fits64(Low(Shl(q, p), 64) + r);
  }
}
