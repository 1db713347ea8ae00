/** Golomb-coded sets: construction and the two one-pass queries, as in BIP 158. */
module Gcs {
  import opened Arith
  import opened Bits
  import opened Results
  import opened BitStream
  import opened Golomb

  type Element = seq<Byte>

  /** A serialized filter: the element count and the coded bit stream that follows it. */
  datatype Content = Content(n: nat, bytes: seq<Byte>)

  /** Reduction of a 64-bit hash to `[0, nm)` by the high half of the 128-bit product. */
  function MapToRange(hash: U64, nm: U64): (r: U64)
    ensures r == 0 || r < nm
  {
    MulMono(hash, TWO_64, nm);
    DivBelow(hash * nm, TWO_64, nm + 1);
    DivNonneg(hash * nm, TWO_64);
    if nm > 0 then (MulLt(hash, TWO_64, nm); DivBelow(hash * nm, TWO_64, nm); hash * nm / TWO_64)
    else 0
  }

  /** Where BIP 158 puts a hash: scaled from 64 bits to the range of `n` times `m` values, rounded down. */
  function Place(hash: nat, n: nat, m: nat): nat {
    hash * (n * m % TWO_64) / TWO_64
  }

  /** The place is the quotient, in terms of products; without wrapping it is spread over `n * m` values. */
  lemma PlaceScales(params: Params, e: Element, n: nat)
    ensures params.Map(e, n) * TWO_64 <= params.hash(e) * (n * params.m % TWO_64) < (params.Map(e, n) + 1) * TWO_64
    ensures 0 < n * params.m < TWO_64 ==> params.Map(e, n) < n * params.m
  {
    MapToRangeScales(params.hash(e), n * params.m % TWO_64);
    if n * params.m < TWO_64 {
      SmallMod(n * params.m, TWO_64);
    }
  }

  /** The mapped value scales the hash to the range, rounded down: every value of it is reached evenly. */
  lemma MapToRangeScales(hash: U64, nm: U64)
    ensures MapToRange(hash, nm) * TWO_64 <= hash * nm < (MapToRange(hash, nm) + 1) * TWO_64
    ensures nm > 0 ==> MapToRange(hash, nm) < nm
  {
    DivBelow(hash * nm, TWO_64, MapToRange(hash, nm));
    DivBelow(hash * nm, TWO_64, MapToRange(hash, nm) + 1);
  }

  /** The parameters shared by writer and reader: keyed hash, range factor and Rice parameter. */
  datatype Params = Params(hash: Element -> U64, m: U64, p: nat) {
    predicate Valid() {
      p < 64
    }

    /** Where an element lands in a filter of `n` elements; the range product wraps at 64 bits. */
    function Map(e: Element, n: nat): (r: U64)
      ensures r == Place(hash(e), n, m)
    {
      MapToRangeScales(hash(e), n * m % TWO_64);
      DivBelow(hash(e) * (n * m % TWO_64), TWO_64, MapToRange(hash(e), n * m % TWO_64));
      DivBelow(hash(e) * (n * m % TWO_64), TWO_64, MapToRange(hash(e), n * m % TWO_64) + 1);
      MapToRange(hash(e), n * m % TWO_64)
    }
  }

  predicate Sorted(s: seq<U64>) {
    forall i, j :: 0 <= i < j < |s| ==> s[i] <= s[j]
  }

  lemma HeadLeast(s: seq<U64>)
    requires Sorted(s) && s != []
    ensures forall v :: v in s ==> s[0] <= v
    ensures Sorted(s[1..]) && forall v :: v in s[1..] ==> v in s
  {
  }

  lemma SortedPrepend(x: U64, s: seq<U64>)
    requires Sorted(s) && forall v :: v in s ==> x <= v
    ensures Sorted([x] + s)
  {
    forall i, j | 0 <= i < j < 1 + |s|
      ensures ([x] + s)[i] <= ([x] + s)[j]
    {
      assert s[j - 1] in s;
    }
  }

  function Insert(x: U64, s: seq<U64>): (r: seq<U64>)
    requires Sorted(s)
    ensures Sorted(r) && |r| == |s| + 1
    ensures forall v :: v in r <==> v == x || v in s
  {
    if s == [] then [x]
    else
      HeadLeast(s);
      if x <= s[0] then
        SortedPrepend(x, s);
        [x] + s
      else
        var t := Insert(x, s[1..]);
        SortedPrepend(s[0], t);
        assert s == [s[0]] + s[1..];
        [s[0]] + t
  }

  /** The sorted sequence the library sort returns. */
  function Sort(s: seq<U64>): (r: seq<U64>)
    ensures Sorted(r) && |r| == |s|
    ensures forall v :: v in r <==> v in s
  {
    if s == [] then [] else Insert(s[0], Sort(s[1..]))
  }

  /** Rice codes of the successive differences of an ascending sequence. */
  function Code(vs: seq<U64>, last: U64, p: nat): seq<bool>
    requires Sorted(vs) && (vs != [] ==> last <= vs[0])
  {
    if vs == [] then [] else RiceCode(vs[0] - last, p) + Code(vs[1..], vs[0], p)
  }

  /** The running sums of the next `n` codes of any bit string, with 64-bit addition. */
  function Values(bits: seq<bool>, n: nat, last: U64, p: nat): (r: Option<seq<U64>>)
    ensures r.Some? ==> |r.value| == n
    decreases n
  {
    if n == 0 then Some([])
    else
      match RiceDecode(bits, p)
      case None => None
      case Some((d, rest)) =>
        var v := (last + d) % TWO_64;
        match Values(rest, n - 1, v, p)
        case None => None
        case Some(vs) => Some([v] + vs)
  }

  /** Decoding the coded differences gives the sequence back, whatever bits follow. */
  lemma {:induction false} CodeRoundTrip(vs: seq<U64>, last: U64, p: nat, pad: seq<bool>)
    requires Sorted(vs) && (vs != [] ==> last <= vs[0])
    ensures Values(Code(vs, last, p) + pad, |vs|, last, p) == Some(vs)
    decreases |vs|
  {
    if vs != [] {
      var rest := Code(vs[1..], vs[0], p) + pad;
      assert Code(vs, last, p) + pad == RiceCode(vs[0] - last, p) + rest;
      RiceRoundTrip(vs[0] - last, p, rest);
      CodeRoundTrip(vs[1..], vs[0], p, pad);
      ValuesStep(Code(vs, last, p) + pad, vs, last, p, vs[0] - last, rest);
    }
  }

  lemma ValuesStep(bits: seq<bool>, vs: seq<U64>, last: U64, p: nat, d: nat, rest: seq<bool>)
    requires vs != [] && RiceDecode(bits, p) == Some((d, rest)) && last + d == vs[0]
    requires Values(rest, |vs| - 1, vs[0], p) == Some(vs[1..])
    ensures Values(bits, |vs|, last, p) == Some(vs)
  {
    SmallMod(vs[0], TWO_64);
    assert [vs[0]] + vs[1..] == vs;
  }

  /** The values a filter holds, if its stream is well formed. */
  function Held(c: Content, p: nat): Option<seq<U64>> {
    Values(OfBytes(c.bytes), c.n, 0, p)
  }

  /** Collects elements and writes them out as a filter. */
  class GcsFilterWriter {
    const params: Params
    var elements: set<Element>

    constructor (params: Params)
      ensures this.params == params && elements == {}
    {
      this.params := params;
      elements := {};
    }

    method AddElement(e: Element)
      modifies this
      ensures elements == if e == [] then old(elements) else old(elements) + {e}
    {
      if e != [] {
        elements := elements + {e};
      }
    }

    /** Writes the sorted mapped elements as coded differences. */
    method Finish() returns (content: Content, wrote: nat)
      requires params.Valid()
      ensures content.n == |elements| && wrote == |content.bytes|
      ensures var held := Held(content, params.p);
              && held.Some? && Sorted(held.value)
              && forall v :: v in held.value <==>
                   exists e :: e in elements && Place(params.hash(e), |elements|, params.m) == v
    {
      var raw := MapAll(params, elements);
      var mapped := Sort(raw);
      var bytes;
      bytes, wrote := WriteValues(mapped, params.p);
      content := Content(|mapped|, bytes);
    }
  }

  /** Writes the differences of an ascending sequence and flushes the last byte. */
  method WriteValues(values: seq<U64>, p: nat) returns (bytes: seq<Byte>, wrote: nat)
    requires Sorted(values) && p < 64
    ensures wrote == |bytes|
    ensures Values(OfBytes(bytes), |values|, 0, p) == Some(values)
  {
    var writer := new BitStreamWriter([]);
    wrote := WriteCodes(writer, values, p);
    var w := writer.Flush();
    wrote := wrote + w;
    bytes := writer.out;
    PaddedRoundTrip(values, p, OfBytes(bytes));
  }

  /** Appends the coded differences to an empty stream. */
  method WriteCodes(writer: BitStreamWriter, values: seq<U64>, p: nat) returns (wrote: nat)
    requires Sorted(values) && p < 64
    requires writer.Valid() && writer.offset == 0 && writer.out == [] && writer.Written() == []
    modifies writer
    ensures writer.Valid() && writer.offset < 8 && wrote == |writer.out|
    ensures writer.Written() == Code(values, 0, p)
  {
    var last: U64 := 0;
    wrote := 0;
    for i := 0 to |values|
      invariant writer.Valid() && writer.offset < 8
      invariant wrote == |writer.out| && ToWrite(values, i, last)
      invariant writer.Written() + Code(values[i..], last, p) == Code(values, 0, p)
    {
      var w := WriteCode(writer, values, i, last, p, Code(values, 0, p));
      wrote := wrote + w;
      last := values[i];
    }
    NothingLeft(writer.Written(), values, last, p);
  }

  /** Writes the difference of one value to the one before it. */
  method WriteCode(writer: BitStreamWriter, values: seq<U64>, i: nat, last: U64, p: nat, ghost all: seq<bool>)
    returns (wrote: nat)
    requires Sorted(values) && p < 64 && i < |values| && ToWrite(values, i, last)
    requires writer.Valid() && writer.offset < 8 && writer.Written() + Code(values[i..], last, p) == all
    modifies writer
    ensures writer.Valid() && writer.offset < 8 && wrote == |writer.out| - |old(writer.out)|
    ensures ToWrite(values, i + 1, values[i]) && writer.Written() + Code(values[i + 1..], values[i], p) == all
  {
    CodeStep(writer.Written(), values, i, last, p);
    wrote := Encode(writer, values[i] - last, p);
  }

  lemma NothingLeft(written: seq<bool>, values: seq<U64>, last: U64, p: nat)
    requires Sorted(values[|values|..])
    ensures written + Code(values[|values|..], last, p) == written
  {
    assert Code(values[|values|..], last, p) == [];
  }

  /** The differences from `last` on are still to be written. */
  predicate ToWrite(values: seq<U64>, i: nat, last: U64) {
    && i <= |values| && Sorted(values[i..])
    && (i < |values| ==> last <= values[i])
  }

  lemma PaddedRoundTrip(values: seq<U64>, p: nat, bits: seq<bool>)
    requires Sorted(values) && Code(values, 0, p) <= bits
    ensures Values(bits, |values|, 0, p) == Some(values)
  {
    var coded := Code(values, 0, p);
    assert coded + bits[|coded|..] == bits;
    CodeRoundTrip(values, 0, p, bits[|coded|..]);
  }

  lemma CodeStep(written: seq<bool>, vs: seq<U64>, i: nat, last: U64, p: nat)
    requires i < |vs| && Sorted(vs) && ToWrite(vs, i, last)
    ensures ToWrite(vs, i + 1, vs[i])
    ensures written + Code(vs[i..], last, p)
         == written + RiceCode(vs[i] - last, p) + Code(vs[i + 1..], vs[i], p)
  {
    assert vs[i..][1..] == vs[i + 1..];
  }

  /** Hashes every element of a set into range, in some order. */
  method MapAll(params: Params, elements: set<Element>) returns (mapped: seq<U64>)
    ensures |mapped| == |elements|
    ensures forall v :: v in mapped <==> exists e :: e in elements && Place(params.hash(e), |elements|, params.m) == v
  {
    var todo := elements;
    mapped := [];
    while todo != {}
      invariant todo <= elements && |mapped| == |elements| - |todo|
      invariant forall v :: v in mapped <==>
                  exists e :: e in elements - todo && Place(params.hash(e), |elements|, params.m) == v
      decreases |todo|
    {
      var e :| e in todo;
      ghost var before, v0 := mapped, Place(params.hash(e), |elements|, params.m);
      mapped := mapped + [params.Map(e, |elements|)];
      forall v
        ensures v in mapped <==>
                exists e' :: e' in elements - (todo - {e}) && Place(params.hash(e'), |elements|, params.m) == v
      {
        if v == v0 {
          assert e in elements - (todo - {e});
        }
      }
      todo := todo - {e};
    }
  }

  /** As many running sums as any bit string has codes for, but at most `n`. */
  function Readable(bits: seq<bool>, n: nat, last: U64, p: nat): (vs: seq<U64>)
    ensures |vs| <= n
    decreases n
  {
    if n == 0 then []
    else
      match RiceDecode(bits, p)
      case None => []
      case Some((d, rest)) =>
        var v := (last + d) % TWO_64;
        [v] + Readable(rest, n - 1, v, p)
  }

  /** The values a reader can get from a filter, well formed or not. */
  function Stored(c: Content, p: nat): seq<U64> {
    Readable(OfBytes(c.bytes), c.n, 0, p)
  }

  lemma {:induction false} ValuesAreReadable(bits: seq<bool>, vs: seq<U64>, last: U64, p: nat)
    requires Values(bits, |vs|, last, p) == Some(vs)
    ensures Readable(bits, |vs|, last, p) == vs
    decreases |vs|
  {
    if vs != [] {
      var (d, rest) := RiceDecode(bits, p).value;
      ValuesAreReadable(rest, vs[1..], vs[0], p);
    }
  }

  /** Where a scan for `q` stops: at the first value not below it, or behind the last value. */
  function Reach(vs: seq<U64>, q: U64): (i: nat)
    ensures i <= |vs| && (i < |vs| ==> q <= vs[i])
    ensures forall t :: 0 <= t < i ==> vs[t] < q
  {
    if vs == [] || q <= vs[0] then 0 else 1 + Reach(vs[1..], q)
  }

  ghost predicate Hit(vs: seq<U64>, q: U64) {
    Reach(vs, q) < |vs| && vs[Reach(vs, q)] == q
  }

  ghost predicate Missed(vs: seq<U64>, q: U64) {
    Reach(vs, q) < |vs| && vs[Reach(vs, q)] > q
  }

  /** All values lie below `q`, so the scan needs one more. */
  ghost predicate RunsOut(vs: seq<U64>, q: U64) {
    Reach(vs, q) == |vs|
  }

  datatype Query = Any | All

  /** The answer when the scan has read every value: there are no more, or the stream ends too early. */
  function AtTheEnd(vs: seq<U64>, n: nat): Result<bool, StreamError> {
    if |vs| < n then Err(UnexpectedEof) else Ok(false)
  }

  /** What a query answers on the readable values of any stream that claims to hold `n`. */
  ghost function Verdict(query: Query, wanted: set<U64>, vs: seq<U64>, n: nat): Result<bool, StreamError> {
    match query
    case Any =>
      if exists v :: v in wanted && Hit(vs, v) then Ok(true)
      else if exists v :: v in wanted && RunsOut(vs, v) then AtTheEnd(vs, n)
      else Ok(false)
    case All =>
      if exists v :: v in wanted && Missed(vs, v) then Ok(false)
      else if exists v :: v in wanted && RunsOut(vs, v) then AtTheEnd(vs, n)
      else Ok(true)
  }

  function Elements(s: seq<U64>): set<U64> {
    set v | v in s
  }

  lemma HitIsHeld(vs: seq<U64>, q: U64)
    requires Sorted(vs)
    ensures Hit(vs, q) <==> q in vs
  {
    if q in vs {
      var j :| 0 <= j < |vs| && vs[j] == q;
      assert Reach(vs, q) <= j;
    }
  }

  /** On all values of a well-formed filter the verdict is the plain answer. */
  lemma VerdictOfHeld(wanted: set<U64>, vs: seq<U64>)
    requires Sorted(vs)
    ensures Verdict(Any, wanted, vs, |vs|) == Ok(exists v :: v in wanted && v in vs)
    ensures Verdict(All, wanted, vs, |vs|) == Ok(forall v :: v in wanted ==> v in vs)
  {
    forall v
      ensures Hit(vs, v) <==> v in vs
    {
      HitIsHeld(vs, v);
    }
  }

  /** Everything the scan has passed lies below a bound. */
  ghost predicate Passed(vs: seq<U64>, i: nat, bound: U64) {
    i <= |vs| && forall t :: 0 <= t < i ==> vs[t] < bound
  }

  /** The scan stands at value `i`, and the stream still holds the codes of those after it. */
  ghost predicate Standing(vs: seq<U64>, n: nat, i: nat, data: U64, remaining: nat, pending: seq<bool>, p: nat) {
    && i < |vs| <= n && data == vs[i] && remaining == n - 1 - i
    && Readable(pending, remaining, data, p) == vs[i + 1..]
  }

  /** Decoding one more code moves to the next value, or shows that there is none. */
  lemma NextValue(vs: seq<U64>, n: nat, i: nat, data: U64, remaining: nat, pending: seq<bool>, p: nat)
    requires Standing(vs, n, i, data, remaining, pending, p) && remaining > 0
    ensures RiceDecode(pending, p).None? ==> |vs| == i + 1
    ensures RiceDecode(pending, p).Some? ==>
              var (d, rest) := RiceDecode(pending, p).value;
              Standing(vs, n, i + 1, (data + d) % TWO_64, remaining - 1, rest, p)
  {
    if RiceDecode(pending, p).Some? {
      var (d, rest) := RiceDecode(pending, p).value;
      assert vs[i + 1..][0] == vs[i + 1] == (data + d) % TWO_64;
      assert vs[i + 1..][1..] == vs[i + 2..];
    }
  }

  /** The inner loop of both queries: decodes differences until the running value reaches `target`. */
  method Seek(reader: BitStreamReader, p: nat, target: U64, from: U64, left: nat,
              ghost vs: seq<U64>, ghost n: nat, ghost at: nat)
    returns (r: Result<bool, StreamError>, data: U64, remaining: nat, ghost i: nat)
    requires reader.Valid() && p < 64
    requires Standing(vs, n, at, from, left, reader.Pending(), p) && Passed(vs, at, target)
    modifies reader
    ensures reader.Valid()
    ensures r == Ok(true) ==> i == Reach(vs, target) && Standing(vs, n, i, data, remaining, reader.Pending(), p)
    ensures r != Ok(true) ==> RunsOut(vs, target) && r == AtTheEnd(vs, n)
  {
    data, remaining, i := from, left, at;
    while data < target
      invariant reader.Valid()
      invariant Standing(vs, n, i, data, remaining, reader.Pending(), p) && Passed(vs, i, target)
      decreases remaining, data < target
    {
      if remaining == 0 {
        return Ok(false), data, remaining, i;
      }
      NextValue(vs, n, i, data, remaining, reader.Pending(), p);
      var next := Decode(reader, p);
      if next.Err? {
        return Err(next.error), data, remaining, i;
      }
      data, remaining, i := (data + next.value) % TWO_64, remaining - 1, i + 1;
    }
    r := Ok(true);
  }

  /** Reads the first value of a stream that claims to hold `n`. */
  method Start(reader: BitStreamReader, n: nat, p: nat) returns (first: Result<U64, StreamError>)
    requires reader.Valid() && p < 64 && n > 0
    modifies reader
    ensures reader.Valid()
    ensures var vs := Readable(old(reader.Pending()), n, 0, p);
            if vs == [] then first == Err(UnexpectedEof)
            else first.Ok? && Standing(vs, n, 0, first.value, n - 1, reader.Pending(), p)
  {
    first := Decode(reader, p);
    if first.Ok? {
      SmallMod(first.value, TWO_64);
    }
  }

  /** How a pass for the first query met ends: at query `k`, with all earlier ones missed. */
  ghost predicate EndsAny(vs: seq<U64>, n: nat, mapped: seq<U64>, k: nat, r: Result<bool, StreamError>) {
    && MissedTo(vs, mapped, k)
    && (k == |mapped| ==> r == Ok(false))
    && (k < |mapped| ==> if RunsOut(vs, mapped[k]) then r == AtTheEnd(vs, n) else r == Ok(true) && Hit(vs, mapped[k]))
  }

  /** How a pass for the first query missed ends: at query `k`, with all earlier ones met. */
  ghost predicate EndsAll(vs: seq<U64>, n: nat, mapped: seq<U64>, k: nat, r: Result<bool, StreamError>) {
    && HitTo(vs, mapped, k)
    && (k == |mapped| ==> r == Ok(true))
    && (k < |mapped| ==> if RunsOut(vs, mapped[k]) then r == AtTheEnd(vs, n) else r == Ok(false) && Missed(vs, mapped[k]))
  }

  /** One read pass that stops at the first query found among the values of any stream. */
  method ScanAny(reader: BitStreamReader, n: nat, p: nat, mapped: seq<U64>) returns (r: Result<bool, StreamError>)
    requires reader.Valid() && p < 64 && n > 0 && Sorted(mapped) && mapped != []
    modifies reader
    ensures r == Verdict(Any, Elements(mapped), Readable(old(reader.Pending()), n, 0, p), n)
  {
    ghost var vs := Readable(reader.Pending(), n, 0, p);
    ghost var k: nat := 0;
    var first := Start(reader, n, p);
    if first.Err? {
      r := Err(first.error);
    } else {
      r, k := PassAny(reader, n, p, mapped, first.value, vs);
    }
    VerdictAny(vs, n, mapped, k, r);
  }

  method PassAny(reader: BitStreamReader, n: nat, p: nat, mapped: seq<U64>, first: U64, ghost vs: seq<U64>)
    returns (r: Result<bool, StreamError>, ghost at: nat)
    requires reader.Valid() && p < 64 && n > 0 && Sorted(mapped)
    requires Standing(vs, n, 0, first, n - 1, reader.Pending(), p)
    modifies reader
    ensures EndsAny(vs, n, mapped, at, r)
  {
    var data: U64, remaining: nat := first, n - 1;
    ghost var i: nat := 0;
    for k := 0 to |mapped|
      invariant reader.Valid() && Standing(vs, n, i, data, remaining, reader.Pending(), p)
      invariant PassedFor(vs, i, mapped, k) && MissedTo(vs, mapped, k)
    {
      var reached;
      reached, data, remaining, i := Seek(reader, p, mapped[k], data, remaining, vs, n, i);
      if reached != Ok(true) {
        return reached, k;
      }
      StillPassed(vs, mapped, k);
      if data == mapped[k] {
        return Ok(true), k;
      }
    }
    r, at := Ok(false), |mapped|;
  }

  /** One read pass that stops at the first query missing from the values of any stream. */
  method ScanAll(reader: BitStreamReader, n: nat, p: nat, mapped: seq<U64>) returns (r: Result<bool, StreamError>)
    requires reader.Valid() && p < 64 && n > 0 && Sorted(mapped) && mapped != []
    modifies reader
    ensures r == Verdict(All, Elements(mapped), Readable(old(reader.Pending()), n, 0, p), n)
  {
    ghost var vs := Readable(reader.Pending(), n, 0, p);
    ghost var k: nat := 0;
    var first := Start(reader, n, p);
    if first.Err? {
      r := Err(first.error);
    } else {
      r, k := PassAll(reader, n, p, mapped, first.value, vs);
    }
    VerdictAll(vs, n, mapped, k, r);
  }

  method PassAll(reader: BitStreamReader, n: nat, p: nat, mapped: seq<U64>, first: U64, ghost vs: seq<U64>)
    returns (r: Result<bool, StreamError>, ghost at: nat)
    requires reader.Valid() && p < 64 && n > 0 && Sorted(mapped)
    requires Standing(vs, n, 0, first, n - 1, reader.Pending(), p)
    modifies reader
    ensures EndsAll(vs, n, mapped, at, r)
  {
    var data: U64, remaining: nat := first, n - 1;
    ghost var i: nat := 0;
    for k := 0 to |mapped|
      invariant reader.Valid() && Standing(vs, n, i, data, remaining, reader.Pending(), p)
      invariant PassedFor(vs, i, mapped, k) && HitTo(vs, mapped, k)
    {
      var reached;
      reached, data, remaining, i := Seek(reader, p, mapped[k], data, remaining, vs, n, i);
      if reached != Ok(true) {
        return reached, k;
      }
      StillPassed(vs, mapped, k);
      if data > mapped[k] {
        return Ok(false), k;
      }
    }
    r, at := Ok(true), |mapped|;
  }

  lemma VerdictAny(vs: seq<U64>, n: nat, mapped: seq<U64>, k: nat, r: Result<bool, StreamError>)
    requires Sorted(mapped) && EndsAny(vs, n, mapped, k, r)
    ensures r == Verdict(Any, Elements(mapped), vs, n)
  {
    if k == |mapped| {
      AllMissed(vs, mapped, n);
    } else if RunsOut(vs, mapped[k]) {
      EndsAt(mapped, k, vs, n);
    } else {
      OneHit(vs, mapped, k, n);
    }
  }

  lemma VerdictAll(vs: seq<U64>, n: nat, mapped: seq<U64>, k: nat, r: Result<bool, StreamError>)
    requires Sorted(mapped) && EndsAll(vs, n, mapped, k, r)
    ensures r == Verdict(All, Elements(mapped), vs, n)
  {
    if k == |mapped| {
      AllHit(vs, mapped, n);
    } else if RunsOut(vs, mapped[k]) {
      EndsAt(mapped, k, vs, n);
    } else {
      OneMissed(vs, mapped, k, n);
    }
  }

  /** Where query `k` runs out, so do all later ones, and the outcome of the earlier ones decides. */
  lemma EndsAt(mapped: seq<U64>, k: nat, vs: seq<U64>, n: nat)
    requires k < |mapped| && Sorted(mapped) && RunsOut(vs, mapped[k])
    ensures MissedTo(vs, mapped, k) ==> Verdict(Any, Elements(mapped), vs, n) == AtTheEnd(vs, n)
    ensures HitTo(vs, mapped, k) ==> Verdict(All, Elements(mapped), vs, n) == AtTheEnd(vs, n)
  {
    assert mapped[k] in Elements(mapped);
    forall j | k <= j < |mapped|
      ensures RunsOut(vs, mapped[j])
    {
      RunsOutUpward(vs, mapped[k], mapped[j]);
    }
  }

  lemma RunsOutUpward(vs: seq<U64>, q: U64, r: U64)
    requires RunsOut(vs, q) && q <= r
    ensures RunsOut(vs, r)
  {
  }

  /** What the scan has passed lies below all queries from `k` on. */
  ghost predicate PassedFor(vs: seq<U64>, i: nat, mapped: seq<U64>, k: nat) {
    forall j :: k <= j < |mapped| ==> Passed(vs, i, mapped[j])
  }

  ghost predicate MissedTo(vs: seq<U64>, mapped: seq<U64>, k: nat) {
    k <= |mapped| && forall j :: 0 <= j < k ==> Missed(vs, mapped[j])
  }

  ghost predicate HitTo(vs: seq<U64>, mapped: seq<U64>, k: nat) {
    k <= |mapped| && forall j :: 0 <= j < k ==> Hit(vs, mapped[j])
  }

  lemma StillPassed(vs: seq<U64>, mapped: seq<U64>, k: nat)
    requires k < |mapped| && Sorted(mapped)
    ensures PassedFor(vs, Reach(vs, mapped[k]), mapped, k + 1)
  {
  }

  lemma OneHit(vs: seq<U64>, mapped: seq<U64>, k: nat, n: nat)
    requires k < |mapped| && Hit(vs, mapped[k])
    ensures Verdict(Any, Elements(mapped), vs, n) == Ok(true)
  {
    assert mapped[k] in Elements(mapped);
  }

  lemma OneMissed(vs: seq<U64>, mapped: seq<U64>, k: nat, n: nat)
    requires k < |mapped| && Missed(vs, mapped[k])
    ensures Verdict(All, Elements(mapped), vs, n) == Ok(false)
  {
    assert mapped[k] in Elements(mapped);
  }

  lemma AllMissed(vs: seq<U64>, mapped: seq<U64>, n: nat)
    requires MissedTo(vs, mapped, |mapped|)
    ensures Verdict(Any, Elements(mapped), vs, n) == Ok(false)
  {
  }

  lemma AllHit(vs: seq<U64>, mapped: seq<U64>, n: nat)
    requires HitTo(vs, mapped, |mapped|)
    ensures Verdict(All, Elements(mapped), vs, n) == Ok(true)
  {
  }

  /** Drops repeats from an ascending sequence. */
  function Dedup(s: seq<U64>): (r: seq<U64>)
    requires Sorted(s)
    ensures Sorted(r) && (r == [] <==> s == [])
    ensures forall v :: v in r <==> v in s
  {
    if |s| < 2 then s
    else
      HeadLeast(s);
      var t := Dedup(s[1..]);
      SortedPrepend(s[0], t);
      assert s == [s[0]] + s[1..];
      if s[0] == s[1] then t else [s[0]] + t
  }

  method MapQuery(params: Params, query: seq<Element>, n: nat) returns (mapped: seq<U64>)
    ensures |mapped| == |query|
    ensures forall i :: 0 <= i < |query| ==> mapped[i] == Place(params.hash(query[i]), n, params.m)
  {
    mapped := [];
    for i := 0 to |query|
      invariant |mapped| == i
      invariant forall j :: 0 <= j < i ==> mapped[j] == Place(params.hash(query[j]), n, params.m)
    {
      mapped := mapped + [params.Map(query[i], n)];
    }
  }

  /** Some query maps to a held value. */
  ghost predicate AnyMatch(params: Params, n: nat, query: seq<Element>, held: seq<U64>) {
    exists q :: q in query && Place(params.hash(q), n, params.m) in held
  }

  /** Every query maps to a held value. */
  ghost predicate AllMatch(params: Params, n: nat, query: seq<Element>, held: seq<U64>) {
    forall q :: q in query ==> Place(params.hash(q), n, params.m) in held
  }

  /** The values the queries map to. */
  ghost function Images(params: Params, n: nat, query: seq<Element>): set<U64> {
    set q | q in query :: Place(params.hash(q), n, params.m)
  }

  /** The mapped values are the images of the queries, in whatever order and however often. */
  lemma MappedElements(params: Params, n: nat, query: seq<Element>, raw: seq<U64>, mapped: seq<U64>)
    requires |raw| == |query| && forall i :: 0 <= i < |query| ==> raw[i] == Place(params.hash(query[i]), n, params.m)
    requires forall v :: v in mapped <==> v in raw
    ensures Elements(mapped) == Images(params, n, query)
  {
    forall q | q in query
      ensures Place(params.hash(q), n, params.m) in mapped
    {
      var i :| 0 <= i < |query| && query[i] == q;
      assert raw[i] in raw;
    }
    forall v | v in mapped
      ensures exists q :: q in query && Place(params.hash(q), n, params.m) == v
    {
      var i :| 0 <= i < |raw| && raw[i] == v;
      assert query[i] in query;
    }
  }

  /** On a well-formed filter the verdicts are plain set answers about the queries. */
  lemma WellFormedVerdict(params: Params, content: Content, query: seq<Element>)
    requires Held(content, params.p).Some? && Sorted(Held(content, params.p).value)
    ensures var held, images := Held(content, params.p).value, Images(params, content.n, query);
            && Verdict(Any, images, Stored(content, params.p), content.n) == Ok(AnyMatch(params, content.n, query, held))
            && Verdict(All, images, Stored(content, params.p), content.n) == Ok(AllMatch(params, content.n, query, held))
  {
    var held, images := Held(content, params.p).value, Images(params, content.n, query);
    ValuesAreReadable(OfBytes(content.bytes), held, 0, params.p);
    VerdictOfHeld(images, held);
    assert forall q :: q in query ==> Place(params.hash(q), content.n, params.m) in images;
  }

  /**
   Answers by one pass over any filter: true when the scan meets some query, an error when it must
   read past the end before that is settled, false otherwise. On a well-formed filter it is true
   exactly when some query is among the held values.
   */
  method MatchAny(params: Params, content: Content, query: seq<Element>) returns (r: Result<bool, StreamError>)
    requires params.Valid()
    ensures r == Verdict(Any, Images(params, content.n, query), Stored(content, params.p), content.n)
    ensures var held := Held(content, params.p);
            held.Some? && Sorted(held.value) ==> r == Ok(AnyMatch(params, content.n, query, held.value))
  {
    ghost var held := Held(content, params.p);
    if held.Some? && Sorted(held.value) {
      WellFormedVerdict(params, content, query);
    }
    var raw := MapQuery(params, query, content.n);
    var mapped := Sort(raw);
    MappedElements(params, content.n, query, raw, mapped);
    if mapped == [] || content.n == 0 {
      return Ok(false);
    }
    var reader := new BitStreamReader(content.bytes);
    r := ScanAny(reader, content.n, params.p, mapped);
  }

  /**
   Answers by one pass over any filter: false when the scan passes some query without meeting it, an
   error when it must read past the end before that is settled, true otherwise. On a well-formed
   filter it is true exactly when every query is among the held values.
   */
  method MatchAll(params: Params, content: Content, query: seq<Element>) returns (r: Result<bool, StreamError>)
    requires params.Valid()
    ensures r == Verdict(All, Images(params, content.n, query), Stored(content, params.p), content.n)
    ensures var held := Held(content, params.p);
            held.Some? && Sorted(held.value) ==> r == Ok(AllMatch(params, content.n, query, held.value))
  {
    ghost var held := Held(content, params.p);
    if held.Some? && Sorted(held.value) {
      WellFormedVerdict(params, content, query);
    }
    var raw := MapQuery(params, query, content.n);
    var mapped := Dedup(Sort(raw));
    MappedElements(params, content.n, query, raw, mapped);
    if mapped == [] {
      return Ok(true);
    }
    if content.n == 0 {
      assert mapped[0] in Elements(mapped);
      return Ok(false);
    }
    var reader := new BitStreamReader(content.bytes);
    r := ScanAll(reader, content.n, params.p, mapped);
  }

  /** The elements a writer keeps of those it is given: a set, without the empty element. */
  function Kept(given: seq<Element>): set<Element> {
    set e | e in given && e != []
  }

  /**
   The life of a filter: built from any elements, queried with any queries. Both answers are the
   plain set answers over the mapped elements, no read fails, and no element given is missed.
   */
  method BuildAndQuery(params: Params, given: seq<Element>, query: seq<Element>)
    returns (anyMatch: Result<bool, StreamError>, allMatch: Result<bool, StreamError>)
    requires params.Valid()
    ensures var n := |Kept(given)|;
            anyMatch == Ok(exists q, e :: q in query && e in Kept(given) &&
                             Place(params.hash(q), n, params.m) == Place(params.hash(e), n, params.m))
    ensures var n := |Kept(given)|;
            allMatch == Ok(forall q :: q in query ==>
                             exists e :: e in Kept(given) &&
                               Place(params.hash(q), n, params.m) == Place(params.hash(e), n, params.m))
    ensures (exists q :: q in query && q in Kept(given)) ==> anyMatch == Ok(true)
    ensures (forall q :: q in query ==> q in Kept(given)) ==> allMatch == Ok(true)
  {
    var writer := new GcsFilterWriter(params);
    for i := 0 to |given|
      invariant fresh(writer) && writer.elements == Kept(given[..i])
    {
      assert given[..i + 1] == given[..i] + [given[i]];
      writer.AddElement(given[i]);
    }
    assert given[..|given|] == given;
    var content, _ := writer.Finish();
    anyMatch := MatchAny(params, content, query);
    allMatch := MatchAll(params, content, query);
    assert forall q, e :: q in query && e in Kept(given) && q == e ==>
             Place(params.hash(q), content.n, params.m) == Place(params.hash(e), content.n, params.m);
  }
}
