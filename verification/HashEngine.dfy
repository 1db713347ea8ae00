/** Streaming hash engines: block buffering and padding around any block function. */
module HashEngine {
  import opened Arith
  import opened Radix

  /**
   A block hash: its block size, the width of its length field, the initial state, the block
   function and the way a state is written out. Only the sizes are interpreted here.
   */
  datatype Algorithm<!H> = Algorithm(
    block: nat, field: nat, initial: H, compress: (H, seq<Byte>) -> H, output: H -> seq<Byte>)
  {
    /** The length field holds a 64-bit number and takes at most half a block. */
    predicate Valid() {
      8 <= field && 2 * field <= block
    }

    /** The block function over all whole blocks of `msg`; bytes behind them do not count. */
    function Fold(h: H, msg: seq<Byte>): H
      requires block > 0
      decreases |msg|
    {
      if |msg| < block then h else Fold(compress(h, msg[..block]), msg[block..])
    }

    /** The message padded as in sections 5.1.1 and 5.1.2 of FIPS 180-4, on whole bytes. */
    function Padded(msg: seq<Byte>): seq<Byte>
      requires Valid()
    {
      msg + [0x80] + Zeros(ZeroCount(|msg| + 1 + field, block)) + BigEndian(8 * |msg|, field)
    }

    /** The hash of a message, from a given starting state. */
    function Digest(start: H, msg: seq<Byte>): seq<Byte>
      requires Valid()
    {
      output(Fold(start, Padded(msg)))
    }

    function Hash(msg: seq<Byte>): seq<Byte>
      requires Valid()
    {
      Digest(initial, msg)
    }
  }

  /** The least number of bytes that bring `n` to a multiple of the block size. */
  function ZeroCount(n: nat, block: nat): (z: nat)
    requires block > 0
    ensures z < block && (n + z) % block == 0
  {
    ModStep(n, if n % block == 0 then 0 else block - n % block, block);
    if n % block == 0 then 0 else block - n % block
  }

  lemma ZeroCountLeast(n: nat, z: nat, block: nat)
    requires block > 0 && (n + z) % block == 0
    ensures ZeroCount(n, block) <= z
    ensures z < block ==> ZeroCount(n, block) == z
  {
    if z < block {
      ModStep(n, Min(z, block - n % block), block);
      if z > block - n % block {
        ModStep(n + (block - n % block), z - (block - n % block), block);
      }
    }
  }

  /** The low `k` bytes of a number, most significant first. */
  function BigEndian(v: nat, k: nat): (s: seq<Byte>)
    ensures |s| == k
  {
    if k == 0 then [] else BigEndian(v / 256, k - 1) + [v % 256]
  }

  /** A number that fits its field is the value of its bytes. */
  lemma {:induction false} BigEndianValue(v: nat, k: nat)
    ensures v < Pow(256, k) ==> Value(BigEndian(v, k), 256) == v
    decreases k
  {
    if k > 0 {
      BigEndianValue(v / 256, k - 1);
      ValuePush(BigEndian(v / 256, k - 1), v % 256, 256);
    }
  }

  lemma {:induction false} BigEndianOfZero(k: nat)
    ensures BigEndian(0, k) == Zeros(k)
  {
    if k > 0 {
      BigEndianOfZero(k - 1);
    }
  }

  /** A small number in a wide field starts with zero bytes. */
  lemma {:induction false} BigEndianWide(v: nat, n: nat, k: nat)
    requires v < Pow(256, k)
    ensures BigEndian(v, n + k) == Zeros(n) + BigEndian(v, k)
    decreases k
  {
    if k == 0 {
      BigEndianOfZero(n);
      assert BigEndian(v, n) == Zeros(n) + [];
    } else {
      BigEndianWide(v / 256, n, k - 1);
      assert Zeros(n) + BigEndian(v, k) == Zeros(n) + BigEndian(v / 256, k - 1) + [v % 256];
    }
  }

  /** Adding up to the end of a block. */
  lemma ModStep(n: nat, k: nat, block: nat)
    requires block > 0 && n % block + k <= block
    ensures (n + k) % block == if n % block + k == block then 0 else n % block + k
  {
    var q := n / block;
    assert n == q * block + n % block;
    if n % block + k == block {
      assert n + k == (q + 1) * block + 0;
      DivModUnique(n + k, block, q + 1, 0);
    } else {
      DivModUnique(n + k, block, q, n % block + k);
    }
  }

  lemma ModBlock(n: nat, block: nat)
    requires block > 0 && n >= block
    ensures (n - block) % block == n % block
  {
    ModAddMultiple(n - block, 1, block);
  }

  lemma {:induction false} FoldConcat<H>(alg: Algorithm<H>, h: H, a: seq<Byte>, b: seq<Byte>)
    requires alg.block > 0 && |a| % alg.block == 0
    ensures alg.Fold(h, a + b) == alg.Fold(alg.Fold(h, a), b)
    decreases |a|
  {
    if a == [] {
      assert a + b == b;
    } else if |a| < alg.block {
      SmallMod(|a|, alg.block);
    } else {
      ModBlock(|a|, alg.block);
      var next := alg.compress(h, a[..alg.block]);
      assert (a + b)[..alg.block] == a[..alg.block];
      assert (a + b)[alg.block..] == a[alg.block..] + b;
      FoldConcat(alg, next, a[alg.block..], b);
    }
  }

  /** Bytes short of a whole block leave the state alone; a whole block goes through the block function. */
  lemma FoldPiece<H>(alg: Algorithm<H>, h: H, a: seq<Byte>, b: seq<Byte>)
    requires alg.block > 0 && |a| % alg.block == 0 && |b| <= alg.block
    ensures alg.Fold(h, a + b) ==
            if |b| == alg.block then alg.compress(alg.Fold(h, a), b) else alg.Fold(h, a)
  {
    FoldConcat(alg, h, a, b);
    if |b| == alg.block {
      assert b[..alg.block] == b && b[alg.block..] == [];
    }
  }

  /** The bytes behind the last whole block. */
  function Tail(msg: seq<Byte>, block: nat): seq<Byte>
    requires block > 0
  {
    DivNonneg(|msg|, block);
    msg[|msg| - |msg| % block..]
  }

  /** What an engine keeps of the message: its length, the state after whole blocks, and the rest. */
  ghost predicate Keeps<H>(alg: Algorithm<H>, start: H, msg: seq<Byte>, h: H, length: nat, buffer: seq<Byte>)
    requires alg.block > 0
  {
    && length == |msg| && |buffer| == alg.block
    && h == alg.Fold(start, msg)
    && Tail(msg, alg.block) <= buffer
  }

  lemma WholePart(msg: seq<Byte>, block: nat)
    requires block > 0
    ensures 0 <= |msg| - |msg| % block && (|msg| - |msg| % block) % block == 0
    ensures msg == msg[..|msg| - |msg| % block] + Tail(msg, block)
  {
    var n := |msg|;
    assert n == n / block * block + n % block;
    DivNonneg(n, block);
    DivModUnique(n - n % block, block, n / block, 0);
  }

  /** Bytes up to the end of the pending block: they join the tail, or complete a block. */
  lemma FoldMore<H>(alg: Algorithm<H>, start: H, msg: seq<Byte>, piece: seq<Byte>)
    requires alg.block > 0 && piece != [] && |msg| % alg.block + |piece| <= alg.block
    ensures var full := |msg| % alg.block + |piece| == alg.block;
            && |msg + piece| % alg.block == (if full then 0 else |msg| % alg.block + |piece|)
            && Tail(msg + piece, alg.block) == (if full then [] else Tail(msg, alg.block) + piece)
            && alg.Fold(start, msg + piece) ==
               if full then alg.compress(alg.Fold(start, msg), Tail(msg, alg.block) + piece)
               else alg.Fold(start, msg)
  {
    WholePart(msg, alg.block);
    TailMore(msg, piece, alg.block);
    FoldBehind(alg, start, msg[..|msg| - |msg| % alg.block], Tail(msg, alg.block), piece, msg);
  }

  lemma FoldBehind<H>(alg: Algorithm<H>, start: H, whole: seq<Byte>, tail: seq<Byte>, piece: seq<Byte>, msg: seq<Byte>)
    requires alg.block > 0 && |whole| % alg.block == 0 && msg == whole + tail
    requires |tail| < alg.block && |tail| + |piece| <= alg.block
    ensures alg.Fold(start, msg + piece) ==
            if |tail| + |piece| == alg.block then alg.compress(alg.Fold(start, msg), tail + piece)
            else alg.Fold(start, msg)
  {
    Regroup(whole, tail, piece);
    FoldPiece(alg, start, whole, tail);
    FoldPiece(alg, start, whole, tail + piece);
  }

  lemma TailMore(msg: seq<Byte>, piece: seq<Byte>, block: nat)
    requires block > 0 && piece != [] && |msg| % block + |piece| <= block
    ensures |Tail(msg, block)| == |msg| % block
    ensures var full := |msg| % block + |piece| == block;
            && |msg + piece| % block == (if full then 0 else |msg| % block + |piece|)
            && Tail(msg + piece, block) == (if full then [] else Tail(msg, block) + piece)
  {
    ModStep(|msg|, |piece|, block);
    WholePart(msg, block);
  }

  /** Copying bytes behind the kept ones, at most to the end of the block, keeps the longer message. */
  lemma KeepMore<H>(alg: Algorithm<H>, start: H, msg: seq<Byte>, h: H, buffer: seq<Byte>,
                    piece: seq<Byte>, after: seq<Byte>)
    requires alg.block > 0 && Keeps(alg, start, msg, h, |msg|, buffer)
    requires piece != [] && |msg| % alg.block + |piece| <= alg.block && |after| == alg.block
    requires Tail(msg, alg.block) + piece <= after
    ensures Keeps(alg, start, msg + piece,
                  if (|msg| + |piece|) % alg.block == 0 then alg.compress(h, after) else h,
                  |msg| + |piece|, after)
  {
    FoldMore(alg, start, msg, piece);
    if |msg| % alg.block + |piece| == alg.block {
      assert after == Tail(msg, alg.block) + piece;
    }
  }

  /** A hash in progress; `start` and `message` record what has been fed since which state. */
  class Engine<H> {
    const alg: Algorithm<H>
    const buffer: array<Byte>
    var h: H
    var length: nat
    ghost var start: H
    ghost var message: seq<Byte>

    ghost predicate Valid()
      reads this, buffer
    {
      alg.Valid() && Keeps(alg, start, message, h, length, buffer[..])
    }

    constructor (alg: Algorithm<H>)
      requires alg.Valid()
      ensures this.alg == alg && start == alg.initial && message == []
      ensures Valid() && fresh(buffer)
    {
      this.alg := alg;
      buffer := new Byte[alg.block](_ => 0);
      h, length := alg.initial, 0;
      start, message := alg.initial, [];
    }

    /** Resumes from the state after whole blocks, whatever message `msg` led there. */
    constructor FromState(alg: Algorithm<H>, state: H, length: nat, ghost from: H, ghost msg: seq<Byte>)
      requires alg.Valid() && length % alg.block == 0
      requires length == |msg| && state == alg.Fold(from, msg)
      ensures this.alg == alg && start == from && message == msg
      ensures Valid() && fresh(buffer)
    {
      this.alg := alg;
      buffer := new Byte[alg.block](_ => 0);
      h, this.length := state, length;
      start, message := from, msg;
    }

    /** Feeds bytes: however they are cut into calls, the engine keeps their concatenation. */
    method Input(inp: seq<Byte>)
      requires Valid()
      modifies this, buffer
      ensures Valid() && start == old(start) && message == old(message) + inp
    {
      ghost var before := message;
      var rest := inp;
      while rest != []
        invariant Valid() && start == old(start)
        invariant message + rest == before + inp
        decreases |rest|
      {
        var count := Min(alg.block - length % alg.block, |rest|);
        ghost var fed := message;
        Feed(rest[..count]);
        assert fed + rest == fed + rest[..count] + rest[count..];
        rest := rest[count..];
      }
      assert message + [] == message;
    }

    /** Copies bytes that still fit the block behind the buffered ones. */
    method Feed(piece: seq<Byte>)
      requires Valid() && piece != [] && length % alg.block + |piece| <= alg.block
      modifies this, buffer
      ensures Valid() && start == old(start) && message == old(message) + piece
    {
      var at := length % alg.block;
      ghost var kept := buffer[..];
      CopyInto(buffer, at, piece);
      TailThen(message, alg.block, kept, piece, buffer[..]);
      KeepMore(alg, start, message, h, kept, piece, buffer[..]);
      length := length + |piece|;
      if length % alg.block == 0 {
        h := alg.compress(h, buffer[..]);
      }
      message := message + piece;
    }
  }

  lemma TailThen(msg: seq<Byte>, block: nat, kept: seq<Byte>, piece: seq<Byte>, after: seq<Byte>)
    requires block > 0 && |kept| == block && Tail(msg, block) <= kept
    requires |msg| % block + |piece| <= block
    requires after == kept[..|msg| % block] + piece + kept[|msg| % block + |piece|..]
    ensures Tail(msg, block) + piece <= after
  {
    WholePart(msg, block);
    assert |Tail(msg, block)| == |msg| % block;
    CopiedBehind(Tail(msg, block), kept, piece, kept[|msg| % block + |piece|..]);
  }

  lemma CopiedBehind<T>(tail: seq<T>, kept: seq<T>, piece: seq<T>, rest: seq<T>)
    requires tail <= kept
    ensures tail + piece <= kept[..|tail|] + piece + rest
  {
    assert kept[..|tail|] == tail;
  }

  method CopyInto(buffer: array<Byte>, at: nat, piece: seq<Byte>)
    requires at + |piece| <= buffer.Length
    modifies buffer
    ensures buffer[..] == old(buffer[..at]) + piece + old(buffer[at + |piece|..])
  {
    for i := 0 to |piece|
      invariant buffer[..at] == old(buffer[..at])
      invariant buffer[at..at + i] == piece[..i]
      invariant buffer[at + i..] == old(buffer[at + i..])
    {
      buffer[at + i] := piece[i];
    }
  }

  /** Feeds the stop byte and zeros until exactly the length field is missing; nothing underflows. */
  method FeedZeros<H>(e: Engine<H>)
    requires e.Valid()
    modifies e, e.buffer
    ensures e.Valid() && e.start == old(e.start)
    ensures e.message == old(e.message) + [0x80] + Zeros(ZeroCount(|old(e.message)| + 1 + e.alg.field, e.alg.block))
    ensures e.length % e.alg.block == e.alg.block - e.alg.field
  {
    ghost var n, stopped := |e.message|, e.message + [0x80];
    ghost var z := FeedStop(e);
    PadLength(n, e.alg.block, e.alg.field, z);
    var padLength: nat := e.alg.block - e.alg.field - e.length % e.alg.block;
    e.Input(Zeros(padLength));
    ZerosJoin(stopped, z, padLength);
  }

  /** Feeds the stop byte, and zeros into the next block where the length field no longer fits. */
  method FeedStop<H>(e: Engine<H>) returns (ghost z: nat)
    requires e.Valid()
    modifies e, e.buffer
    ensures e.Valid() && e.start == old(e.start) && e.message == old(e.message) + [0x80] + Zeros(z)
    ensures z == if (|old(e.message)| + 1) % e.alg.block > e.alg.block - e.alg.field then e.alg.block - e.alg.field else 0
  {
    var zeroes := e.alg.block - e.alg.field;
    z := 0;
    e.Input([0x80]);
    assert e.message + Zeros(0) == e.message;
    if e.length % e.alg.block > zeroes {
      e.Input(Zeros(zeroes));
      z := zeroes;
    }
  }

  lemma ZerosJoin(s: seq<Byte>, a: nat, b: nat)
    ensures s + Zeros(a) + Zeros(b) == s + Zeros(a + b)
  {
    assert Zeros(a) + Zeros(b) == Zeros(a + b);
  }

  /** Pads the message and runs the last blocks. */
  method FromEngine<H>(e: Engine<H>) returns (hash: seq<Byte>)
    requires e.Valid() && 8 * |e.message| < TWO_64
    modifies e, e.buffer
    ensures hash == e.alg.Digest(old(e.start), old(e.message))
  {
    var alg, dataLen := e.alg, e.length;
    FeedZeros(e);
    assert e.length % alg.block == alg.block - alg.field;
    e.Input(Zeros(alg.field - 8));
    e.Input(BigEndian(8 * dataLen, 8));
    PaddedParts(alg, old(e.message), ZeroCount(|old(e.message)| + 1 + alg.field, alg.block));
    assert e.length % alg.block == 0;
    hash := alg.output(e.h);
  }

  /** The zeros fed after the stop byte leave room for the length field and are as few as possible. */
  lemma PadLength(n: nat, block: nat, field: nat, z: nat)
    requires 0 < field && 2 * field <= block
    requires z == if (n + 1) % block > block - field then block - field else 0
    ensures var r := (n + 1 + z) % block;
            && r <= block - field
            && (n + 1 + z + (block - field - r)) % block == block - field
            && ZeroCount(n + 1 + field, block) == z + (block - field - r)
  {
    var r0 := (n + 1) % block;
    if z > 0 {
      ModStep(n + 1, block - r0, block);
      ModStep(n + 1 + (block - r0), r0 - field, block);
    }
    var r := (n + 1 + z) % block;
    ModStep(n + 1 + z, block - field - r, block);
    ModStep(n + 1 + z + (block - field - r), field, block);
    ZeroCountLeast(n + 1 + field, z + (block - field - r), block);
  }

  lemma PaddedParts<H>(alg: Algorithm<H>, msg: seq<Byte>, z: nat)
    requires alg.Valid() && 8 * |msg| < TWO_64 && ZeroCount(|msg| + 1 + alg.field, alg.block) == z
    ensures alg.Padded(msg)
         == msg + [0x80] + Zeros(z) + Zeros(alg.field - 8) + BigEndian(8 * |msg|, 8)
    ensures |alg.Padded(msg)| % alg.block == 0
  {
    Bytes8();
    BigEndianWide(8 * |msg|, alg.field - 8, 8);
    Regroup(msg + [0x80] + Zeros(z), Zeros(alg.field - 8), BigEndian(8 * |msg|, 8));
  }

  lemma Regroup<T>(a: seq<T>, b: seq<T>, c: seq<T>)
    ensures a + (b + c) == a + b + c
  {
  }

  /** No two messages share their padded form. */
  lemma PaddedInjective<H>(alg: Algorithm<H>, a: seq<Byte>, b: seq<Byte>)
    requires alg.Valid() && 8 * |a| < TWO_64 && 8 * |b| < TWO_64
    requires alg.Padded(a) == alg.Padded(b)
    ensures a == b
  {
    SameLength(alg, a, b, alg.Padded(a));
    LastEight(alg, a);
    LastEight(alg, b);
  }

  lemma SameLength<H>(alg: Algorithm<H>, a: seq<Byte>, b: seq<Byte>, padded: seq<Byte>)
    requires alg.Valid() && 8 * |a| < TWO_64 && 8 * |b| < TWO_64
    requires alg.Padded(a) == padded && alg.Padded(b) == padded
    ensures |a| == |b|
  {
    LastEight(alg, a);
    LastEight(alg, b);
    EightBytesUnique(8 * |a|, 8 * |b|);
  }

  lemma EightBytesUnique(v: nat, w: nat)
    requires v < TWO_64 && w < TWO_64 && BigEndian(v, 8) == BigEndian(w, 8)
    ensures v == w
  {
    Bytes8();
    BigEndianValue(v, 8);
    BigEndianValue(w, 8);
  }

  lemma LastEight<H>(alg: Algorithm<H>, msg: seq<Byte>)
    requires alg.Valid() && 8 * |msg| < TWO_64
    ensures |alg.Padded(msg)| >= |msg| + 8 && msg <= alg.Padded(msg)
    ensures alg.Padded(msg)[|alg.Padded(msg)| - 8..] == BigEndian(8 * |msg|, 8)
  {
    PaddedParts(alg, msg, ZeroCount(|msg| + 1 + alg.field, alg.block));
  }

  lemma Bytes8()
    ensures Pow(256, 8) == TWO_64
  {
    assert Pow(256, 4) == TWO_32;
    PowAdd(256, 4, 4);
  }

  /** One-shot hashing. */
  method HashBytes<H>(alg: Algorithm<H>, data: seq<Byte>) returns (hash: seq<Byte>)
    requires alg.Valid() && 8 * |data| < TWO_64
    ensures hash == alg.Hash(data)
  {
    var engine := new Engine(alg);
    engine.Input(data);
    assert [] + data == data;
    hash := FromEngine(engine);
  }

  function Concat(chunks: seq<seq<Byte>>): seq<Byte> {
    if chunks == [] then [] else Concat(chunks[..|chunks| - 1]) + chunks[|chunks| - 1]
  }

  /** Hashing chunks is hashing their concatenation. */
  method HashByteChunks<H>(alg: Algorithm<H>, chunks: seq<seq<Byte>>) returns (hash: seq<Byte>)
    requires alg.Valid() && 8 * |Concat(chunks)| < TWO_64
    ensures hash == alg.Hash(Concat(chunks))
  {
    var engine := new Engine(alg);
    InputChunks(engine, chunks);
    assert [] + Concat(chunks) == Concat(chunks);
    hash := FromEngine(engine);
  }

  /** Feeds chunks one call each. */
  method InputChunks<H>(e: Engine<H>, chunks: seq<seq<Byte>>)
    requires e.Valid()
    modifies e, e.buffer
    ensures e.Valid() && e.start == old(e.start) && e.message == old(e.message) + Concat(chunks)
  {
    ghost var before := e.message;
    assert before + [] == before;
    for i := 0 to |chunks|
      invariant e.Valid() && e.start == old(e.start) && e.message == before + Concat(chunks[..i])
    {
      assert chunks[..i + 1][..i] == chunks[..i];
      assert before + Concat(chunks[..i]) + chunks[i] == before + (Concat(chunks[..i]) + chunks[i]);
      e.Input(chunks[i]);
    }
    assert chunks[..|chunks|] == chunks;
  }
}
