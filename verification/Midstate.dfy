/** The second, loop-only hash over 64-byte blocks, and tagged hashes resumed from its midstates. */
module Midstate {
  import opened Arith
  import opened Bits
  import opened Radix
  import opened HashEngine

  /** An algorithm with the block and length field of SHA-256. */
  predicate Narrow<H>(alg: Algorithm<H>) {
    alg.block == 64 && alg.field == 8
  }

  /** The byte at place `j` of a padded message of `total` bytes. */
  function PaddedAt(bytes: seq<Byte>, total: nat, j: nat): Byte
    requires |bytes| + 9 <= total && j < total
  {
    if j < |bytes| then bytes[j]
    else if j == |bytes| then 0x80
    else if j < total - 8 then 0
    else BigEndian(8 * |bytes|, 8)[j - (total - 8)]
  }

  function Chunks(n: nat): (c: nat)
    ensures n + 9 <= 64 * c < n + 73
  {
    (n + 9 + 63) / 64
  }

  lemma PaddedBytes<H>(alg: Algorithm<H>, bytes: seq<Byte>)
    requires Narrow(alg) && 8 * |bytes| < TWO_64
    ensures var total := 64 * Chunks(|bytes|);
            && |alg.Padded(bytes)| == total
            && forall j :: 0 <= j < total ==> alg.Padded(bytes)[j] == PaddedAt(bytes, total, j)
  {
    var n, total := |bytes|, 64 * Chunks(|bytes|);
    ZeroCountLeast(n + 9, total - n - 9, 64);
    assert alg.Padded(bytes) == bytes + [0x80] + Zeros(total - n - 9) + BigEndian(8 * n, 8);
  }

  lemma {:induction false} BigEndianAt(v: nat, k: nat, i: nat)
    requires i < k
    ensures BigEndian(v, k)[i] == Low(Shr(v, 8 * (k - 1 - i)), 8)
    decreases k
  {
    LowByte(v);
    if i < k - 1 {
      BigEndianAt(v / 256, k - 1, i);
      ShrShr(v, 8, 8 * (k - 2 - i));
    }
  }

  lemma LowByte(v: nat)
    ensures Low(v, 8) == v % 256 && Shr(v, 8) == v / 256
  {
    Pow2To8();
    ShrIsDiv(v, 8);
  }

  /** Writes a 64-bit number into the last eight bytes of a block by shifts and masks. */
  method WriteLength(buf: array<Byte>, bits: U64)
    requires buf.Length == 64
    modifies buf
    ensures forall k :: 0 <= k < 56 ==> buf[k] == old(buf[k])
    ensures forall k :: 56 <= k < 64 ==> buf[k] == BigEndian(bits, 8)[k - 56]
  {
    for i := 0 to 8
      invariant forall k :: 0 <= k < 56 ==> buf[k] == old(buf[k])
      invariant forall k :: 56 <= k < 56 + i ==> buf[k] == BigEndian(bits, 8)[k - 56]
    {
      BigEndianAt(bits, 8, i);
      LowMask(Shr(bits, 8 * (7 - i)));
      buf[56 + i] := And(Shr(bits, 8 * (7 - i)), 0xFF);
    }
  }

  lemma LowMask(v: nat)
    ensures And(v, 0xFF) == Low(v, 8) < 256
  {
    Pow2To8();
    AndMask(v, 8);
    LowByte(v);
  }

  /** Builds a block that the message does not fill: rest of the message, stop byte, zeros, length. */
  method PartialBlock(bytes: seq<Byte>, chunk: nat) returns (block: seq<Byte>)
    requires 8 * |bytes| < TWO_64 && chunk < Chunks(|bytes|) && 64 * chunk + 64 > |bytes|
    ensures |block| == 64
    ensures forall k :: 0 <= k < 64 ==> block[k] == PaddedAt(bytes, 64 * Chunks(|bytes|), 64 * chunk + k)
  {
    var buf := MarkedRest(bytes, chunk);
    if chunk + 1 == Chunks(|bytes|) {
      WriteLength(buf, |bytes| * 8);
    }
    block := buf[..];
    forall k | 0 <= k < 64
      ensures block[k] == PaddedAt(bytes, 64 * Chunks(|bytes|), 64 * chunk + k)
    {
      MarkedIsPadded(bytes, chunk, k);
    }
  }

  /** Only the last eight bytes of the last block differ from the marked message. */
  lemma MarkedIsPadded(bytes: seq<Byte>, chunk: nat, k: nat)
    requires chunk < Chunks(|bytes|) && k < 64
    ensures PaddedAt(bytes, 64 * Chunks(|bytes|), 64 * chunk + k) ==
            if chunk + 1 == Chunks(|bytes|) && k >= 56 then BigEndian(8 * |bytes|, 8)[k - 56]
            else Unmarked(bytes, 64 * chunk + k)
  {
  }

  /** The rest of the message in a block, with the stop byte where it belongs to this block. */
  method MarkedRest(bytes: seq<Byte>, chunk: nat) returns (buf: array<Byte>)
    requires chunk < Chunks(|bytes|) && 64 * chunk + 64 > |bytes|
    ensures fresh(buf) && buf.Length == 64
    ensures forall k :: 0 <= k < 64 ==> buf[k] == Unmarked(bytes, 64 * chunk + k)
  {
    var i;
    buf, i := CopyRest(bytes, chunk * 64);
    StopByteHere(|bytes|, chunk);
    if |bytes| % 64 <= 64 - 9 || chunk + 2 == Chunks(|bytes|) {
      buf[i] := 0x80;
    }
  }

  /** The stop byte belongs to the block exactly when the program's test says so. */
  lemma StopByteHere(n: nat, chunk: nat)
    requires chunk < Chunks(n) && 64 * chunk + 64 > n
    ensures n % 64 <= 64 - 9 || chunk + 2 == Chunks(n) <==> 64 * chunk <= n
  {
  }

  /** A byte of the padded message before the length is written into it. */
  function Unmarked(bytes: seq<Byte>, j: nat): Byte {
    if j < |bytes| then bytes[j] else if j == |bytes| then 0x80 else 0
  }

  /** Copies what the message has from `offset` on into a block of zeros; less than a block is left. */
  method CopyRest(bytes: seq<Byte>, offset: nat) returns (buf: array<Byte>, i: nat)
    requires |bytes| < offset + 64
    ensures fresh(buf) && buf.Length == 64 && i == if offset < |bytes| then |bytes| - offset else 0
    ensures forall k :: 0 <= k < 64 ==> buf[k] == if offset + k < |bytes| then bytes[offset + k] else 0
  {
    buf, i := new Byte[64](_ => 0), 0;
    while offset + i < |bytes|
      invariant 0 <= i < 64 && (i > 0 ==> offset + i <= |bytes|)
      invariant forall k :: 0 <= k < i ==> buf[k] == bytes[offset + k]
      invariant forall k :: i <= k < 64 ==> buf[k] == 0
    {
      buf[i] := bytes[offset + i];
      i := i + 1;
    }
  }

  /** Block `chunk` of the padded message. */
  function PaddedBlock(bytes: seq<Byte>, chunk: nat): (block: seq<Byte>)
    requires chunk < Chunks(|bytes|)
    ensures |block| == 64
    ensures forall k :: 0 <= k < 64 ==> block[k] == PaddedAt(bytes, 64 * Chunks(|bytes|), 64 * chunk + k)
  {
    seq<Byte>(64, k requires 0 <= k < 64 => PaddedAt(bytes, 64 * Chunks(|bytes|), 64 * chunk + k))
  }

  lemma PaddedBlockIs<H>(alg: Algorithm<H>, bytes: seq<Byte>, chunk: nat)
    requires Narrow(alg) && 8 * |bytes| < TWO_64 && chunk < Chunks(|bytes|)
    ensures |alg.Padded(bytes)| == 64 * Chunks(|bytes|)
    ensures alg.Padded(bytes)[64 * chunk..64 * chunk + 64] == PaddedBlock(bytes, chunk)
  {
    PaddedBytes(alg, bytes);
  }

  /** The bytes of a block: taken from the message where it fills the block, else built. */
  method BlockAt(bytes: seq<Byte>, chunk: nat) returns (block: seq<Byte>)
    requires 8 * |bytes| < TWO_64 && chunk < Chunks(|bytes|)
    ensures block == PaddedBlock(bytes, chunk)
  {
    if chunk * 64 + 64 <= |bytes| {
      block := bytes[chunk * 64..chunk * 64 + 64];
    } else {
      block := PartialBlock(bytes, chunk);
    }
    forall k | 0 <= k < 64
      ensures block[k] == PaddedBlock(bytes, chunk)[k]
    {
    }
  }

  /** Hashes without an engine; unfinalized, it stops before the last padded block. */
  method ConstHash<H>(alg: Algorithm<H>, bytes: seq<Byte>, finalize: bool) returns (state: H)
    requires Narrow(alg) && 8 * |bytes| < TWO_64
    ensures var padded := alg.Padded(bytes);
            && |padded| >= 64
            && state == alg.Fold(alg.initial, if finalize then padded else padded[..|padded| - 64])
  {
    var numChunks := Chunks(|bytes|);
    ghost var padded := alg.Padded(bytes);
    PaddedBytes(alg, bytes);
    state := alg.initial;
    var chunk := 0;
    while chunk < numChunks
      invariant chunk <= numChunks && |padded| == 64 * numChunks
      invariant state == alg.Fold(alg.initial, padded[..64 * chunk])
      invariant !finalize ==> chunk < numChunks
    {
      if !finalize && chunk + 1 == numChunks {
        break;
      }
      NextChunk(alg, bytes, chunk);
      var w := BlockAt(bytes, chunk);
      state := alg.compress(state, w);
      chunk := chunk + 1;
    }
    assert padded[..|padded|] == padded;
  }

  lemma NextChunk<H>(alg: Algorithm<H>, bytes: seq<Byte>, chunk: nat)
    requires Narrow(alg) && 8 * |bytes| < TWO_64 && chunk < Chunks(|bytes|)
    ensures |alg.Padded(bytes)| == 64 * Chunks(|bytes|)
    ensures alg.Fold(alg.initial, alg.Padded(bytes)[..64 * (chunk + 1)])
         == alg.compress(alg.Fold(alg.initial, alg.Padded(bytes)[..64 * chunk]), PaddedBlock(bytes, chunk))
  {
    PaddedBlockIs(alg, bytes, chunk);
    NextBlockIs(alg, alg.Padded(bytes), 64 * chunk, 64 * (chunk + 1), PaddedBlock(bytes, chunk));
  }

  lemma NextBlockIs<H>(alg: Algorithm<H>, padded: seq<Byte>, at: nat, next: nat, block: seq<Byte>)
    requires Narrow(alg) && at % 64 == 0 && next == at + 64 <= |padded| && block == padded[at..at + 64]
    ensures alg.Fold(alg.initial, padded[..next]) == alg.compress(alg.Fold(alg.initial, padded[..at]), block)
  {
    NextBlock(alg, padded, at);
  }

  lemma NextBlock<H>(alg: Algorithm<H>, padded: seq<Byte>, at: nat)
    requires Narrow(alg) && at % 64 == 0 && at + 64 <= |padded|
    ensures alg.Fold(alg.initial, padded[..at + 64])
         == alg.compress(alg.Fold(alg.initial, padded[..at]), padded[at..at + 64])
  {
    assert padded[..at + 64] == padded[..at] + padded[at..at + 64];
    FoldPiece(alg, alg.initial, padded[..at], padded[at..at + 64]);
  }

  /** The loop-only hash is the hash of the engine, for every message. */
  method ConstHashAgrees<H(==)>(alg: Algorithm<H>, chunks: seq<seq<Byte>>) returns (constHash: seq<Byte>, hash: seq<Byte>)
    requires Narrow(alg) && 8 * |Concat(chunks)| < TWO_64
    ensures constHash == hash == alg.Hash(Concat(chunks))
  {
    hash := HashByteChunks(alg, chunks);
    var state := ConstHash(alg, Concat(chunks), true);
    constHash := alg.output(state);
  }

  /**
   Unfinalized, up to 55 bytes behind the whole blocks do not show: the result is the state of an
   engine fed with the message. More bytes than that enter one further block, stop byte included.
   */
  lemma Unfinalized<H>(alg: Algorithm<H>, bytes: seq<Byte>)
    requires Narrow(alg) && 8 * |bytes| < TWO_64
    ensures |alg.Padded(bytes)| >= 64
    ensures alg.Fold(alg.initial, alg.Padded(bytes)[..|alg.Padded(bytes)| - 64]) ==
            if |bytes| % 64 <= 55 then alg.Fold(alg.initial, bytes)
            else alg.compress(alg.Fold(alg.initial, bytes), Tail(bytes, 64) + [0x80] + Zeros(63 - |bytes| % 64))
  {
    var at := |bytes| - |bytes| % 64;
    PaddedLength(alg, bytes);
    WholePart(bytes, 64);
    DropTail(alg, bytes, at);
    assert alg.Padded(bytes)[..at] == bytes[..at];
    if |bytes| % 64 > 55 {
      ExtraBlock(alg, bytes);
      NextBlock(alg, alg.Padded(bytes), at);
    }
  }

  lemma PaddedLength<H>(alg: Algorithm<H>, bytes: seq<Byte>)
    requires Narrow(alg) && 8 * |bytes| < TWO_64
    ensures |alg.Padded(bytes)| == |bytes| - |bytes| % 64 + (if |bytes| % 64 <= 55 then 64 else 128)
    ensures bytes <= alg.Padded(bytes)
  {
    LengthOfPadded(alg, bytes);
    ChunksOf(|bytes|);
    StartsPadded(alg, bytes);
  }

  lemma LengthOfPadded<H>(alg: Algorithm<H>, bytes: seq<Byte>)
    requires Narrow(alg) && 8 * |bytes| < TWO_64
    ensures |alg.Padded(bytes)| == 64 * Chunks(|bytes|)
  {
    PaddedBytes(alg, bytes);
  }

  lemma StartsPadded<H>(alg: Algorithm<H>, bytes: seq<Byte>)
    requires Narrow(alg) && 8 * |bytes| < TWO_64
    ensures bytes <= alg.Padded(bytes)
  {
    LastEight(alg, bytes);
  }

  lemma ChunksOf(n: nat)
    ensures 64 * Chunks(n) == n - n % 64 + (if n % 64 <= 55 then 64 else 128)
  {
  }

  lemma DropTail<H>(alg: Algorithm<H>, bytes: seq<Byte>, at: nat)
    requires Narrow(alg) && at == |bytes| - |bytes| % 64 && at % 64 == 0
    ensures alg.Fold(alg.initial, bytes) == alg.Fold(alg.initial, bytes[..at])
  {
    FoldPiece(alg, alg.initial, bytes[..at], bytes[at..]);
    assert bytes[..at] + bytes[at..] == bytes;
  }

  lemma ExtraBlock<H>(alg: Algorithm<H>, bytes: seq<Byte>)
    requires Narrow(alg) && 8 * |bytes| < TWO_64 && |bytes| % 64 > 55
    ensures var at := |bytes| - |bytes| % 64;
            && at + 64 <= |alg.Padded(bytes)|
            && alg.Padded(bytes)[at..at + 64] == Tail(bytes, 64) + [0x80] + Zeros(63 - |bytes| % 64)
  {
    var chunk := |bytes| / 64;
    PaddedBlockIs(alg, bytes, chunk);
    var block := Tail(bytes, 64) + [0x80] + Zeros(63 - |bytes| % 64);
    forall k | 0 <= k < 64
      ensures PaddedBlock(bytes, chunk)[k] == block[k]
    {
      MarkedIsPadded(bytes, chunk, k);
    }
  }

  /** Reads a state back from the bytes it was written as. */
  ghost predicate Reads<H(!new)>(alg: Algorithm<H>, parse: seq<Byte> -> H) {
    forall h :: parse(alg.output(h)) == h
  }

  /** The midstate after the tag's hash, taken twice. */
  method HashTag<H>(alg: Algorithm<H>, tag: seq<Byte>) returns (midstate: seq<Byte>)
    requires Narrow(alg) && 8 * |tag| < TWO_64 && |alg.Hash(tag)| == 32
    ensures midstate == alg.output(alg.Fold(alg.initial, alg.Hash(tag) + alg.Hash(tag)))
  {
    var state := ConstHash(alg, tag, true);
    var hash := alg.output(state);
    var buf := Doubled(hash);
    Unfinalized(alg, hash + hash);
    var mid := ConstHash(alg, buf, false);
    midstate := alg.output(mid);
  }

  /** Fills a block with a hash of 32 bytes, taken twice. */
  method Doubled(hash: seq<Byte>) returns (r: seq<Byte>)
    requires |hash| == 32
    ensures r == hash + hash
  {
    var buf, i := new Byte[64](_ => 0), 0;
    while i < buf.Length
      invariant i <= 64 && forall k :: 0 <= k < i ==> buf[k] == hash[k % |hash|]
    {
      buf[i] := hash[i % |hash|];
      i := i + 1;
    }
    r := buf[..];
  }

  /** An engine resumed from the midstate of a tag has been fed the tag's hash twice. */
  method TaggedEngine<H(!new)>(alg: Algorithm<H>, parse: seq<Byte> -> H, tag: seq<Byte>) returns (e: Engine<H>)
    requires Narrow(alg) && Reads(alg, parse) && 8 * |tag| < TWO_64 && |alg.Hash(tag)| == 32
    ensures fresh(e) && fresh(e.buffer) && e.Valid()
    ensures e.alg == alg && e.start == alg.initial && e.message == alg.Hash(tag) + alg.Hash(tag)
  {
    var midstate := HashTag(alg, tag);
    e := new Engine.FromState(alg, parse(midstate), 64, alg.initial, alg.Hash(tag) + alg.Hash(tag));
  }

  /** A tagged hash is the plain hash of the tag's hash twice and the message, as in BIP 340. */
  method TaggedHash<H(!new)>(alg: Algorithm<H>, parse: seq<Byte> -> H, tag: seq<Byte>, chunks: seq<seq<Byte>>)
    returns (hash: seq<Byte>)
    requires Narrow(alg) && Reads(alg, parse) && 8 * |tag| < TWO_64 && |alg.Hash(tag)| == 32
    requires 8 * (64 + |Concat(chunks)|) < TWO_64
    ensures hash == alg.Hash(alg.Hash(tag) + alg.Hash(tag) + Concat(chunks))
  {
    var e := TaggedEngine(alg, parse, tag);
    InputChunks(e, chunks);
    hash := FromEngine(e);
  }
}
