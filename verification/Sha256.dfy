/** SHA-256: the block function on bytes, and what engines, midstates and tags compute with it. */
module Sha256 {
  import opened Arith
  import opened Bits
  import opened Radix
  import opened HashEngine
  import opened Words
  import opened Sha256Block
  import opened Midstate

  lemma Bytes4()
    ensures Pow(256, 4) == TWO_32
  {
  }

  /** The word of four bytes, most significant first. */
  function BeWord(s: seq<Byte>): Word
    requires |s| == 4
  {
    ValueBound(s, 256);
    Bytes4();
    Value(s, 256)
  }

  /** Reading a written word gives it back. */
  lemma BeWordOfBytes(w: Word)
    ensures BeWord(BigEndian(w, 4)) == w
  {
    Bytes4();
    BigEndianValue(w, 4);
  }

  function WordsOf(block: seq<Byte>): (m: seq<Word>)
    requires |block| == 64
    ensures |m| == 16
  {
    seq(16, i requires 0 <= i < 16 => BeWord(block[4 * i..4 * i + 4]))
  }

  /** One byte or-ed in below the bytes above it. */
  lemma {:induction false} OrByte(h: nat, b: Byte, k: nat)
    ensures Or(Shl(h, 8 + k), Shl(b, k)) == Shl(256 * h + b, k)
    decreases k
  {
    if k == 0 {
      ShlAlone(h, 8);
      Fits8(b);
      OrDisjoint(Shl(h, 8), b, 8);
      Pow2To8();
      ShlIsMul(h, 8);
    } else {
      OrByte(h, b, k - 1);
      OrDoubles(Shl(h, 8 + k - 1), Shl(b, k - 1));
    }
  }

  lemma OrDoubles(a: nat, b: nat)
    ensures Or(2 * a, 2 * b) == 2 * Or(a, b)
  {
    OrBits(2 * a, 2 * b);
  }

  /** A word read by shifts and ors is the number its four bytes spell. */
  function ReadU32(bytes: seq<Byte>, index: nat): (w: Word)
    requires index + 4 <= |bytes|
    ensures w == BeWord(bytes[index..index + 4])
  {
    var b0, b1, b2, b3 := bytes[index], bytes[index + 1], bytes[index + 2], bytes[index + 3];
    ShiftedWord(b0, b1, b2, b3);
    assert bytes[index..index + 4] == [b0, b1, b2, b3];
    Or(Or(Or(Shl(b0, 24), Shl(b1, 16)), Shl(b2, 8)), Shl(b3, 0))
  }

  lemma ShiftedWord(b0: Byte, b1: Byte, b2: Byte, b3: Byte)
    ensures Or(Or(Or(Shl(b0, 24), Shl(b1, 16)), Shl(b2, 8)), Shl(b3, 0)) == BeWord([b0, b1, b2, b3])
  {
    OrByte(b0, b1, 16);
    OrByte(256 * b0 as nat + b1, b2, 8);
    OrByte(256 * (256 * b0 as nat + b1) + b2, b3, 0);
    Horner(b0, b1, b2, b3);
  }

  lemma Horner(b0: Byte, b1: Byte, b2: Byte, b3: Byte)
    ensures Value([b0, b1, b2, b3], 256) == 256 * (256 * (256 * b0 as nat + b1) + b2) + b3
  {
    assert [b0, b1, b2, b3] == [] + [b0] + [b1] + [b2] + [b3];
    ValuePush([], b0, 256);
    ValuePush([b0], b1, 256);
    ValuePush([b0] + [b1], b2, 256);
    ValuePush([b0] + [b1] + [b2], b3, 256);
  }

  /** The block function of section 6.2.2 of FIPS 180-4 on the bytes of a block. */
  function Compress(s: State, block: seq<Byte>): State {
    if |block| == 64 then NextHash(s, WordsOf(block)) else s
  }

  const INITIAL: State := State(0x6a09e667, 0xbb67ae85, 0x3c6ef372, 0xa54ff53a,
                                0x510e527f, 0x9b05688c, 0x1f83d9ab, 0x5be0cd19)

  /** The first 32 bits of the fractional part of a square root: `n` is the root times `2^32`, rounded down. */
  ghost predicate SquareRootBits(w: Word, p: nat) {
    exists n: nat :: IsSquareRoot(n, p) && n % TWO_32 == w
  }

  ghost predicate IsSquareRoot(n: nat, p: nat) {
    n * n <= p * TWO_64 < (n + 1) * (n + 1)
  }

  lemma SquareRoot(w: Word, p: nat, n: nat)
    requires n * n <= p * TWO_64 < (n + 1) * (n + 1) && n % TWO_32 == w
    ensures SquareRootBits(w, p)
  {
    assert IsSquareRoot(n, p);
  }

  /** The initial state is that of section 5.3.3: the square roots of the first eight primes. */
  lemma InitialIsSquareRoots()
    ensures SquareRootBits(INITIAL.a, 2) && SquareRootBits(INITIAL.b, 3)
    ensures SquareRootBits(INITIAL.c, 5) && SquareRootBits(INITIAL.d, 7)
    ensures SquareRootBits(INITIAL.e, 11) && SquareRootBits(INITIAL.f, 13)
    ensures SquareRootBits(INITIAL.g, 17) && SquareRootBits(INITIAL.h, 19)
  {
    SquareRoot(0x6a09e667, 2, 0x16a09e667);
    SquareRoot(0xbb67ae85, 3, 0x1bb67ae85);
    SquareRoot(0x3c6ef372, 5, 0x23c6ef372);
    SquareRoot(0xa54ff53a, 7, 0x2a54ff53a);
    SquareRoot(0x510e527f, 11, 0x3510e527f);
    SquareRoot(0x9b05688c, 13, 0x39b05688c);
    SquareRoot(0x1f83d9ab, 17, 0x41f83d9ab);
    SquareRoot(0x5be0cd19, 19, 0x45be0cd19);
  }

  function StateBytes(s: State): (r: seq<Byte>)
    ensures |r| == 32
  {
    BigEndian(s.a, 4) + BigEndian(s.b, 4) + BigEndian(s.c, 4) + BigEndian(s.d, 4) +
    BigEndian(s.e, 4) + BigEndian(s.f, 4) + BigEndian(s.g, 4) + BigEndian(s.h, 4)
  }

  /** The state that 32 bytes of a midstate stand for. */
  function ParseState(r: seq<Byte>): State {
    if |r| != 32 then INITIAL
    else State(BeWord(r[0..4]), BeWord(r[4..8]), BeWord(r[8..12]), BeWord(r[12..16]),
               BeWord(r[16..20]), BeWord(r[20..24]), BeWord(r[24..28]), BeWord(r[28..32]))
  }

  const ALGORITHM: Algorithm<State> := Algorithm(64, 8, INITIAL, Compress, StateBytes)

  /** SHA-256 as the standard defines it. */
  function Sha256(msg: seq<Byte>): seq<Byte> {
    ALGORITHM.Hash(msg)
  }

  /** The bytes of a state are its eight words in order, most significant byte first, and read back as such. */
  lemma ParseWritten(s: State)
    ensures var r := StateBytes(s);
            && BeWord(r[0..4]) == s.a && BeWord(r[4..8]) == s.b && BeWord(r[8..12]) == s.c && BeWord(r[12..16]) == s.d
            && BeWord(r[16..20]) == s.e && BeWord(r[20..24]) == s.f && BeWord(r[24..28]) == s.g && BeWord(r[28..32]) == s.h
    ensures ParseState(StateBytes(s)) == s
  {
    EightParts(BigEndian(s.a, 4), BigEndian(s.b, 4), BigEndian(s.c, 4), BigEndian(s.d, 4),
               BigEndian(s.e, 4), BigEndian(s.f, 4), BigEndian(s.g, 4), BigEndian(s.h, 4));
    BeWordOfBytes(s.a);
    BeWordOfBytes(s.b);
    BeWordOfBytes(s.c);
    BeWordOfBytes(s.d);
    BeWordOfBytes(s.e);
    BeWordOfBytes(s.f);
    BeWordOfBytes(s.g);
    BeWordOfBytes(s.h);
  }

  lemma EightParts<T>(a: seq<T>, b: seq<T>, c: seq<T>, d: seq<T>, e: seq<T>, f: seq<T>, g: seq<T>, h: seq<T>)
    requires |a| == |b| == |c| == |d| == |e| == |f| == |g| == |h| == 4
    ensures var r := a + b + c + d + e + f + g + h;
            && |r| == 32
            && r[0..4] == a && r[4..8] == b && r[8..12] == c && r[12..16] == d
            && r[16..20] == e && r[20..24] == f && r[24..28] == g && r[28..32] == h
  {
  }

  /** The program's block function, fed from the byte buffer. */
  method SoftwareProcessBlock(h: State, buffer: array<Byte>) returns (r: State)
    requires buffer.Length == 64
    ensures r == Compress(h, buffer[..])
  {
    var w := new Word[16](_ => 0);
    for i := 0 to 16
      invariant forall k :: 0 <= k < i ==> w[k] == WordsOf(buffer[..])[k]
    {
      w[i] := ReadU32(buffer[..], 4 * i);
    }
    assert w[..] == WordsOf(buffer[..]);
    r := ProcessWords(h, w);
  }

  /** The sixteen words of 64 bytes, read by shifts and ors. */
  method CopyWords(bytes: seq<Byte>, index: nat) returns (w: array<Word>)
    requires index + 64 <= |bytes|
    ensures fresh(w) && w.Length == 16 && w[..] == WordsOf(bytes[index..index + 64])
  {
    ghost var block := bytes[index..index + 64];
    w := new Word[16](_ => 0);
    for i := 0 to 16
      invariant forall k :: 0 <= k < i ==> w[k] == WordsOf(block)[k]
    {
      FourOf(bytes, index, i);
      w[i] := ReadU32(bytes, index + 4 * i);
    }
    assert w[..] == WordsOf(block);
  }

  lemma FourOf(bytes: seq<Byte>, index: nat, i: nat)
    requires index + 64 <= |bytes| && i < 16
    ensures bytes[index + 4 * i..index + 4 * i + 4] == bytes[index..index + 64][4 * i..4 * i + 4]
  {
    var block, four := bytes[index..index + 64], bytes[index + 4 * i..index + 4 * i + 4];
    forall j | 0 <= j < 4
      ensures block[4 * i..4 * i + 4][j] == four[j]
    {
      assert block[4 * i + j] == bytes[index + 4 * i + j];
    }
  }

  /** An algorithm with the block function of the standard. */
  ghost predicate Compresses(alg: Algorithm<State>) {
    Narrow(alg) && forall s, b {:trigger Compress(s, b)} :: alg.compress(s, b) == Compress(s, b)
  }

  /** One round of the block loop: the next block of the padded message goes through the rounds. */
  method HashChunk(state: State, bytes: seq<Byte>, chunk: nat, ghost alg: Algorithm<State>) returns (r: State)
    requires 8 * |bytes| < TWO_64 && chunk < Chunks(|bytes|) && Compresses(alg)
    ensures r == alg.compress(state, PaddedBlock(bytes, chunk))
  {
    var block := BlockAt(bytes, chunk);
    r := CompressWords(state, block);
    SameCompress(alg, state, block);
  }

  lemma SameCompress(alg: Algorithm<State>, state: State, block: seq<Byte>)
    requires Compresses(alg)
    ensures alg.compress(state, block) == Compress(state, block)
  {
  }

  /** The rounds on the words of a block. */
  method CompressWords(state: State, block: seq<Byte>) returns (r: State)
    requires |block| == 64
    ensures r == Compress(state, block)
  {
    var w := CopyWords(block, 0);
    assert block[0..0 + 64] == block;
    assert w[..] == WordsOf(block);
    r := ProcessWords(state, w);
  }

  function StateWords(s: State): (ws: seq<Word>)
    ensures |ws| == 8
  {
    [s.a, s.b, s.c, s.d, s.e, s.f, s.g, s.h]
  }

  lemma StateBytesAt(s: State, i: nat)
    requires i < 8
    ensures StateBytes(s)[4 * i..4 * i + 4] == BigEndian(StateWords(s)[i], 4)
  {
    EightParts(BigEndian(s.a, 4), BigEndian(s.b, 4), BigEndian(s.c, 4), BigEndian(s.d, 4),
               BigEndian(s.e, 4), BigEndian(s.f, 4), BigEndian(s.g, 4), BigEndian(s.h, 4));
  }

  /** Writes a state byte by byte, by shifts and truncation. */
  method WriteState(s: State) returns (output: seq<Byte>)
    ensures output == StateBytes(s)
  {
    output := [];
    for i := 0 to 8
      invariant output == StateBytes(s)[..4 * i]
    {
      var bytes := WriteWord(StateWords(s)[i]);
      StateBytesAt(s, i);
      assert StateBytes(s)[..4 * i + 4] == StateBytes(s)[..4 * i] + StateBytes(s)[4 * i..4 * i + 4];
      output := output + bytes;
    }
    assert StateBytes(s)[..32] == StateBytes(s);
  }

  method WriteWord(w: Word) returns (bytes: seq<Byte>)
    ensures bytes == BigEndian(w, 4)
  {
    BigEndianAt(w, 4, 0);
    BigEndianAt(w, 4, 1);
    BigEndianAt(w, 4, 2);
    BigEndianAt(w, 4, 3);
    bytes := [Low(Shr(w, 24), 8), Low(Shr(w, 16), 8), Low(Shr(w, 8), 8), Low(Shr(w, 0), 8)];
  }

  /** The block loop with its own rounds; unfinalized, it stops before the last block. */
  method HashChunks(bytes: seq<Byte>, finalize: bool, ghost alg: Algorithm<State>) returns (state: State)
    requires 8 * |bytes| < TWO_64 && Compresses(alg) && alg.initial == INITIAL
    ensures var padded := alg.Padded(bytes);
            && |padded| >= 64
            && state == alg.Fold(INITIAL, if finalize then padded else padded[..|padded| - 64])
  {
    var numChunks, chunk := Chunks(|bytes|), 0;
    ghost var padded := alg.Padded(bytes);
    PaddedBytes(alg, bytes);
    state := INITIAL;
    while chunk < numChunks
      invariant chunk <= numChunks && |padded| == 64 * numChunks
      invariant state == alg.Fold(INITIAL, padded[..64 * chunk])
      invariant !finalize ==> chunk < numChunks
    {
      if !finalize && chunk + 1 == numChunks {
        break;
      }
      NextChunk(alg, bytes, chunk);
      state := HashChunk(state, bytes, chunk, alg);
      chunk := chunk + 1;
    }
    assert padded[..|padded|] == padded;
  }

  /** The loop-only SHA-256: finalized, it is SHA-256; unfinalized, the state before the last padded block. */
  method ConstSha256(bytes: seq<Byte>, finalize: bool) returns (output: seq<Byte>)
    requires 8 * |bytes| < TWO_64
    ensures finalize ==> output == Sha256(bytes)
    ensures var padded := ALGORITHM.Padded(bytes);
            && |padded| >= 64
            && (!finalize ==> output == StateBytes(ALGORITHM.Fold(INITIAL, padded[..|padded| - 64])))
  {
    var state := HashChunks(bytes, finalize, ALGORITHM);
    output := WriteState(state);
  }

  /** A tagged hash, by whichever calls the message is fed: SHA-256 over the tag's hash twice and the message. */
  method TaggedSha256(tag: seq<Byte>, chunks: seq<seq<Byte>>) returns (hash: seq<Byte>)
    requires 8 * |tag| < TWO_64 && 8 * (64 + |Concat(chunks)|) < TWO_64
    ensures hash == Sha256(Sha256(tag) + Sha256(tag) + Concat(chunks))
  {
    forall h: State
      ensures ParseState(StateBytes(h)) == h
    {
      ParseWritten(h);
    }
    hash := TaggedHash(ALGORITHM, ParseState, tag, chunks);
  }
}
