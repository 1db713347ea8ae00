/** SipHash-2-4 as a streaming engine over 64-bit little-endian words. */
module SipHash {
  import opened Arith
  import opened Bits
  import opened Radix
  import opened HashEngine
  import opened Words

  /** The 64-bit number of up to eight bytes, least significant first. */
  function LoadLE(s: seq<Byte>): (v: U64)
    requires |s| <= 8
    ensures v == ValueLE(s, 256)
  {
    ValueLEBound(s, 256);
    PowMono(256, |s|, 8);
    Bytes8();
    ValueLE(s, 256)
  }

  lemma {:induction false} Pow256(n: nat)
    ensures Pow(256, n) == Pow(2, 8 * n)
  {
    if n > 0 {
      Pow256(n - 1);
      Pow2To8();
      PowAdd(2, 8, 8 * (n - 1));
    }
  }

  /** Or-ing bytes in above others joins the two byte strings. */
  lemma JoinLE(a: seq<Byte>, b: seq<Byte>)
    ensures Or(ValueLE(a, 256), Shl(ValueLE(b, 256), 8 * |a|)) == ValueLE(a + b, 256)
  {
    var k, x, y := 8 * |a|, ValueLE(a, 256), ValueLE(b, 256);
    ValueLEBound(a, 256);
    Pow256(|a|);
    FitsIsBelow(x, k);
    ShlAlone(y, k);
    OrDisjoint(Shl(y, k), x, k);
    OrSymmetric(x, Shl(y, k));
    ShlIsMul(y, k);
    ValueLEConcat(a, b, 256);
  }

  /** As `JoinLE`, with the shift cut to 64 bits. */
  lemma JoinWord(a: seq<Byte>, b: seq<Byte>)
    requires |a| + |b| <= 8
    ensures Or(ValueLE(a, 256), Low(Shl(ValueLE(b, 256), 8 * |a|), 64)) == ValueLE(a + b, 256)
  {
    JoinLE(a, b);
    ShiftKept(ValueLE(b, 256), |b|, |a|, b);
  }

  lemma ShiftKept(y: nat, n: nat, m: nat, b: seq<Byte>)
    requires y == ValueLE(b, 256) && |b| == n && m + n <= 8
    ensures Low(Shl(y, 8 * m), 64) == Shl(y, 8 * m)
  {
    ValueLEBound(b, 256);
    Pow256(n);
    FitsIsBelow(y, 8 * n);
    ShlFits(y, 8 * n, 8 * m);
    FitsMore(Shl(y, 8 * m), 8 * n + 8 * m, 64);
    LowSmall(Shl(y, 8 * m), 64);
  }

  /** Loads up to seven bytes by a four-byte, a two-byte and a one-byte load. */
  method U8To64(buf: seq<Byte>, start: nat, len: nat) returns (out: U64)
    requires len < 8 && start + len <= |buf|
    ensures out == LoadLE(buf[start..start + len])
  {
    var i := 0;
    out := 0;
    assert buf[start..start] == [];
    if i + 3 < len {
      out := LoadLE(buf[start..start + 4]);
      i := i + 4;
    }
    if i + 1 < len {
      out := OrLoad(buf, start, i, 2, out);
      i := i + 2;
    }
    if i < len {
      out := OrLoad(buf, start, i, 1, out);
      i := i + 1;
    }
  }

  /** Or-s the `n` bytes at `start + i` into a number holding the `i` bytes before them. */
  method OrLoad(buf: seq<Byte>, start: nat, i: nat, n: nat, out: U64) returns (r: U64)
    requires i + n < 8 && start + i + n <= |buf| && out == LoadLE(buf[start..start + i])
    ensures r == LoadLE(buf[start..start + i + n])
  {
    var a, b := buf[start..start + i], buf[start + i..start + i + n];
    JoinWord(a, b);
    assert a + b == buf[start..start + i + n];
    ghost var whole := LoadLE(a + b);
    r := Or(out, Low(Shl(LoadLE(b), i * 8), 64));
  }

  /** A hash in progress; `absorb` takes one word into the state. */
  class SipEngine<S> {
    const absorb: (S, U64) -> S
    var length: nat
    var state: S
    var tail: U64
    var ntail: nat
    ghost var start: S
    ghost var message: seq<Byte>

    ghost predicate Valid()
      reads this
    {
      && length == |message|
      && state == Mixer(absorb, start).Fold(start, message)
      && ntail == |message| % 8 && tail == LoadLE(Tail(message, 8))
    }

    /** No word is pending; the tail is about to be overwritten. */
    ghost predicate Aligned()
      reads this
    {
      && length == |message| && ntail == 0 && |message| % 8 == 0
      && state == Mixer(absorb, start).Fold(start, message)
    }

    constructor (absorb: (S, U64) -> S, initial: S)
      ensures Valid() && this.absorb == absorb && start == initial && message == []
    {
      this.absorb := absorb;
      length, state, tail, ntail := 0, initial, 0, 0;
      start, message := initial, [];
    }

    /** Feeds bytes: first fills the pending word, then whole words, then keeps the rest. */
    method Input(msg: seq<Byte>)
      requires Valid()
      modifies this
      ensures Valid() && start == old(start) && message == old(message) + msg
    {
      var needed := 0;
      if ntail != 0 {
        needed := 8 - ntail;
        if |msg| < needed {
          AppendTail(msg);
          return;
        }
        FillTail(msg[..needed]);
      } else {
        assert message + msg[..0] == message;
      }
      Rejoin(old(message), msg, needed, message);
      InputWords(msg, needed, |msg| - needed);
    }

    /** Bytes that do not complete the pending word. */
    method AppendTail(piece: seq<Byte>)
      requires Valid() && 0 < ntail && ntail + |piece| < 8
      modifies this
      ensures Valid() && start == old(start) && message == old(message) + piece
    {
      var word := U8To64(piece, 0, |piece|);
      assert piece[0..0 + |piece|] == piece;
      TailGrows(Mixer(absorb, start), start, message, piece);
      length := length + |piece|;
      tail := Or(tail, Low(Shl(word, 8 * ntail), 64));
      ntail := ntail + |piece|;
      message := message + piece;
    }

    /** Bytes that complete the pending word, which then goes into the state. */
    method FillTail(piece: seq<Byte>)
      requires Valid() && 0 < ntail && ntail + |piece| == 8
      modifies this
      ensures Aligned() && start == old(start) && message == old(message) + piece
    {
      FoldMore(Mixer(absorb, start), start, message, piece);
      var word := U8To64(piece, 0, |piece|);
      assert piece[0..0 + |piece|] == piece;
      JoinWord(Tail(message, 8), piece);
      ghost var whole := LoadLE(Tail(message, 8) + piece);
      tail := Or(tail, Low(Shl(word, 8 * ntail), 64));
      state := absorb(state, tail);
      length := length + |piece|;
      ntail := 0;
      message := message + piece;
    }

    /** The word loop and the bytes behind it, once no word is pending. */
    method InputWords(msg: seq<Byte>, needed: nat, len: nat)
      requires Aligned() && needed < 8 && needed + len == |msg|
      modifies this
      ensures Valid() && start == old(start) && message == old(message) + msg[needed..]
    {
      var left := len % 8;
      var i := needed;
      ghost var before := message;
      assert before + msg[needed..needed] == before;
      while i < len - left
        invariant Aligned() && start == old(start)
        invariant InLoop(needed, len, i)
        invariant message == before + msg[needed..i]
      {
        LoopBound(needed, len, left, i);
        AbsorbWord(msg[i..i + 8]);
        Extend(before, msg, needed, i, i + 8);
        i := i + 8;
      }
      LoopEnd(needed, len, left, i);
      var word := U8To64(msg, i, left);
      KeepRest(msg[i..i + left], word);
      Extend(before, msg, needed, i, i + left);
      assert msg[needed..|msg|] == msg[needed..];
    }

    method AbsorbWord(piece: seq<Byte>)
      requires Aligned() && |piece| == 8
      modifies this
      ensures Aligned() && start == old(start) && message == old(message) + piece
    {
      FoldMore(Mixer(absorb, start), start, message, piece);
      assert [] + piece == piece;
      state := absorb(state, LoadLE(piece));
      length := length + 8;
      message := message + piece;
    }

    method KeepRest(piece: seq<Byte>, word: U64)
      requires Aligned() && |piece| < 8 && word == LoadLE(piece)
      modifies this
      ensures Valid() && start == old(start) && message == old(message) + piece
    {
      if piece == [] {
        assert message + piece == message;
      } else {
        FoldMore(Mixer(absorb, start), start, message, piece);
        assert [] + piece == piece;
      }
      tail, ntail, length := word, |piece|, length + |piece|;
      message := message + piece;
    }
  }

  /** Bytes that do not complete the pending word change only the tail. */
  lemma TailGrows<S>(alg: Algorithm<S>, start: S, msg: seq<Byte>, piece: seq<Byte>)
    requires alg.block == 8 && |msg| % 8 + |piece| < 8
    ensures |msg + piece| % 8 == |msg| % 8 + |piece| && Tail(msg + piece, 8) == Tail(msg, 8) + piece
    ensures alg.Fold(start, msg + piece) == alg.Fold(start, msg)
    ensures |Tail(msg, 8)| == |msg| % 8
    ensures Or(LoadLE(Tail(msg, 8)), Low(Shl(LoadLE(piece), 8 * (|msg| % 8)), 64)) == LoadLE(Tail(msg, 8) + piece)
  {
    if piece == [] {
      assert msg + piece == msg && Tail(msg, 8) + piece == Tail(msg, 8);
    } else {
      FoldMore(alg, start, msg, piece);
    }
    JoinWord(Tail(msg, 8), piece);
  }

  lemma Rejoin<T>(before: seq<T>, msg: seq<T>, n: nat, now: seq<T>)
    requires n <= |msg| && now == before + msg[..n]
    ensures now + msg[n..] == before + msg
  {
    assert msg[..n] + msg[n..] == msg;
  }

  lemma Extend<T>(before: seq<T>, msg: seq<T>, from: nat, i: nat, j: nat)
    requires from <= i <= j <= |msg|
    ensures before + msg[from..i] + msg[i..j] == before + msg[from..j]
  {
    assert msg[from..i] + msg[i..j] == msg[from..j];
  }

  /** Where the word loop may stand: after some whole words behind `needed`. */
  predicate InLoop(needed: nat, len: nat, i: nat) {
    needed <= i <= needed + len - len % 8 && (i - needed) % 8 == 0
  }

  /** Inside the loop a whole word is left to load. */
  lemma LoopBound(needed: nat, len: nat, left: nat, i: nat)
    requires needed < 8 && left == len % 8 && i < len - left && InLoop(needed, len, i)
    ensures InLoop(needed, len, i + 8)
  {
    var w, j := len / 8, (i - needed) / 8;
    assert len - left == 8 * w && i == needed + 8 * j;
  }

  /** The loop ends after exactly the whole words behind `needed`, whatever `needed` is. */
  lemma LoopEnd(needed: nat, len: nat, left: nat, i: nat)
    requires needed < 8 && left == len % 8 && InLoop(needed, len, i) && i >= len - left
    ensures i == needed + 8 * (len / 8) && i + left == needed + len
  {
    var w, j := len / 8, (i - needed) / 8;
    assert len - left == 8 * w && i == needed + 8 * j;
  }

  /** The word-wise view of a mixing function: blocks of eight bytes, read least significant first. */
  function Mixer<S>(absorb: (S, U64) -> S, initial: S): Algorithm<S> {
    Algorithm(8, 0, initial, (s, b) => if |b| == 8 then absorb(s, LoadLE(b)) else s, _ => [])
  }

  /** The message completed to whole words, as in section 2 of the SipHash paper. */
  function Completed(msg: seq<Byte>): seq<Byte> {
    msg + Zeros(7 - |msg| % 8) + [|msg| % 256]
  }

  /** The last word: the length byte on top of the pending bytes. */
  lemma LastWord<S>(absorb: (S, U64) -> S, start: S, msg: seq<Byte>, tail: U64)
    requires tail == LoadLE(Tail(msg, 8))
    ensures Or(Shl(|msg| % 256, 56), tail) < TWO_64
    ensures Mixer(absorb, start).Fold(start, Completed(msg))
         == absorb(Mixer(absorb, start).Fold(start, msg), Or(Shl(|msg| % 256, 56), tail))
  {
    var alg, t := Mixer(absorb, start), Tail(msg, 8);
    var fill, last := Zeros(7 - |msg| % 8), [|msg| % 256];
    LastBytes(t, fill, |msg| % 256);
    ghost var b := LoadLE(t + (fill + last));
    FoldMore(alg, start, msg, fill + last);
    Regroup(msg, fill, last);
  }

  lemma LastBytes(t: seq<Byte>, fill: seq<Byte>, top: Byte)
    requires |t| + |fill| == 7 && fill == Zeros(|fill|)
    ensures Or(Shl(top, 56), ValueLE(t, 256)) == ValueLE(t + (fill + [top]), 256)
  {
    ZerosAbove(t, |fill|);
    JoinLE(t + fill, [top]);
    SingleByte(top);
    OrSymmetric(ValueLE(t, 256), Shl(top, 56));
    Regroup(t, fill, [top]);
  }

  lemma SingleByte(b: Byte)
    ensures ValueLE([b], 256) == b
  {
  }

  lemma ZerosAbove(t: seq<Byte>, n: nat)
    ensures ValueLE(t + Zeros(n), 256) == ValueLE(t, 256)
  {
    ValueLEConcat(t, Zeros(n), 256);
    ZeroValue(n);
    ZeroTimes(ValueLE(Zeros(n), 256), Pow(256, |t|));
  }

  lemma ZeroTimes(a: nat, b: nat)
    requires a == 0
    ensures a * b == 0
  {
  }

  lemma {:induction false} ZeroValue(n: nat)
    ensures ValueLE(Zeros(n), 256) == 0
  {
    if n > 0 {
      ZeroValue(n - 1);
      assert Zeros(n)[1..] == Zeros(n - 1);
    }
  }

  // The mixing function.

  datatype SipState = SipState(v0: U64, v1: U64, v2: U64, v3: U64)

  function Add64(x: U64, y: U64): U64 { (x + y) % TWO_64 }

  function Xor64(x: U64, y: U64): U64 {
    Fits64(x);
    Fits64(y);
    XorFits(x, y, 64);
    Fits64(Xor(x, y));
    Xor(x, y)
  }

  function Rotl64(x: U64, n: nat): U64
    requires n <= 64
  {
    LowSmall(Shl(x, n), 64);
    ShrSmaller(x, 64 - n);
    Fits64(x);
    Fits64(Shr(x, 64 - n));
    OrFits(Low(Shl(x, n), 64), Shr(x, 64 - n), 64);
    Fits64(Or(Low(Shl(x, n), 64), Shr(x, 64 - n)));
    Or(Low(Shl(x, n), 64), Shr(x, 64 - n))
  }

  /** The sum loses at most one carry. */
  lemma XorIsBitwise(x: U64, y: U64, k: nat)
    ensures Bit(Xor64(x, y), k) <==> Bit(x, k) != Bit(y, k)
  {
    BitAt(x, y, k);
  }

  lemma AddIsSum(x: U64, y: U64)
    ensures Add64(x, y) == if x + y < TWO_64 then x + y else x + y - TWO_64
  {
  }

  /** A rotation as a number: the high bits move below the others. */
  lemma RotlIsTurn(x: U64, n: nat)
    requires n <= 64
    ensures Rotl64(x, n) == x * Pow(2, n) % TWO_64 + x / Pow(2, 64 - n)
  {
    Fits64(x);
    RotatedSum(x, 64 - n, 64);
    OrSymmetric(Low(Shl(x, n), 64), Shr(x, 64 - n));
    LowShl(x, n, 64);
    ShlIsMul(x, n);
    ShrIsDiv(Shl(x, n), 64);
    Pow2To64();
    ShrIsDiv(x, 64 - n);
  }

  /** One SipRound, in the order of the figure in section 2 of the SipHash paper. */
  function SipRound(s: SipState): SipState {
    var a0, a2 := Add64(s.v0, s.v1), Add64(s.v2, s.v3);
    var b1, b3 := Xor64(Rotl64(s.v1, 13), a0), Xor64(Rotl64(s.v3, 16), a2);
    var b0 := Rotl64(a0, 32);
    var c2, c0 := Add64(a2, b1), Add64(b0, b3);
    var d1, d3 := Xor64(Rotl64(b1, 17), c2), Xor64(Rotl64(b3, 21), c0);
    SipState(c0, d1, Rotl64(c2, 32), d3)
  }

  /** One round as the program assigns it. */
  method Round(s: SipState) returns (r: SipState)
    ensures r == SipRound(s)
  {
    var v0, v1, v2, v3 := s.v0, s.v1, s.v2, s.v3;
    v0 := Add64(v0, v1);
    v1 := Rotl64(v1, 13);
    v1 := Xor64(v1, v0);
    v0 := Rotl64(v0, 32);
    v2 := Add64(v2, v3);
    v3 := Rotl64(v3, 16);
    v3 := Xor64(v3, v2);
    v0 := Add64(v0, v3);
    v3 := Rotl64(v3, 21);
    v3 := Xor64(v3, v0);
    v2 := Add64(v2, v1);
    v1 := Rotl64(v1, 17);
    v1 := Xor64(v1, v2);
    v2 := Rotl64(v2, 32);
    r := SipState(v0, v1, v2, v3);
  }

  /** `n` rounds. */
  function SipRounds(s: SipState, n: nat): SipState {
    if n == 0 then s else SipRound(SipRounds(s, n - 1))
  }

  /** Compression of section 2.2 of the paper: `c` rounds between two exclusive ors with the word. */
  function Compress(c: nat, s: SipState, m: U64): SipState {
    var t := SipRounds(SipState(s.v0, s.v1, s.v2, Xor64(s.v3, m)), c);
    SipState(Xor64(t.v0, m), t.v1, t.v2, t.v3)
  }

  /** Finalization of section 2.3: 255 into the third register, `d` rounds, the exclusive or of all. */
  function Finish(d: nat, s: SipState): U64 {
    var t := SipRounds(SipState(s.v0, s.v1, Xor64(s.v2, 255), s.v3), d);
    Xor64(Xor64(Xor64(t.v0, t.v1), t.v2), t.v3)
  }

  /** Initialization of section 2.1: the key against the bytes of an ASCII string, most significant first. */
  function Initial(k0: U64, k1: U64): SipState {
    SipState(Xor64(k0, Ascii("somepseu")), Xor64(k1, Ascii("dorandom")),
             Xor64(k0, Ascii("lygenera")), Xor64(k1, Ascii("tedbytes")))
  }

  function Ascii(s: string): U64
    requires |s| == 8 && forall i :: 0 <= i < 8 ==> s[i] < 256 as char
  {
    AsciiFits(s, 8);
    Bytes8();
    AsciiValue(s, 8)
  }

  /** The number of the first `n` characters. */
  function AsciiValue(s: string, n: nat): nat
    requires n <= |s|
  {
    if n == 0 then 0 else 256 * AsciiValue(s, n - 1) + s[n - 1] as nat
  }

  lemma {:induction false} AsciiFits(s: string, n: nat)
    requires n <= |s| && forall i :: 0 <= i < n ==> s[i] < 256 as char
    ensures AsciiValue(s, n) < Pow(256, n)
  {
    if n > 0 {
      AsciiFits(s, n - 1);
    }
  }

  /** Two rounds, as the program runs them for a word. */
  function CRounds(s: SipState): SipState { SipRound(SipRound(s)) }

  /** Four rounds, as the program runs them at the end. */
  function DRounds(s: SipState): SipState { SipRound(SipRound(SipRound(SipRound(s)))) }

  /** How the program takes one word in. */
  function Absorb(s: SipState, m: U64): (r: SipState)
    ensures r == Compress(2, s, m)
  {
    RoundsAreRounds(s.(v3 := Xor64(s.v3, m)));
    var t := CRounds(s.(v3 := Xor64(s.v3, m)));
    t.(v0 := Xor64(t.v0, m))
  }

  /** How the program gets the result. */
  function Finalize(s: SipState): (r: U64)
    ensures r == Finish(4, s)
  {
    RoundsAreRounds(s.(v2 := Xor64(s.v2, 0xff)));
    var t := DRounds(s.(v2 := Xor64(s.v2, 0xff)));
    Xor64(Xor64(Xor64(t.v0, t.v1), t.v2), t.v3)
  }

  lemma RoundsAreRounds(s: SipState)
    ensures CRounds(s) == SipRounds(s, 2) && DRounds(s) == SipRounds(s, 4)
  {
    OneMoreRound(s, 0);
    OneMoreRound(s, 1);
    OneMoreRound(s, 2);
    OneMoreRound(s, 3);
  }

  lemma OneMoreRound(s: SipState, n: nat)
    ensures SipRounds(s, n + 1) == SipRound(SipRounds(s, n)) && SipRounds(s, 0) == s
  {
  }

  /** The engine's state for a key. */
  function Keyed(k0: U64, k1: U64): (r: SipState)
    ensures r == Initial(k0, k1)
  {
    InitialWords();
    SipState(Xor64(k0, 0x736f6d6570736575), Xor64(k1, 0x646f72616e646f6d),
             Xor64(k0, 0x6c7967656e657261), Xor64(k1, 0x7465646279746573))
  }

  lemma InitialWords()
    ensures Ascii("somepseu") == 0x736f6d6570736575 && Ascii("dorandom") == 0x646f72616e646f6d
    ensures Ascii("lygenera") == 0x6c7967656e657261 && Ascii("tedbytes") == 0x7465646279746573
  {
  }

  /** SipHash-2-4 of section 2 of the paper: compress every word of the completed message, finalize. */
  function SipHash24(k0: U64, k1: U64, msg: seq<Byte>): U64 {
    Finish(4, CompressWords(2, Initial(k0, k1), Completed(msg)))
  }

  /** Compression of all words of a byte string. */
  function CompressWords(c: nat, s: SipState, msg: seq<Byte>): SipState
    decreases |msg|
  {
    if |msg| < 8 then s else CompressWords(c, Compress(c, s, LoadLE(msg[..8])), msg[8..])
  }

  lemma {:induction false} FoldIsCompressWords(start: SipState, s: SipState, msg: seq<Byte>)
    ensures Mixer(Absorb, start).Fold(s, msg) == CompressWords(2, s, msg)
    decreases |msg|
  {
    if |msg| >= 8 {
      FoldIsCompressWords(start, Absorb(s, LoadLE(msg[..8])), msg[8..]);
    }
  }

  /** Finishing an engine absorbs the length and the pending bytes. */
  method FromEngineToU64<S>(e: SipEngine<S>, finalize: S -> U64) returns (hash: U64)
    requires e.Valid()
    ensures hash == finalize(Mixer(e.absorb, e.start).Fold(e.start, Completed(e.message)))
  {
    LastWord(e.absorb, e.start, e.message, e.tail);
    var b := Or(Shl(e.length % 256, 56), e.tail);
    hash := finalize(e.absorb(e.state, b));
  }

  /** However the message is cut into calls, the engine computes SipHash-2-4 of the whole. */
  method HashChunksToU64(k0: U64, k1: U64, chunks: seq<seq<Byte>>) returns (hash: U64)
    ensures hash == SipHash24(k0, k1, Concat(chunks))
  {
    var e := new SipEngine(Absorb, Keyed(k0, k1));
    FeedChunks(e, chunks);
    assert [] + Concat(chunks) == Concat(chunks);
    hash := FromEngineToU64(e, Finalize);
    FoldIsCompressWords(Keyed(k0, k1), Keyed(k0, k1), Completed(Concat(chunks)));
  }

  method FeedChunks<S>(e: SipEngine<S>, chunks: seq<seq<Byte>>)
    requires e.Valid()
    modifies e
    ensures e.Valid() && e.start == old(e.start) && e.message == old(e.message) + Concat(chunks)
  {
    ghost var before := e.message;
    assert before + [] == before;
    for i := 0 to |chunks|
      invariant e.Valid() && e.start == old(e.start) && e.message == before + Concat(chunks[..i])
    {
      assert chunks[..i + 1][..i] == chunks[..i];
      Regroup(before, Concat(chunks[..i]), chunks[i]);
      e.Input(chunks[i]);
    }
    assert chunks[..|chunks|] == chunks;
  }
}
