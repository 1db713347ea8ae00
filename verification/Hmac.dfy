/** Keyed hashing: two engines, each fed the key under its own pad, compute the HMAC of RFC 2104. */
module Hmac {
  import opened Arith
  import opened Bits
  import opened Radix
  import opened HashEngine
  import opened Words

  function ByteXor(x: Byte, y: Byte): Byte {
    Fits8(x);
    Fits8(y);
    XorFits(x, y, 8);
    Fits8(Xor(x, y));
    Xor(x, y)
  }

  lemma ByteXorIsBitwise(x: Byte, y: Byte, k: nat)
    ensures Bit(ByteXor(x, y), k) <==> Bit(x, k) != Bit(y, k)
  {
    BitAt(x, y, k);
  }

  lemma {:induction false} XorSymmetric(a: nat, b: nat)
    ensures Xor(a, b) == Xor(b, a)
    decreases a + b
  {
    if a > 0 || b > 0 {
      XorSymmetric(a / 2, b / 2);
    }
  }

  lemma {:induction false} XorZero(a: nat)
    ensures Xor(0, a) == a
  {
    if a > 0 {
      XorZero(a / 2);
    }
  }

  /** The key of section 2 of RFC 2104: hashed when longer than a block, then filled up with zeros. */
  function BlockKey<H>(alg: Algorithm<H>, key: seq<Byte>): seq<Byte>
    requires alg.Valid()
  {
    FitTo(if |key| > alg.block then alg.Hash(key) else key, alg.block)
  }

  /** Bytes filled up with zeros; hashes are not longer than a block, so nothing is cut from them. */
  function FitTo(s: seq<Byte>, block: nat): (r: seq<Byte>)
    ensures |r| == block
  {
    if |s| <= block then s + Zeros(block - |s|) else s[..block]
  }

  function XorAll(s: seq<Byte>, pad: Byte): (r: seq<Byte>)
    ensures |r| == |s|
  {
    seq(|s|, i requires 0 <= i < |s| => ByteXor(s[i], pad))
  }

  // What the program fills its pads with.
  const IPAD: Byte := 0x36
  const OPAD: Byte := 0x5c

  function InnerText<H>(alg: Algorithm<H>, key: seq<Byte>, msg: seq<Byte>): seq<Byte>
    requires alg.Valid()
  {
    XorAll(BlockKey(alg, key), 0x36) + msg
  }

  /** The keyed hash of section 2 of RFC 2104. */
  function HmacOf<H>(alg: Algorithm<H>, key: seq<Byte>, msg: seq<Byte>): seq<Byte>
    requires alg.Valid()
  {
    alg.Hash(XorAll(BlockKey(alg, key), 0x5c) + alg.Hash(InnerText(alg, key, msg)))
  }

  /** Xors bytes into the front of a pad; bytes beyond either end do not count. */
  method XorInto(pad: array<Byte>, bytes: seq<Byte>)
    modifies pad
    ensures forall i :: 0 <= i < pad.Length ==>
              pad[i] == if i < |bytes| then ByteXor(old(pad[i]), bytes[i]) else old(pad[i])
  {
    for k := 0 to Min(pad.Length, |bytes|)
      invariant forall i :: 0 <= i < pad.Length ==>
                  pad[i] == if i < k then ByteXor(old(pad[i]), bytes[i]) else old(pad[i])
    {
      pad[k] := ByteXor(pad[k], bytes[k]);
    }
  }

  /** A pad of 128 bytes, with the key in its front, holds the padded key in its first block. */
  method KeyedPad(fill: Byte, bytes: seq<Byte>, block: nat) returns (r: seq<Byte>)
    requires block <= 128
    ensures r == XorAll(FitTo(bytes, block), fill)
  {
    var pad := new Byte[128](_ => fill);
    XorInto(pad, bytes);
    r := pad[..block];
    forall i | 0 <= i < block
      ensures r[i] == ByteXor(FitTo(bytes, block)[i], fill)
    {
      if i < |bytes| {
        XorSymmetric(fill, bytes[i]);
      } else {
        XorZero(fill);
      }
    }
  }

  /** The inner and outer pad of a key of any length. */
  method Pads<H>(alg: Algorithm<H>, key: seq<Byte>) returns (ipad: seq<Byte>, opad: seq<Byte>)
    requires alg.Valid() && alg.block <= 128 && 8 * |key| < TWO_64
    ensures ipad == XorAll(BlockKey(alg, key), 0x36) && opad == XorAll(BlockKey(alg, key), 0x5c)
  {
    var bytes := key;
    if |key| > alg.block {
      bytes := HashBytes(alg, key);
    }
    ipad := KeyedPad(IPAD, bytes, alg.block);
    opad := KeyedPad(OPAD, bytes, alg.block);
  }

  /** A new engine that has been fed one pad. */
  method Primed<H>(alg: Algorithm<H>, pad: seq<Byte>) returns (e: Engine<H>)
    requires alg.Valid()
    ensures fresh(e) && fresh(e.buffer) && e.Valid()
    ensures e.alg == alg && e.start == alg.initial && e.message == pad
  {
    e := new Engine(alg);
    e.Input(pad);
    assert [] + pad == pad;
  }

  class HmacEngine<H> {
    const iengine: Engine<H>
    const oengine: Engine<H>
    ghost const key: seq<Byte>
    ghost var message: seq<Byte>

    ghost predicate Separate()
      reads this
    {
      iengine != oengine && iengine.buffer != oengine.buffer
    }

    /** The inner engine holds the inner text so far, the outer one the outer pad. */
    ghost predicate Valid()
      reads this, iengine, iengine.buffer, oengine, oengine.buffer
    {
      && Separate() && iengine.Valid() && oengine.Valid() && iengine.alg == oengine.alg
      && iengine.start == iengine.alg.initial && iengine.message == InnerText(iengine.alg, key, message)
      && oengine.start == iengine.alg.initial && oengine.message == XorAll(BlockKey(iengine.alg, key), 0x5c)
    }

    /** Keys of any length. */
    constructor (alg: Algorithm<H>, key: seq<Byte>)
      requires alg.Valid() && alg.block <= 128 && 8 * |key| < TWO_64
      ensures Valid() && iengine.alg == alg && this.key == key && message == []
      ensures fresh(iengine) && fresh(oengine) && fresh(iengine.buffer) && fresh(oengine.buffer)
    {
      var ipad, opad := Pads(alg, key);
      var inner := Primed(alg, ipad);
      var outer := Primed(alg, opad);
      iengine, oengine := inner, outer;
      this.key, message := key, [];
      assert ipad + [] == ipad;
    }

    method Input(buf: seq<Byte>)
      requires Valid()
      modifies this, iengine, iengine.buffer
      ensures Valid() && message == old(message) + buf
    {
      iengine.Input(buf);
      message := message + buf;
      assert InnerText(iengine.alg, key, old(message)) + buf == InnerText(iengine.alg, key, message);
    }
  }

  /** Finishing the engine gives the HMAC of everything fed to it. */
  method FromHmacEngine<H>(e: HmacEngine<H>) returns (hash: seq<Byte>)
    requires e.Valid() && 8 * |e.iengine.message| < TWO_64
    requires var inner := e.iengine.alg.Hash(e.iengine.message);
             8 * (|e.oengine.message| + |inner|) < TWO_64
    modifies e.iengine, e.iengine.buffer, e.oengine, e.oengine.buffer
    ensures hash == HmacOf(e.iengine.alg, e.key, old(e.message))
  {
    var ihash := FromEngine(e.iengine);
    e.oengine.Input(ihash);
    hash := FromEngine(e.oengine);
  }

  /** However the message is cut into calls, the result is its HMAC. */
  method HmacChunks<H>(alg: Algorithm<H>, key: seq<Byte>, chunks: seq<seq<Byte>>) returns (hash: seq<Byte>)
    requires alg.Valid() && alg.block <= 128
    requires |alg.Hash(InnerText(alg, key, Concat(chunks)))| <= alg.block
    requires 8 * |key| < TWO_64 && 8 * (alg.block + |Concat(chunks)|) < TWO_64
    ensures hash == HmacOf(alg, key, Concat(chunks))
  {
    var e := new HmacEngine(alg, key);
    for i := 0 to |chunks|
      invariant fresh(e) && fresh(e.iengine) && fresh(e.oengine)
      invariant fresh(e.iengine.buffer) && fresh(e.oengine.buffer)
      invariant e.Valid() && e.iengine.alg == alg && e.key == key && e.message == Concat(chunks[..i])
    {
      assert chunks[..i + 1][..i] == chunks[..i];
      e.Input(chunks[i]);
    }
    assert chunks[..|chunks|] == chunks;
    hash := FromHmacEngine(e);
  }
}
