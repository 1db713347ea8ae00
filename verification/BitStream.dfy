/** The result of an operation that can fail. */
module Results {
  datatype Result<+T, +E> = Ok(value: T) | Err(error: E)
  datatype Option<+T> = None | Some(value: T)
}

/** Bitwise writer and reader over a byte stream, most significant bit first. */
module BitStream {
  import opened Arith
  import opened Bits
  import opened Results

  datatype StreamError = TooManyBits | UnexpectedEof

  /** Buffers bits in one byte and appends full bytes to `out`, the wrapped sink. */
  class BitStreamWriter {
    var buffer: Byte
    var offset: nat
    var out: seq<Byte>

    ghost predicate Valid()
      reads this
    {
      offset <= 8 && Low(buffer, 8 - offset) == 0
    }

    /** Every bit written so far, flushed or not. */
    ghost function Written(): seq<bool>
      requires Valid()
      reads this
    {
      OfBytes(out) + Big(Shr(buffer, 8 - offset), offset)
    }

    constructor (sink: seq<Byte>)
      ensures Valid() && out == sink && offset == 0
      ensures Written() == OfBytes(sink)
    {
      LowZero(8);
      buffer, offset, out := 0, 0, sink;
    }

    method Write(data: U64, nbits: nat) returns (r: Result<nat, StreamError>)
      requires Valid() && offset < 8
      modifies this
      ensures Valid() && offset < 8
      ensures nbits > 64 ==> r == Err(TooManyBits) && Written() == old(Written()) && out == old(out)
      ensures nbits <= 64 ==>
                && r == Ok(|out| - |old(out)|)
                && Written() == old(Written()) + Big(data, nbits)
    {
      if nbits > 64 {
        return Err(TooManyBits);
      }
      ghost var prior := Written();
      var wrote: nat, n: nat := 0, nbits;
      while n > 0
        invariant n <= nbits && Valid() && offset < 8
        invariant wrote == |out| - |old(out)|
        invariant Written() == prior + Big(Shr(data, n), nbits - n)
      {
        var bits := Put(data, n, nbits, prior);
        n := n - bits;
        if offset == 8 {
          var flushed := Flush();
          wrote := wrote + flushed;
        }
      }
      r := Ok(wrote);
    }

    /** Or-s as many of the `n` low bits of `data` as fit into the buffered byte. */
    method Put(data: U64, n: nat, ghost nbits: nat, ghost prior: seq<bool>) returns (bits: nat)
      requires Valid() && offset < 8 && 0 < n <= nbits <= 64
      requires Written() == prior + Big(Shr(data, n), nbits - n)
      modifies this
      ensures Valid() && 0 < bits <= n && out == old(out)
      ensures Written() == prior + Big(Shr(data, n - bits), nbits - (n - bits))
    {
      bits := Min(8 - offset, n);
      WriteStep(prior, out, buffer, offset, data, nbits, n, bits);
      buffer := BufferWith(buffer, offset, data, n);
      offset := offset + bits;
    }

    method Flush() returns (wrote: nat)
      requires Valid()
      modifies this
      ensures Valid() && offset == 0
      ensures wrote == |out| - |old(out)| == (if old(offset) > 0 then 1 else 0)
      ensures Written() == OfBytes(out)
           == old(Written()) + Big(0, if old(offset) > 0 then 8 - old(offset) else 0)
    {
      if offset > 0 {
        FlushedByte(out, buffer, offset);
        LowZero(8);
        out := out + [buffer];
        buffer, offset := 0, 0;
        wrote := 1;
      } else {
        wrote := 0;
      }
    }
  }

  /** The buffered byte after the next bits of the `n` low bits of `data` are or-ed in at `offset`. */
  function BufferWith(buffer: Byte, offset: nat, data: U64, n: nat): nat
    requires 0 < n <= 64
  {
    Or(buffer, Low(Shr(Low(Shl(data, 64 - n), 64), 56 + offset), 8))
  }

  /** The shifted and truncated word holds the next `bits` bits of `data`, placed below `offset`. */
  lemma PieceToWrite(data: U64, n: nat, offset: nat, bits: nat)
    requires 0 < n <= 64 && offset < 8 && bits == Min(8 - offset, n)
    ensures Low(Shr(Low(Shl(data, 64 - n), 64), 56 + offset), 8)
         == Shl(Low(Shr(data, n - bits), bits), 8 - offset - bits)
  {
    LowShl(data, 64 - n, 64);
    ShrShl(Low(data, n), 64 - n, 56 + offset);
    ShrLow(data, n, n - bits);
    var chunk := Low(Shr(data, n - bits), bits);
    LowSmall(Shr(data, n - bits), bits);
    ShlFits(chunk, bits, 8 - offset - bits);
    FitsMore(Shl(chunk, 8 - offset - bits), 8 - offset, 8);
    LowSmall(Shl(chunk, 8 - offset - bits), 8);
  }

  lemma FlushedByte(out: seq<Byte>, buffer: Byte, offset: nat)
    requires offset <= 8 && Low(buffer, 8 - offset) == 0
    ensures OfBytes(out + [buffer])
         == OfBytes(out) + Big(Shr(buffer, 8 - offset), offset) + Big(0, 8 - offset)
  {
    OfBytesPush(out, buffer);
    BigSplit(buffer, offset, 8 - offset);
    BigLow(buffer, 8 - offset);
  }

  /** Or-ing a chunk in below `offset` appends it to the buffered bits and keeps the rest clear. */
  lemma AppendToBuffer(buffer: Byte, offset: nat, chunk: nat, bits: nat)
    requires offset < 8 && offset + bits <= 8
    requires Low(buffer, 8 - offset) == 0 && Fits(chunk, bits)
    ensures var b := Or(buffer, Shl(chunk, 8 - offset - bits));
            && b < 256
            && Low(b, 8 - offset - bits) == 0
            && Big(Shr(b, 8 - offset - bits), offset + bits)
               == Big(Shr(buffer, 8 - offset), offset) + Big(chunk, bits)
  {
    var k, h := 8 - offset - bits, Shr(buffer, 8 - offset);
    OrIsJoin(buffer, h, chunk, bits, k);
    ShlAlone(Shl(h, bits) + chunk, k);
    BigConcat(h, offset, chunk, bits);
    JoinFitsByte(buffer, h, offset, chunk, bits, k);
  }

  lemma OrIsJoin(buffer: nat, h: nat, chunk: nat, bits: nat, k: nat)
    requires Low(buffer, bits + k) == 0 && h == Shr(buffer, bits + k) && Fits(chunk, bits)
    ensures Or(buffer, Shl(chunk, k)) == Shl(Shl(h, bits) + chunk, k)
  {
    SplitAt(buffer, bits + k);
    ShlFits(chunk, bits, k);
    OrDisjoint(buffer, Shl(chunk, k), bits + k);
    ShlShl(h, bits, k);
    ShlAdd(Shl(h, bits), chunk, k);
  }

  lemma JoinFitsByte(buffer: Byte, h: nat, offset: nat, chunk: nat, bits: nat, k: nat)
    requires offset + bits + k == 8 && h == Shr(buffer, bits + k) && Fits(chunk, bits)
    ensures Shl(Shl(h, bits) + chunk, k) < 256
  {
    Fits8(buffer);
    ShrFits(buffer, offset, bits + k);
    JoinFits(h, offset, chunk, bits);
    ShlFits(Shl(h, bits) + chunk, offset + bits, k);
    Fits8(Shl(Shl(h, bits) + chunk, k));
  }

  /** The byte the write loop builds: valid, and with the next `bits` bits of `data` appended. */
  lemma NextByte(buffer: Byte, offset: nat, data: U64, n: nat, bits: nat)
    requires 0 < n <= 64 && offset < 8 && bits == Min(8 - offset, n)
    requires Low(buffer, 8 - offset) == 0
    ensures var b := BufferWith(buffer, offset, data, n);
            && b < 256
            && Low(b, 8 - offset - bits) == 0
            && Big(Shr(b, 8 - offset - bits), offset + bits)
               == Big(Shr(buffer, 8 - offset), offset) + Big(Low(Shr(data, n - bits), bits), bits)
  {
    LowSmall(Shr(data, n - bits), bits);
    PieceToWrite(data, n, offset, bits);
    AppendToBuffer(buffer, offset, Low(Shr(data, n - bits), bits), bits);
  }

  lemma NextBits(data: nat, total: nat, n: nat, bits: nat)
    requires bits <= n <= total
    ensures Big(Shr(data, n - bits), total - n + bits)
         == Big(Shr(data, n), total - n) + Big(Low(Shr(data, n - bits), bits), bits)
  {
    ShrShr(data, n - bits, bits);
    BigSplit(Shr(data, n - bits), total - n, bits);
    BigLow(Shr(data, n - bits), bits);
  }

  /** One round of the write loop puts the next `bits` bits of `data` behind what was written. */
  lemma WriteStep(prior: seq<bool>, out: seq<Byte>, buffer: Byte, offset: nat,
                  data: U64, total: nat, n: nat, bits: nat)
    requires 0 < n <= total <= 64 && offset < 8 && bits == Min(8 - offset, n)
    requires Low(buffer, 8 - offset) == 0
    requires OfBytes(out) + Big(Shr(buffer, 8 - offset), offset) == prior + Big(Shr(data, n), total - n)
    ensures var b := BufferWith(buffer, offset, data, n);
            && b < 256
            && Low(b, 8 - offset - bits) == 0
            && OfBytes(out) + Big(Shr(b, 8 - offset - bits), offset + bits)
               == prior + Big(Shr(data, n - bits), total - n + bits)
  {
    NextByte(buffer, offset, data, n, bits);
    NextBits(data, total, n, bits);
    AppendBoth(OfBytes(out), Big(Shr(buffer, 8 - offset), offset),
               prior, Big(Shr(data, n), total - n), Big(Low(Shr(data, n - bits), bits), bits),
               Big(Shr(BufferWith(buffer, offset, data, n), 8 - offset - bits), offset + bits),
               Big(Shr(data, n - bits), total - n + bits));
  }

  lemma AppendBoth<T>(a: seq<T>, b: seq<T>, c: seq<T>, d: seq<T>, e: seq<T>, be: seq<T>, de: seq<T>)
    requires a + b == c + d && be == b + e && de == d + e
    ensures a + be == c + de
  {
    assert a + (b + e) == (a + b) + e;
    assert c + (d + e) == (c + d) + e;
  }

  /** Hands out the bits of a byte stream; `rest` is what the wrapped source still holds. */
  class BitStreamReader {
    var buffer: Byte
    var offset: nat
    var rest: seq<Byte>

    ghost predicate Valid()
      reads this
    {
      offset <= 8
    }

    /** The bits not read yet. */
    ghost function Pending(): seq<bool>
      requires Valid()
      reads this
    {
      Big(buffer, 8 - offset) + OfBytes(rest)
    }

    constructor (source: seq<Byte>)
      ensures Valid() && Pending() == OfBytes(source)
    {
      buffer, offset, rest := 0, 8, source;
    }

    /** Takes the next byte of the source into the buffer. */
    method ReadExact() returns (ok: bool)
      requires Valid() && offset == 8
      modifies this
      ensures Valid() && Pending() == old(Pending())
      ensures ok == (old(Pending()) != [])
      ensures ok ==> offset == 0
    {
      ok := rest != [];
      if ok {
        OfBytesPop(rest);
        buffer, rest, offset := rest[0], rest[1..], 0;
      }
    }

    method Read(nbits: nat) returns (r: Result<U64, StreamError>)
      requires Valid()
      modifies this
      ensures Valid()
      ensures nbits > 64 ==> r == Err(TooManyBits) && Pending() == old(Pending())
      ensures nbits <= 64 ==> if nbits <= |old(Pending())| then r.Ok? else r == Err(UnexpectedEof)
      ensures r.Ok? ==> Fits(r.value, nbits) && old(Pending()) == Big(r.value, nbits) + Pending()
    {
      if nbits > 64 {
        return Err(TooManyBits);
      }
      ghost var prior := Pending();
      var data: nat, n: nat := 0, nbits;
      while n > 0
        invariant n <= nbits && Valid()
        invariant Fits(data, nbits - n)
        invariant prior == Big(data, nbits - n) + Pending()
      {
        if offset == 8 {
          var ok := ReadExact();
          if !ok {
            return Err(UnexpectedEof);
          }
        }
        var bits;
        data, bits := Take(data, n, nbits, prior);
        n := n - bits;
      }
      FitsMore(data, nbits, 64);
      Fits64(data);
      r := Ok(data);
    }

    /** Shifts as many of the `n` missing bits as the buffered byte holds into `data`. */
    method Take(data: nat, n: nat, ghost nbits: nat, ghost prior: seq<bool>) returns (d: nat, bits: nat)
      requires Valid() && offset < 8 && 0 < n <= nbits <= 64
      requires Fits(data, nbits - n) && prior == Big(data, nbits - n) + Pending()
      modifies this
      ensures Valid() && 0 < bits <= n
      ensures Fits(d, nbits - (n - bits)) && prior == Big(d, nbits - (n - bits)) + Pending()
    {
      bits := Min(8 - offset, n);
      ReadStep(prior, rest, buffer, offset, data, nbits, n, bits);
      d := DataWith(data, buffer, offset, bits);
      offset := offset + bits;
    }
  }

  /** The word read so far, shifted to make room for the `bits` buffered bits at `offset`. */
  function DataWith(data: nat, buffer: Byte, offset: nat, bits: nat): nat
    requires bits <= 8
  {
    Or(Low(Shl(data, bits), 64), Shr(Low(Shl(buffer, offset), 8), 8 - bits))
  }

  /** Shifting a byte left and back right isolates the `bits` bits below `offset`. */
  lemma PieceRead(buffer: Byte, offset: nat, bits: nat)
    requires offset + bits <= 8
    ensures var piece := Shr(Low(Shl(buffer, offset), 8), 8 - bits);
            && Fits(piece, bits)
            && Big(piece, bits) == Big(Shr(buffer, 8 - offset - bits), bits)
  {
    PieceOfWord(buffer, offset, bits, 8);
  }

  lemma PieceOfWord(x: nat, offset: nat, bits: nat, w: nat)
    requires offset + bits <= w
    ensures var piece := Shr(Low(Shl(x, offset), w), w - bits);
            && Fits(piece, bits)
            && Big(piece, bits) == Big(Shr(x, w - offset - bits), bits)
  {
    LowShl(x, offset, w);
    ShrShl(Low(x, w - offset), offset, w - bits);
    ShrLow(x, w - offset, w - offset - bits);
    LowSmall(Shr(x, w - offset - bits), bits);
    BigLow(Shr(x, w - offset - bits), bits);
  }

  /** One round of the read loop moves the next `bits` pending bits behind what was read. */
  lemma ReadStep(prior: seq<bool>, rest: seq<Byte>, buffer: Byte, offset: nat,
                 data: nat, total: nat, n: nat, bits: nat)
    requires bits <= n <= total <= 64 && offset + bits <= 8
    requires Fits(data, total - n)
    requires prior == Big(data, total - n) + (Big(buffer, 8 - offset) + OfBytes(rest))
    ensures var d := DataWith(data, buffer, offset, bits);
            && Fits(d, total - n + bits)
            && prior == Big(d, total - n + bits) + (Big(buffer, 8 - offset - bits) + OfBytes(rest))
  {
    var piece := Shr(Low(Shl(buffer, offset), 8), 8 - bits);
    PieceRead(buffer, offset, bits);
    BigSplit(buffer, bits, 8 - offset - bits);
    Accumulate(data, total - n, piece, bits);
    MoveLeft(prior, Big(data, total - n), Big(buffer, 8 - offset), OfBytes(rest), Big(piece, bits),
             Big(buffer, 8 - offset - bits), Big(DataWith(data, buffer, offset, bits), total - n + bits));
  }

  lemma MoveLeft<T>(prior: seq<T>, x: seq<T>, byte: seq<T>, rest: seq<T>, piece: seq<T>, left: seq<T>, y: seq<T>)
    requires prior == x + (byte + rest) && byte == piece + left && y == x + piece
    ensures prior == y + (left + rest)
  {
    assert x + (piece + left + rest) == x + piece + (left + rest);
  }

  /** Shifting what was read and or-ing in a piece appends the piece, as long as 64 bits hold both. */
  lemma Accumulate(data: nat, k: nat, piece: nat, bits: nat)
    requires Fits(data, k) && Fits(piece, bits) && k + bits <= 64
    ensures var d := Or(Low(Shl(data, bits), 64), piece);
            && Fits(d, k + bits)
            && Big(d, k + bits) == Big(data, k) + Big(piece, bits)
  {
    ShlFits(data, k, bits);
    FitsMore(Shl(data, bits), k + bits, 64);
    LowSmall(Shl(data, bits), 64);
    ShlAlone(data, bits);
    OrDisjoint(Shl(data, bits), piece, bits);
    JoinFits(data, k, piece, bits);
    BigConcat(data, k, piece, bits);
  }

  /** A value and the number of its low bits to write. */
  type Item = i: (U64, nat) | i.1 <= 64 witness (0, 0)

  /** The bits a run of writes puts on the stream. */
  function Stream(items: seq<Item>): seq<bool> {
    if items == [] then [] else Stream(items[..|items| - 1]) + Big(items[|items| - 1].0, items[|items| - 1].1)
  }

  lemma StreamStep(items: seq<Item>, i: nat)
    requires i < |items|
    ensures Stream(items[..i + 1]) == Stream(items[..i]) + Big(items[i].0, items[i].1)
  {
    assert items[..i + 1][..i] == items[..i];
  }

  /** Any run of writes and one flush produces the stream, padded with zeros to whole bytes. */
  method WriteAll(items: seq<Item>) returns (bytes: seq<Byte>, wrote: nat)
    ensures wrote == |bytes| == (|Stream(items)| + 7) / 8
    ensures OfBytes(bytes) == Stream(items) + Big(0, 8 * |bytes| - |Stream(items)|)
  {
    var writer := new BitStreamWriter([]);
    wrote := 0;
    for i := 0 to |items|
      invariant fresh(writer) && writer.Valid() && writer.offset < 8
      invariant wrote == |writer.out| && writer.Written() == Stream(items[..i])
    {
      StreamStep(items, i);
      var r := writer.Write(items[i].0, items[i].1);
      wrote := wrote + r.value;
    }
    assert items[..|items|] == items;
    assert Big(0, 0) == [];
    var last := writer.Flush();
    wrote := wrote + last;
    bytes := writer.out;
  }

  /** Reading the same widths back returns every value, cut to its width, in order. */
  method RoundTrip(items: seq<Item>) returns (values: seq<U64>)
    ensures |values| == |items|
    ensures forall i :: 0 <= i < |items| ==> values[i] == items[i].0 % Pow(2, items[i].1)
  {
    var bytes, _ := WriteAll(items);
    var reader := new BitStreamReader(bytes);
    values := ReadAll(reader, items, Big(0, 8 * |bytes| - |Stream(items)|));
  }

  method ReadAll(reader: BitStreamReader, items: seq<Item>, ghost pad: seq<bool>) returns (values: seq<U64>)
    requires reader.Valid() && reader.Pending() == Stream(items) + pad
    modifies reader
    ensures |values| == |items|
    ensures forall i :: 0 <= i < |items| ==> values[i] == items[i].0 % Pow(2, items[i].1)
  {
    values := [];
    NothingRead(items, reader.Pending());
    for i := 0 to |items|
      invariant reader.Valid() && |values| == i
      invariant Stream(items[..i]) + reader.Pending() == Stream(items) + pad
      invariant forall j :: 0 <= j < i ==> values[j] == items[j].0 % Pow(2, items[j].1)
    {
      var v := ReadItem(reader, items, i, pad);
      values := values + [v];
    }
  }

  lemma NothingRead(items: seq<Item>, pending: seq<bool>)
    ensures Stream(items[..0]) + pending == pending
  {
    assert Stream(items[..0]) == [];
  }

  /** Reads back the value written `i`-th. */
  method ReadItem(reader: BitStreamReader, items: seq<Item>, i: nat, ghost pad: seq<bool>) returns (v: U64)
    requires reader.Valid() && i < |items| && Stream(items[..i]) + reader.Pending() == Stream(items) + pad
    modifies reader
    ensures reader.Valid() && Stream(items[..i + 1]) + reader.Pending() == Stream(items) + pad
    ensures v == items[i].0 % Pow(2, items[i].1)
  {
    ghost var before := reader.Pending();
    PrefixOfStream(items, i, before, pad);
    var r := reader.Read(items[i].1);
    SameBits(items[i].0, items[i].1, r.value, before, reader.Pending());
    v := r.value;
  }

  lemma {:induction false} StreamPrefix(items: seq<Item>, i: nat)
    requires i <= |items|
    ensures Stream(items[..i]) <= Stream(items)
    decreases |items| - i
  {
    if i == |items| {
      assert items[..i] == items;
    } else {
      StreamStep(items, i);
      StreamPrefix(items, i + 1);
    }
  }

  lemma PrefixOfStream(items: seq<Item>, i: nat, pending: seq<bool>, pad: seq<bool>)
    requires i < |items|
    requires Stream(items[..i]) + pending == Stream(items) + pad
    ensures Big(items[i].0, items[i].1) <= pending
    ensures Stream(items[..i + 1]) + pending[items[i].1..] == Stream(items) + pad
  {
    StreamStep(items, i);
    StreamPrefix(items, i + 1);
    CancelPrefix(Stream(items[..i]), Big(items[i].0, items[i].1), pending, Stream(items) + pad);
  }

  lemma CancelPrefix<T>(a: seq<T>, b: seq<T>, x: seq<T>, s: seq<T>)
    requires a + x == s && a + b <= s
    ensures b <= x && a + b + x[|b|..] == s
  {
    assert x == s[|a|..];
    assert b == s[|a|..|a| + |b|];
  }

  lemma SameBits(v: nat, w: nat, r: nat, before: seq<bool>, after: seq<bool>)
    requires Big(v, w) <= before && before == Big(r, w) + after && Fits(r, w)
    ensures r == v % Pow(2, w) && after == before[w..]
  {
    assert Big(v, w) == before[..w] == Big(r, w);
    NumberOfBig(v, w);
    NumberOfBig(r, w);
    LowSmall(r, w);
    ShrIsDiv(v, w);
  }
}
