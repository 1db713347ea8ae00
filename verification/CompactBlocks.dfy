/** Compact blocks of BIP 152: differential indexes, and a block split into prefilled transactions and short ids. */
module CompactBlocks {
  import opened Arith
  import opened Results

  // Differential coding of indexes.

  /** Strictly increasing indexes, none below `from`. */
  ghost predicate Increasing(ix: seq<nat>, from: nat) {
    && (forall i :: 0 <= i < |ix| ==> from <= ix[i])
    && (forall i, j :: 0 <= i < j < |ix| ==> ix[i] < ix[j])
  }

  /** Each index relative to the one after its predecessor. */
  function Deltas(ix: seq<nat>, from: nat): (ds: seq<nat>)
    requires Increasing(ix, from)
    ensures |ds| == |ix|
  {
    if ix == [] then []
    else
      Rest(ix, from);
      [ix[0] - from] + Deltas(ix[1..], ix[0] + 1)
  }

  lemma Rest(ix: seq<nat>, from: nat)
    requires Increasing(ix, from) && ix != []
    ensures Increasing(ix[1..], ix[0] + 1)
  {
  }

  /** The running indexes that differences stand for. */
  function Indexes(ds: seq<nat>, from: nat): (ix: seq<nat>)
    ensures |ix| == |ds| && Increasing(ix, from)
  {
    if ds == [] then [] else [from + ds[0]] + Indexes(ds[1..], from + ds[0] + 1)
  }

  /** Both directions of the codec. */
  lemma {:induction false} IndexesOfDeltas(ix: seq<nat>, from: nat)
    requires Increasing(ix, from)
    ensures Indexes(Deltas(ix, from), from) == ix
    decreases |ix|
  {
    if ix != [] {
      var a, t := ix[0], ix[1..];
      assert ix == [a] + t;
      FirstDelta(ix, from, a, t);
      IndexesOfDeltas(t, a + 1);
      FirstIndex(Deltas(ix, from), from, a, Deltas(t, a + 1), t);
    }
  }

  lemma FirstIndex(ds: seq<nat>, from: nat, a: nat, rest: seq<nat>, t: seq<nat>)
    requires from <= a && ds == [a - from] + rest && Indexes(rest, a + 1) == t
    ensures Indexes(ds, from) == [a] + t
  {
    IndexesCons(a - from, rest, from);
  }

  lemma {:induction false} DeltasOfIndexes(ds: seq<nat>, from: nat)
    ensures Deltas(Indexes(ds, from), from) == ds
    decreases |ds|
  {
    if ds != [] {
      var d, t := ds[0], ds[1..];
      assert ds == [d] + t;
      IndexesCons(d, t, from);
      FirstDelta(Indexes(ds, from), from, from + d, Indexes(t, from + d + 1));
      DeltasOfIndexes(t, from + d + 1);
    }
  }

  const MAX_64: nat := TWO_64 - 1

  ghost predicate BelowMax(ix: seq<nat>) {
    forall i :: 0 <= i < |ix| ==> ix[i] < MAX_64
  }

  /** Encodes request indexes; `None` where the checked arithmetic of the program panics. */
  method EncodeIndexes(indexes: seq<U64>) returns (r: Option<seq<U64>>)
    ensures r.Some? <==> Increasing(indexes, 0) && BelowMax(indexes)
    ensures r.Some? ==> r.value == Deltas(indexes, 0)
  {
    var out: seq<U64>, last: U64 := [], 0;
    for i := 0 to |indexes|
      invariant Increasing(indexes[..i], 0) && BelowMax(indexes[..i])
      invariant last == if i == 0 then 0 else indexes[i - 1] + 1
      invariant out == Deltas(indexes[..i], 0)
    {
      if indexes[i] < last || indexes[i] == MAX_64 {
        return None;
      }
      NextDelta(indexes, i, last);
      out := out + [indexes[i] - last];
      last := indexes[i] + 1;
    }
    assert indexes[..|indexes|] == indexes;
    r := Some(out);
  }

  lemma NextDelta(ix: seq<nat>, i: nat, last: nat)
    requires i < |ix| && Increasing(ix[..i], 0) && last == (if i == 0 then 0 else ix[i - 1] + 1) && last <= ix[i]
    ensures Increasing(ix[..i + 1], 0)
    ensures Deltas(ix[..i + 1], 0) == Deltas(ix[..i], 0) + [ix[i] - last]
  {
    assert ix[..i + 1] == ix[..i] + [ix[i]];
    IncreasingPush(ix[..i], ix[i], 0, last);
    DeltasPush(ix[..i], ix[i], 0, last);
  }

  lemma IncreasingPush(ix: seq<nat>, x: nat, from: nat, last: nat)
    requires Increasing(ix, from) && last == (if ix == [] then from else ix[|ix| - 1] + 1) && last <= x
    ensures Increasing(ix + [x], from)
  {
    assert forall i :: 0 <= i < |ix| ==> ix[i] <= ix[|ix| - 1];
  }

  lemma {:induction false} DeltasPush(ix: seq<nat>, x: nat, from: nat, last: nat)
    requires Increasing(ix, from) && Increasing(ix + [x], from)
    requires last == (if ix == [] then from else ix[|ix| - 1] + 1) && last <= x
    ensures Deltas(ix + [x], from) == Deltas(ix, from) + [x - last]
    decreases |ix|
  {
    if ix == [] {
      assert ix + [x] == [x];
      OneDelta(x, from);
    } else {
      var a, t := ix[0], ix[1..];
      FirstDelta(ix, from, a, t);
      FirstDelta(ix + [x], from, a, t + [x]);
      DeltasPush(t, x, a + 1, last);
      Regroup([a - from], Deltas(t, a + 1), [x - last]);
    }
  }

  lemma OneDelta(x: nat, from: nat)
    requires from <= x
    ensures Increasing([x], from) && Deltas([x], from) == [x - from]
  {
    assert [x][1..] == [];
  }

  lemma FirstDelta(ix: seq<nat>, from: nat, a: nat, t: seq<nat>)
    requires Increasing(ix, from) && ix == [a] + t
    ensures from <= a && Increasing(t, a + 1) && Deltas(ix, from) == [a - from] + Deltas(t, a + 1)
  {
    Rest(ix, from);
    assert ix[1..] == t;
  }

  lemma Regroup<T>(a: seq<T>, b: seq<T>, c: seq<T>)
    ensures a + (b + c) == a + b + c
  {
  }

  lemma IndexesCons(d: nat, ds: seq<nat>, from: nat)
    ensures Indexes([d] + ds, from) == [from + d] + Indexes(ds, from + d + 1)
  {
    assert ([d] + ds)[1..] == ds;
  }

  lemma IndexesInjective(a: seq<nat>, b: seq<nat>, from: nat)
    ensures Indexes(a, from) == Indexes(b, from) <==> a == b
  {
    DeltasOfIndexes(a, from);
    DeltasOfIndexes(b, from);
  }

  datatype DecodeError = BlockIndexOverflow

  /** Decodes request indexes; sums that reach the largest 64-bit number are refused. */
  method DecodeIndexes(ds: seq<U64>) returns (r: Result<seq<U64>, DecodeError>)
    ensures r.Ok? <==> BelowMax(Indexes(ds, 0))
    ensures r.Ok? ==> r.value == Indexes(ds, 0)
  {
    ghost var all := Indexes(ds, 0);
    var out: seq<U64>, last: U64 := [], 0;
    assert ds[0..] == ds && [] + all == all;
    for i := 0 to |ds|
      invariant Decoding(all, out, ds, i, last)
    {
      var next := last + ds[i];
      NextSum(all, out, ds, i, last, next);
      if next >= TWO_64 || next + 1 >= TWO_64 {
        return Err(BlockIndexOverflow);
      }
      out := out + [next];
      last := next + 1;
    }
    AllDecoded(all, out, ds, last);
    r := Ok(out);
  }

  /** What has been decoded, followed by what is still to be decoded, is everything. */
  ghost predicate Decoding(all: seq<nat>, out: seq<nat>, ds: seq<nat>, i: nat, last: nat) {
    i <= |ds| && |out| == i && BelowMax(out) && all == out + Indexes(ds[i..], last)
  }

  lemma AllDecoded(all: seq<nat>, out: seq<nat>, ds: seq<nat>, last: nat)
    requires Decoding(all, out, ds, |ds|, last)
    ensures all == out
  {
    assert out + [] == out;
  }

  lemma NextSum(all: seq<nat>, out: seq<nat>, ds: seq<nat>, i: nat, last: nat, next: nat)
    requires Decoding(all, out, ds, i, last) && i < |ds| && next == last + ds[i]
    ensures if next < MAX_64 then Decoding(all, out + [next], ds, i + 1, next + 1) else !BelowMax(all)
  {
    assert ds[i..][1..] == ds[i + 1..];
    Regroup(out, [next], Indexes(ds[i + 1..], next + 1));
    assert all[i] == next;
  }

  /** Indexes that can be encoded are decoded to themselves. */
  method RequestRoundTrip(indexes: seq<U64>) returns (r: Option<seq<U64>>)
    ensures r == if Increasing(indexes, 0) && BelowMax(indexes) then Some(indexes) else None
  {
    var encoded := EncodeIndexes(indexes);
    if encoded.None? {
      return None;
    }
    IndexesOfDeltas(indexes, 0);
    var decoded := DecodeIndexes(encoded.value);
    r := Some(decoded.value);
  }

  /** Differences that can be decoded are encoded to themselves. */
  method ReplyRoundTrip(ds: seq<U64>) returns (r: Option<seq<U64>>)
    ensures r == if BelowMax(Indexes(ds, 0)) then Some(ds) else None
  {
    var decoded := DecodeIndexes(ds);
    if decoded.Err? {
      return None;
    }
    DeltasOfIndexes(ds, 0);
    r := EncodeIndexes(decoded.value);
  }

  // Splitting a block.

  datatype Slot<T, S> = Full(tx: T) | Short(id: S)

  datatype Prefilled<T> = Prefilled(idx: U16, tx: T)

  datatype HeaderAndShortIds<T, S> = HeaderAndShortIds(shortIds: seq<S>, prefilledTxs: seq<Prefilled<T>>)

  datatype BlockError = UnknownVersion | InvalidPrefill

  /** How transactions are sent and abbreviated; version 1 leaves witnesses out of both. */
  datatype Wire<!T, S> = Wire(stripped: T -> T, shortTxid: T -> S, shortWtxid: T -> S) {
    function Sent(tx: T, version: nat): T { if version == 1 then stripped(tx) else tx }

    function Id(tx: T, version: nat): S { if version == 1 then shortTxid(tx) else shortWtxid(tx) }
  }

  /** A receiver fills slot after slot: a prefilled transaction at its index, else the next short id. */
  function Merge<T, S>(i: nat, ix: seq<nat>, full: seq<T>, ids: seq<S>): seq<Slot<T, S>>
    requires |ix| == |full|
    decreases |ix| + |ids|
  {
    if ix != [] && ix[0] == i then [Full(full[0])] + Merge(i + 1, ix[1..], full[1..], ids)
    else if ids != [] then [Short(ids[0])] + Merge(i + 1, ix, full, ids[1..])
    else []
  }

  function DiffsOf<T>(ps: seq<Prefilled<T>>): (ds: seq<nat>)
    ensures |ds| == |ps|
  {
    seq(|ps|, k requires 0 <= k < |ps| => ps[k].idx)
  }

  function TxsOf<T>(ps: seq<Prefilled<T>>): (txs: seq<T>)
    ensures |txs| == |ps|
  {
    seq(|ps|, k requires 0 <= k < |ps| => ps[k].tx)
  }

  /** The slots of a block as a receiver rebuilds them. */
  function Rebuilt<T, S>(h: HeaderAndShortIds<T, S>): seq<Slot<T, S>> {
    Merge(0, Indexes(DiffsOf(h.prefilledTxs), 0), TxsOf(h.prefilledTxs), h.shortIds)
  }

  /** The slots a block should have from `i` on: the coinbase and the chosen transactions in full. */
  function Slots<T, S>(wire: Wire<T, S>, version: nat, txs: seq<T>, i: nat, prefill: seq<nat>): seq<Slot<T, S>>
    requires i <= |txs|
  {
    seq(|txs| - i, k requires 0 <= k < |txs| - i =>
      if i + k == 0 || i + k in prefill then
        Full(if version == 1 then wire.stripped(txs[i + k]) else txs[i + k])
      else
        Short(if version == 1 then wire.shortTxid(txs[i + k]) else wire.shortWtxid(txs[i + k])))
  }

  /** What the loop still produces from position `i` on. */
  datatype Pieces<T, S> = Pieces(diffs: seq<nat>, full: seq<T>, ids: seq<S>, rest: seq<nat>)

  predicate Chosen(i: nat, prefill: seq<nat>) {
    i == 0 || (prefill != [] && prefill[0] == i)
  }

  function After(i: nat, prefill: seq<nat>): seq<nat> {
    if prefill != [] && prefill[0] == i then prefill[1..] else prefill
  }

  function Split<T, S>(wire: Wire<T, S>, version: nat, txs: seq<T>, i: nat, last: nat, prefill: seq<nat>): (p: Pieces<T, S>)
    requires last <= i <= |txs|
    ensures |p.diffs| == |p.full|
    decreases |txs| - i
  {
    if i == |txs| then Pieces([], [], [], prefill)
    else if Chosen(i, prefill) then
      var p := Split(wire, version, txs, i + 1, i + 1, After(i, prefill));
      Pieces([i - last] + p.diffs, [wire.Sent(txs[i], version)] + p.full, p.ids, p.rest)
    else
      var p := Split(wire, version, txs, i + 1, last, prefill);
      Pieces(p.diffs, p.full, [wire.Id(txs[i], version)] + p.ids, p.rest)
  }

  /** Strictly increasing positions in the block, from `i` on. */
  ghost predicate ValidPrefill(prefill: seq<nat>, i: nat, n: nat) {
    Increasing(prefill, i) && forall k :: 0 <= k < |prefill| ==> prefill[k] < n
  }

  lemma ValidAfter(prefill: seq<nat>, i: nat, n: nat)
    requires i < n
    ensures ValidPrefill(prefill, i, n) <==> ValidPrefill(After(i, prefill), i + 1, n)
  {
    if prefill != [] && prefill[0] == i {
      var rest := prefill[1..];
      assert prefill == [i] + rest;
    }
  }

  /** The prefill is used up exactly when it was strictly increasing and in range. */
  lemma {:induction false} UsedUp<T, S>(wire: Wire<T, S>, version: nat, txs: seq<T>, i: nat, last: nat,
                                        prefill: seq<nat>)
    requires last <= i <= |txs|
    ensures Split(wire, version, txs, i, last, prefill).rest == [] <==> ValidPrefill(prefill, i, |txs|)
    decreases |txs| - i
  {
    if i < |txs| {
      ValidAfter(prefill, i, |txs|);
      if Chosen(i, prefill) {
        UsedUp(wire, version, txs, i + 1, i + 1, After(i, prefill));
      } else {
        UsedUp(wire, version, txs, i + 1, last, prefill);
      }
    } else {
      assert prefill != [] ==> !(i <= prefill[0] < |txs|);
    }
  }

  /** Differences are no larger than the block, so they fit 16 bits in blocks of at most 2^16 transactions. */
  lemma {:induction false} DiffsBelow<T, S>(wire: Wire<T, S>, version: nat, txs: seq<T>, i: nat, last: nat,
                                            prefill: seq<nat>)
    requires last <= i <= |txs|
    ensures forall k :: 0 <= k < |Split(wire, version, txs, i, last, prefill).diffs| ==>
              Split(wire, version, txs, i, last, prefill).diffs[k] < |txs|
    decreases |txs| - i
  {
    if i < |txs| {
      if Chosen(i, prefill) {
        DiffsBelow(wire, version, txs, i + 1, i + 1, After(i, prefill));
      } else {
        DiffsBelow(wire, version, txs, i + 1, last, prefill);
      }
    }
  }

  /** Merging what the loop produces rebuilds the slots in order. */
  lemma {:induction false} MergeSplit<T, S>(wire: Wire<T, S>, version: nat, txs: seq<T>, i: nat, last: nat,
                                            prefill: seq<nat>)
    requires last <= i <= |txs| && ValidPrefill(prefill, i, |txs|)
    ensures var p := Split(wire, version, txs, i, last, prefill);
            Merge(i, Indexes(p.diffs, last), p.full, p.ids) == Slots(wire, version, txs, i, prefill)
    decreases |txs| - i
  {
    if i < |txs| {
      ValidAfter(prefill, i, |txs|);
      SlotsStep(wire, version, txs, i, prefill);
      if Chosen(i, prefill) {
        MergeSplit(wire, version, txs, i + 1, i + 1, After(i, prefill));
        var p := Split(wire, version, txs, i + 1, i + 1, After(i, prefill));
        MergeFull(i, last, p.diffs, wire.Sent(txs[i], version), p.full, p.ids);
      } else {
        MergeSplit(wire, version, txs, i + 1, last, prefill);
        var p := Split(wire, version, txs, i + 1, last, prefill);
        NextIndex(wire, version, txs, i, last, prefill);
        MergeShort(i, Indexes(p.diffs, last), p.full, wire.Id(txs[i], version), p.ids);
      }
    }
  }

  lemma MergeFull<T, S>(i: nat, last: nat, diffs: seq<nat>, tx: T, full: seq<T>, ids: seq<S>)
    requires last <= i && |diffs| == |full|
    ensures Merge(i, Indexes([i - last] + diffs, last), [tx] + full, ids)
         == [Full(tx)] + Merge(i + 1, Indexes(diffs, i + 1), full, ids)
  {
    IndexesCons(i - last, diffs, last);
    MergeHead(i, Indexes(diffs, i + 1), tx, full, ids);
  }

  lemma MergeHead<T, S>(i: nat, ix: seq<nat>, tx: T, full: seq<T>, ids: seq<S>)
    requires |ix| == |full|
    ensures Merge(i, [i] + ix, [tx] + full, ids) == [Full(tx)] + Merge(i + 1, ix, full, ids)
  {
    assert ([i] + ix)[1..] == ix;
    assert ([tx] + full)[1..] == full;
  }

  lemma MergeShort<T, S>(i: nat, ix: seq<nat>, full: seq<T>, id: S, ids: seq<S>)
    requires |ix| == |full| && (ix != [] ==> ix[0] != i)
    ensures Merge(i, ix, full, [id] + ids) == [Short(id)] + Merge(i + 1, ix, full, ids)
  {
    assert ([id] + ids)[1..] == ids;
  }

  /** A later choice is encoded relative to the last one, so it decodes beyond every position in between. */
  lemma {:induction false} NextIndex<T, S>(wire: Wire<T, S>, version: nat, txs: seq<T>, i: nat, last: nat,
                                           prefill: seq<nat>)
    requires last <= i < |txs|
    ensures var p := Split(wire, version, txs, i + 1, last, prefill);
            p.diffs != [] ==> last + p.diffs[0] > i
    decreases |txs| - i
  {
    if i + 1 < |txs| && !Chosen(i + 1, prefill) {
      NextIndex(wire, version, txs, i + 1, last, prefill);
    }
  }

  lemma SlotsStep<T, S>(wire: Wire<T, S>, version: nat, txs: seq<T>, i: nat, prefill: seq<nat>)
    requires i < |txs| && ValidPrefill(prefill, i, |txs|)
    ensures Slots(wire, version, txs, i, prefill)
         == [if Chosen(i, prefill) then Full(wire.Sent(txs[i], version)) else Short(wire.Id(txs[i], version))]
            + Slots(wire, version, txs, i + 1, After(i, prefill))
  {
    SameLater(prefill, i);
    var now, later := Slots(wire, version, txs, i, prefill), Slots(wire, version, txs, i + 1, After(i, prefill));
    forall k | 0 < k < |txs| - i
      ensures now[k] == later[k - 1]
    {
      assert i + k in prefill <==> i + k in After(i, prefill);
    }
  }

  lemma SameLater(prefill: seq<nat>, i: nat)
    requires Increasing(prefill, i)
    ensures i in prefill <==> prefill != [] && prefill[0] == i
    ensures forall k: nat :: k > i ==> (k in prefill <==> k in After(i, prefill))
  {
    if prefill != [] && prefill[0] == i {
      assert prefill == [i] + prefill[1..];
    }
  }

  /** The positions of the transactions sent in full: the coinbase and the chosen ones. */
  function Positions(prefill: seq<nat>, n: nat): seq<nat> {
    if n == 0 then prefill else [0] + After(0, prefill)
  }

  /** The differences the loop takes are those of the positions. */
  lemma SplitPositions<T, S>(wire: Wire<T, S>, version: nat, txs: seq<T>, prefill: seq<nat>)
    requires ValidPrefill(prefill, 0, |txs|)
    ensures Indexes(Split(wire, version, txs, 0, 0, prefill).diffs, 0) == Positions(prefill, |txs|)
  {
    if txs == [] {
      UsedUp(wire, version, txs, 0, 0, prefill);
    } else {
      ValidAfter(prefill, 0, |txs|);
      LaterPositions(wire, version, txs, 1, 1, After(0, prefill));
      IndexesCons(0, Split(wire, version, txs, 1, 1, After(0, prefill)).diffs, 0);
    }
  }

  lemma {:induction false} LaterPositions<T, S>(wire: Wire<T, S>, version: nat, txs: seq<T>, i: nat, last: nat,
                                                prefill: seq<nat>)
    requires 0 < i && last <= i <= |txs| && ValidPrefill(prefill, i, |txs|)
    ensures Indexes(Split(wire, version, txs, i, last, prefill).diffs, last) == prefill
    decreases |txs| - i
  {
    if i == |txs| {
      UsedUp(wire, version, txs, i, last, prefill);
    } else {
      ValidAfter(prefill, i, |txs|);
      if Chosen(i, prefill) {
        LaterPositions(wire, version, txs, i + 1, i + 1, After(i, prefill));
        IndexesCons(i - last, Split(wire, version, txs, i + 1, i + 1, After(i, prefill)).diffs, last);
        assert prefill == [i] + After(i, prefill);
      } else {
        LaterPositions(wire, version, txs, i + 1, last, prefill);
      }
    }
  }

  /** Every gap between successive positions fits the 16 bits of the message. */
  ghost predicate GapsFit(ix: seq<nat>) {
    Increasing(ix, 0) && forall k :: 0 <= k < |ix| ==> Deltas(ix, 0)[k] < 0x1_0000
  }

  /** The stored differences: those of the positions, cut to 16 bits. */
  ghost predicate Stores<T>(ps: seq<Prefilled<T>>, ix: seq<nat>) {
    && Increasing(ix, 0) && |ps| == |ix|
    && forall k :: 0 <= k < |ix| ==> ps[k].idx == Deltas(ix, 0)[k] % 0x1_0000
  }

  /**
   Splits a block in one pass. It succeeds exactly on a valid prefill, sends the coinbase first and
   stores the cut differences of the positions. A receiver decodes the right positions, and rebuilds
   the block in order, exactly when all gaps fit 16 bits, as they do in blocks of at most 2^16
   transactions.
   */
  method FromBlock<T, S>(wire: Wire<T, S>, txs: seq<T>, version: nat, prefill: seq<nat>)
    returns (r: Result<HeaderAndShortIds<T, S>, BlockError>)
    requires version == 1 || version == 2 ==> |prefill| <= |txs|
    ensures version != 1 && version != 2 ==> r == Err(UnknownVersion)
    ensures version == 1 || version == 2 ==>
              if ValidPrefill(prefill, 0, |txs|) then r.Ok? else r == Err(InvalidPrefill)
    ensures r.Ok? ==> Stores(r.value.prefilledTxs, Positions(prefill, |txs|))
    ensures r.Ok? && |txs| <= 0x1_0000 ==> GapsFit(Positions(prefill, |txs|))
    ensures r.Ok? ==>
              (Indexes(DiffsOf(r.value.prefilledTxs), 0) == Positions(prefill, |txs|) <==>
               GapsFit(Positions(prefill, |txs|)))
    ensures r.Ok? ==>
              (Rebuilt(r.value) == Slots(wire, version, txs, 0, prefill) <==> GapsFit(Positions(prefill, |txs|)))
    ensures r.Ok? && txs != [] ==>
              && r.value.prefilledTxs != []
              && r.value.prefilledTxs[0] == Prefilled(0, if version == 1 then wire.stripped(txs[0]) else txs[0])
  {
    if version != 1 && version != 2 {
      return Err(UnknownVersion);
    }
    var prefilled, shortIds, rest := SplitBlock(wire, txs, version, prefill);
    UsedUp(wire, version, txs, 0, 0, prefill);
    if rest != [] {
      return Err(InvalidPrefill);
    }
    Concluded(wire, version, txs, prefill, prefilled, shortIds);
    r := Ok(HeaderAndShortIds(shortIds, prefilled));
  }

  /** What holds of the stored pieces once the prefill is used up. */
  lemma Concluded<T, S>(wire: Wire<T, S>, version: nat, txs: seq<T>, prefill: seq<nat>,
                        prefilled: seq<Prefilled<T>>, ids: seq<S>)
    requires ValidPrefill(prefill, 0, |txs|)
    requires Done(Split(wire, version, txs, 0, 0, prefill), prefilled, ids, Pieces([], [], [], []))
    ensures var positions := Positions(prefill, |txs|);
            && Stores(prefilled, positions)
            && (|txs| <= 0x1_0000 ==> GapsFit(positions))
            && (Indexes(DiffsOf(prefilled), 0) == positions <==> GapsFit(positions))
    ensures Rebuilt(HeaderAndShortIds(ids, prefilled)) == Slots(wire, version, txs, 0, prefill) <==>
            GapsFit(Positions(prefill, |txs|))
  {
    var all := Split(wire, version, txs, 0, 0, prefill);
    DiffsBelow(wire, version, txs, 0, 0, prefill);
    SplitPositions(wire, version, txs, prefill);
    DeltasOfIndexes(all.diffs, 0);
    CutIff(all, prefilled, ids);
    MergeSplit(wire, version, txs, 0, 0, prefill);
    SplitLength(wire, version, txs, 0, 0, prefill);
    RebuiltIff(all, prefilled, ids, Slots(wire, version, txs, 0, prefill));
  }

  /** The pass over the transactions; positions are cut to 16 bits, as the message stores them. */
  method SplitBlock<T, S>(wire: Wire<T, S>, txs: seq<T>, version: nat, prefill: seq<nat>)
    returns (prefilled: seq<Prefilled<T>>, shortIds: seq<S>, rest: seq<nat>)
    ensures Done(Split(wire, version, txs, 0, 0, prefill), prefilled, shortIds, Pieces([], [], [], rest))
    ensures txs != [] ==> prefilled != [] && prefilled[0] == Prefilled(0, wire.Sent(txs[0], version))
  {
    var last := 0;
    prefilled, shortIds, rest := [], [], prefill;
    ghost var all := Split(wire, version, txs, 0, 0, prefill);
    for i := 0 to |txs|
      invariant last <= i
      invariant Done(all, prefilled, shortIds, Split(wire, version, txs, i, last, rest))
      invariant i > 0 ==> prefilled != [] && prefilled[0] == Prefilled(0, wire.Sent(txs[0], version))
      invariant i == 0 ==> prefilled == []
    {
      var chosen;
      Step(wire, version, txs, i, last, rest, all, prefilled, shortIds);
      if rest != [] && rest[0] == i {
        rest := rest[1..];
        chosen := true;
      } else {
        chosen := i == 0;
      }
      if chosen {
        prefilled := prefilled + [Prefilled((i - last) % 0x1_0000, wire.Sent(txs[i], version))];
        last := i + 1;
      } else {
        shortIds := shortIds + [wire.Id(txs[i], version)];
      }
    }
  }

  /** What has been produced, together with what is still to come, is everything. */
  ghost predicate Done<T, S>(all: Pieces<T, S>, prefilled: seq<Prefilled<T>>, ids: seq<S>, p: Pieces<T, S>) {
    && |all.diffs| == |prefilled| + |p.diffs|
    && (forall k :: 0 <= k < |prefilled| ==> prefilled[k].idx == all.diffs[k] % 0x1_0000)
    && all.diffs[|prefilled|..] == p.diffs
    && all.full == TxsOf(prefilled) + p.full
    && all.ids == ids + p.ids
    && all.rest == p.rest
  }

  lemma Step<T, S>(wire: Wire<T, S>, version: nat, txs: seq<T>, i: nat, last: nat, rest: seq<nat>,
                   all: Pieces<T, S>, prefilled: seq<Prefilled<T>>, ids: seq<S>)
    requires last <= i < |txs| && Done(all, prefilled, ids, Split(wire, version, txs, i, last, rest))
    ensures if Chosen(i, rest) then
              Done(all, prefilled + [Prefilled((i - last) % 0x1_0000, wire.Sent(txs[i], version))], ids,
                   Split(wire, version, txs, i + 1, i + 1, After(i, rest)))
            else
              Done(all, prefilled, ids + [wire.Id(txs[i], version)], Split(wire, version, txs, i + 1, last, rest))
  {
    if Chosen(i, rest) {
      StepFull(all, prefilled, ids, i - last, wire.Sent(txs[i], version),
               Split(wire, version, txs, i + 1, i + 1, After(i, rest)));
    } else {
      StepShort(all, prefilled, ids, wire.Id(txs[i], version), Split(wire, version, txs, i + 1, last, rest));
    }
  }

  lemma StepFull<T, S>(all: Pieces<T, S>, prefilled: seq<Prefilled<T>>, ids: seq<S>, diff: nat, tx: T, p: Pieces<T, S>)
    requires Done(all, prefilled, ids, Pieces([diff] + p.diffs, [tx] + p.full, p.ids, p.rest))
    ensures Done(all, prefilled + [Prefilled(diff % 0x1_0000, tx)], ids, p)
  {
    var more := prefilled + [Prefilled(diff % 0x1_0000, tx)];
    assert TxsOf(more) == TxsOf(prefilled) + [tx];
    assert all.diffs[|prefilled|] == all.diffs[|prefilled|..][0] == diff;
    assert all.diffs[|prefilled|..][1..] == all.diffs[|more|..];
    assert ([diff] + p.diffs)[1..] == p.diffs;
  }

  lemma StepShort<T, S>(all: Pieces<T, S>, prefilled: seq<Prefilled<T>>, ids: seq<S>, id: S, p: Pieces<T, S>)
    requires Done(all, prefilled, ids, Pieces(p.diffs, p.full, [id] + p.ids, p.rest))
    ensures Done(all, prefilled, ids + [id], p)
  {
    assert ids + ([id] + p.ids) == ids + [id] + p.ids;
  }

  /** Once everything is produced, the stored differences decode rightly exactly when none was cut. */
  lemma CutIff<T, S>(all: Pieces<T, S>, prefilled: seq<Prefilled<T>>, ids: seq<S>)
    requires Done(all, prefilled, ids, Pieces([], [], [], all.rest))
    ensures TxsOf(prefilled) == all.full && ids == all.ids
    ensures (Indexes(DiffsOf(prefilled), 0) == Indexes(all.diffs, 0))
       <==> (forall k :: 0 <= k < |all.diffs| ==> all.diffs[k] < 0x1_0000)
    ensures (forall k :: 0 <= k < |all.diffs| ==> all.diffs[k] < 0x1_0000) ==> DiffsOf(prefilled) == all.diffs
  {
    assert TxsOf(prefilled) + [] == TxsOf(prefilled) && ids + [] == ids;
    var cut := DiffsOf(prefilled);
    assert forall k :: 0 <= k < |cut| ==> cut[k] == all.diffs[k] % 0x1_0000;
    IndexesInjective(cut, all.diffs, 0);
    UncutIff(cut, all.diffs);
  }

  /** The positions of the slots sent in full. */
  function FullAt<T, S>(slots: seq<Slot<T, S>>, i: nat): seq<nat> {
    if slots == [] then []
    else (if slots[0].Full? then [i] else []) + FullAt(slots[1..], i + 1)
  }

  /** A merge that uses everything it is given has its full slots at the decoded indexes. */
  lemma {:induction false} MergedAt<T, S>(i: nat, ix: seq<nat>, full: seq<T>, ids: seq<S>)
    requires |ix| == |full| && Increasing(ix, i) && |Merge(i, ix, full, ids)| == |ix| + |ids|
    ensures FullAt(Merge(i, ix, full, ids), i) == ix
    decreases |ix| + |ids|
  {
    if ix != [] && ix[0] == i {
      Rest(ix, i);
      var m := Merge(i + 1, ix[1..], full[1..], ids);
      MergedAt(i + 1, ix[1..], full[1..], ids);
      assert ([Full(full[0])] + m)[1..] == m;
    } else if ids != [] {
      var m := Merge(i + 1, ix, full, ids[1..]);
      assert Increasing(ix, i + 1);
      MergedAt(i + 1, ix, full, ids[1..]);
      assert ([Short(ids[0])] + m)[1..] == m;
    }
  }

  lemma {:induction false} SplitLength<T, S>(wire: Wire<T, S>, version: nat, txs: seq<T>, i: nat, last: nat,
                                             prefill: seq<nat>)
    requires last <= i <= |txs|
    ensures var p := Split(wire, version, txs, i, last, prefill);
            |p.diffs| + |p.ids| == |txs| - i
    decreases |txs| - i
  {
    if i < |txs| {
      if Chosen(i, prefill) {
        SplitLength(wire, version, txs, i + 1, i + 1, After(i, prefill));
      } else {
        SplitLength(wire, version, txs, i + 1, last, prefill);
      }
    }
  }

  /** What was stored merges back to the slots exactly when no difference was cut. */
  lemma RebuiltIff<T, S>(all: Pieces<T, S>, prefilled: seq<Prefilled<T>>, ids: seq<S>, slots: seq<Slot<T, S>>)
    requires Done(all, prefilled, ids, Pieces([], [], [], all.rest)) && |all.diffs| == |all.full|
    requires Merge(0, Indexes(all.diffs, 0), all.full, all.ids) == slots && |slots| == |all.diffs| + |all.ids|
    ensures Merge(0, Indexes(DiffsOf(prefilled), 0), TxsOf(prefilled), ids) == slots <==>
            forall k :: 0 <= k < |all.diffs| ==> all.diffs[k] < 0x1_0000
  {
    CutIff(all, prefilled, ids);
    MergedAt(0, Indexes(all.diffs, 0), all.full, all.ids);
    if Merge(0, Indexes(DiffsOf(prefilled), 0), TxsOf(prefilled), ids) == slots {
      MergedAt(0, Indexes(DiffsOf(prefilled), 0), TxsOf(prefilled), ids);
    }
  }

  /**
   A block just too long: the last of 65538 transactions is stored at the difference zero, which a
   receiver decodes to the second place.
   */
  method FarPrefill<T, S>(wire: Wire<T, S>, tx: T) returns (r: Result<HeaderAndShortIds<T, S>, BlockError>)
    ensures r.Ok? && DiffsOf(r.value.prefilledTxs) == [0, 0]
    ensures Indexes(DiffsOf(r.value.prefilledTxs), 0) == [0, 1] != Positions([65537], 65538)
  {
    var txs := seq(65538, _ => tx);
    r := FromBlock(wire, txs, 2, [65537]);
    FarStored(r.value.prefilledTxs, Positions([65537], 65538));
  }

  lemma FarStored<T>(ps: seq<Prefilled<T>>, ix: seq<nat>)
    requires ix == [0, 65537] && Stores(ps, ix)
    ensures DiffsOf(ps) == [0, 0] && Indexes(DiffsOf(ps), 0) == [0, 1]
  {
    FarDeltas(ix);
    assert DiffsOf(ps) == [0, 0];
    IndexesCons(0, [0], 0);
    IndexesCons(0, [], 1);
    assert [0, 0] == [0] + [0] && [0] == [0] + [];
  }

  lemma FarDeltas(ix: seq<nat>)
    requires ix == [0, 65537]
    ensures Increasing(ix, 0) && Deltas(ix, 0) == [0, 65536]
  {
    assert ix[1..] == [65537];
    assert Deltas([65537], 1) == [65536];
  }

  lemma UncutIff(cut: seq<nat>, ds: seq<nat>)
    requires |cut| == |ds| && forall k :: 0 <= k < |ds| ==> cut[k] == ds[k] % 0x1_0000
    ensures cut == ds <==> forall k :: 0 <= k < |ds| ==> ds[k] < 0x1_0000
  {
  }

  datatype TxIndexOutOfRange = TxIndexOutOfRange(index: U64)

  /** The requested transactions, in the order of the request; the first index out of range is reported. */
  method FromRequest<T>(indexes: seq<U64>, txs: seq<T>) returns (r: Result<seq<T>, TxIndexOutOfRange>)
    ensures r.Ok? <==> forall k :: 0 <= k < |indexes| ==> indexes[k] < |txs|
    ensures r.Ok? ==> |r.value| == |indexes| && forall k :: 0 <= k < |indexes| ==> r.value[k] == txs[indexes[k]]
    ensures r.Err? ==> exists k :: 0 <= k < |indexes| && indexes[k] == r.error.index >= |txs|
                         && forall j :: 0 <= j < k ==> indexes[j] < |txs|
  {
    var out := [];
    for k := 0 to |indexes|
      invariant |out| == k
      invariant forall j :: 0 <= j < k ==> indexes[j] < |txs| && out[j] == txs[indexes[j]]
    {
      if indexes[k] >= |txs| {
        return Err(TxIndexOutOfRange(indexes[k]));
      }
      out := out + [txs[indexes[k]]];
    }
    r := Ok(out);
  }
}
