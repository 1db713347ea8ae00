/** The basic block filter of BIP 158: output scripts and spent scripts of a block. */
module BlockFilter {
  import opened Arith
  import opened Results
  import opened Gcs

  const P: nat := 19
  const M: U64 := 784931
  const OP_RETURN: Byte := 0x6a

  type Script = seq<Byte>

  /** What the filter sees of a transaction: the outpoints it spends and the scripts it creates. */
  datatype Tx<Coin> = Tx(inputs: seq<Coin>, outputs: seq<Script>)

  datatype FilterError<Coin> = UtxoMissing(coin: Coin)

  predicate IsOpReturn(s: Script) {
    s != [] && s[0] == OP_RETURN
  }

  /** A data carrier starts with the byte 0x6a. */
  ghost predicate CarriesData(s: Script) {
    |s| > 0 && s[0] as nat == 106
  }

  function Outputs<Coin>(txs: seq<Tx<Coin>>): seq<Script> {
    if txs == [] then [] else Outputs(txs[..|txs| - 1]) + txs[|txs| - 1].outputs
  }

  function Spends<Coin>(txs: seq<Tx<Coin>>): seq<Coin> {
    if txs == [] then [] else Spends(txs[..|txs| - 1]) + txs[|txs| - 1].inputs
  }

  /** The coins a block spends, in order; the coinbase spends nothing. */
  function Spent<Coin>(txs: seq<Tx<Coin>>): seq<Coin> {
    if txs == [] then [] else Spends(txs[1..])
  }

  /** Every spent coin is known. */
  ghost predicate AllKnown<Coin(!new)>(spends: seq<Coin>, lookup: Coin -> Option<Script>) {
    forall k :: 0 <= k < |spends| ==> lookup(spends[k]).Some?
  }

  /** Coin `k` is the first unknown one. */
  ghost predicate FirstUnknown<Coin(!new)>(spends: seq<Coin>, lookup: Coin -> Option<Script>, k: nat, coin: Coin) {
    && k < |spends| && spends[k] == coin && lookup(coin).None?
    && AllKnown(spends[..k], lookup)
  }

  /** Output scripts that enter the filter. */
  ghost function Created(outputs: seq<Script>): set<Script> {
    set s | s in outputs && s != [] && !CarriesData(s)
  }

  /** Scripts of the spent coins that enter the filter. */
  ghost function Consumed<Coin(!new)>(spends: seq<Coin>, lookup: Coin -> Option<Script>): set<Script> {
    set c | c in spends && lookup(c).Some? && lookup(c).value != [] :: lookup(c).value
  }

  /** The elements of a block's filter; the coinbase spends nothing. */
  ghost function BlockElements<Coin(!new)>(txs: seq<Tx<Coin>>, lookup: Coin -> Option<Script>): set<Script> {
    Created(Outputs(txs)) + Consumed(Spent(txs), lookup)
  }

  method AddOutputScripts<Coin>(writer: GcsFilterWriter, txs: seq<Tx<Coin>>)
    modifies writer
    ensures writer.elements == old(writer.elements) + Created(Outputs(txs))
  {
    for i := 0 to |txs|
      invariant writer.elements == old(writer.elements) + Created(Outputs(txs[..i]))
    {
      var outs := txs[i].outputs;
      for j := 0 to |outs|
        invariant writer.elements == old(writer.elements) + Created(Outputs(txs[..i]) + outs[..j])
      {
        assert outs[..j + 1] == outs[..j] + [outs[j]];
        if !IsOpReturn(outs[j]) {
          writer.AddElement(outs[j]);
        }
      }
      assert outs[..|outs|] == outs;
      assert txs[..i + 1][..i] == txs[..i];
    }
    assert txs[..|txs|] == txs;
  }

  method AddInputScripts<Coin(!new)>(writer: GcsFilterWriter, txs: seq<Tx<Coin>>, lookup: Coin -> Option<Script>)
    returns (r: Result<(), FilterError<Coin>>)
    modifies writer
    ensures r.Ok? <==> AllKnown(Spent(txs), lookup)
    ensures r.Ok? ==> writer.elements == old(writer.elements) + Consumed(Spent(txs), lookup)
    ensures r.Err? ==> exists k: nat :: FirstUnknown(Spent(txs), lookup, k, r.error.coin)
  {
    var tail := if txs == [] then [] else txs[1..];
    for i := 0 to |tail|
      invariant writer.elements == old(writer.elements) + Consumed(Spends(tail[..i]), lookup)
      invariant AllKnown(Spends(tail[..i]), lookup)
    {
      SpendsStep(tail, i);
      var unknown := AddInputs(writer, tail[i].inputs, lookup, Spends(tail[..i]), Spends(tail));
      if unknown.Some? {
        return Err(UtxoMissing(unknown.value));
      }
      ConsumedConcat(Spends(tail[..i]), tail[i].inputs, lookup);
    }
    assert tail[..|tail|] == tail;
    r := Ok(());
  }

  /** The inputs of one transaction, behind the coins of the transactions before it. */
  method AddInputs<Coin(!new)>(writer: GcsFilterWriter, ins: seq<Coin>, lookup: Coin -> Option<Script>,
                               ghost before: seq<Coin>, ghost spends: seq<Coin>)
    returns (unknown: Option<Coin>)
    requires before + ins <= spends && AllKnown(before, lookup)
    modifies writer
    ensures unknown.None? ==> AllKnown(before + ins, lookup)
    ensures unknown.None? ==> forall s ::
              s in writer.elements <==> s in old(writer.elements) || s in Consumed(ins, lookup)
    ensures unknown.Some? ==> exists k: nat :: FirstUnknown(spends, lookup, k, unknown.value)
  {
    for j := 0 to |ins|
      invariant forall s :: s in writer.elements <==> s in old(writer.elements) || s in Consumed(ins[..j], lookup)
      invariant AllKnown(before + ins[..j], lookup)
    {
      NextCoin(before, ins, j, spends);
      match lookup(ins[j])
      case None =>
        assert FirstUnknown(spends, lookup, |before| + j, ins[j]);
        return Some(ins[j]);
      case Some(script) =>
        ConsumedStep(ins[..j], ins[j], lookup);
        KnownStep(before + ins[..j], ins[j], lookup);
        assert ins[..j + 1] == ins[..j] + [ins[j]];
        writer.AddElement(script);
    }
    assert ins[..|ins|] == ins;
    unknown := None;
  }

  lemma KnownStep<Coin(!new)>(spends: seq<Coin>, c: Coin, lookup: Coin -> Option<Script>)
    requires AllKnown(spends, lookup) && lookup(c).Some?
    ensures AllKnown(spends + [c], lookup)
  {
  }

  lemma ConsumedConcat<Coin(!new)>(a: seq<Coin>, b: seq<Coin>, lookup: Coin -> Option<Script>)
    ensures Consumed(a + b, lookup) == Consumed(a, lookup) + Consumed(b, lookup)
  {
    var all := a + b;
    assert forall d :: d in all <==> d in a || d in b;
  }

  lemma NextCoin<Coin>(before: seq<Coin>, ins: seq<Coin>, j: nat, spends: seq<Coin>)
    requires j < |ins| && before + ins <= spends
    ensures before + ins[..j + 1] == before + ins[..j] + [ins[j]]
    ensures |before| + j < |spends| && spends[|before| + j] == ins[j] && spends[..|before| + j] == before + ins[..j]
  {
    assert (before + ins)[..|before| + j] == before + ins[..j];
    assert spends[..|before + ins|] == before + ins;
  }

  lemma {:induction false} SpendsStep<Coin>(txs: seq<Tx<Coin>>, i: nat)
    requires i < |txs|
    ensures Spends(txs[..i + 1]) == Spends(txs[..i]) + txs[i].inputs <= Spends(txs)
    decreases |txs| - i
  {
    assert txs[..i + 1][..i] == txs[..i];
    if i + 1 == |txs| {
      assert txs[..i + 1] == txs;
    } else {
      SpendsStep(txs, i + 1);
    }
  }

  lemma ConsumedStep<Coin(!new)>(spends: seq<Coin>, c: Coin, lookup: Coin -> Option<Script>)
    requires lookup(c).Some?
    ensures Consumed(spends + [c], lookup)
         == Consumed(spends, lookup) + (if lookup(c).value == [] then {} else {lookup(c).value})
  {
    var all := spends + [c];
    assert forall d :: d in all <==> d in spends || d == c;
  }

  /** Builds the filter of a block: it fails exactly when a spent coin is unknown. */
  method NewScriptFilter<Coin(!new)>(hash: Element -> U64, txs: seq<Tx<Coin>>, lookup: Coin -> Option<Script>)
    returns (r: Result<Content, FilterError<Coin>>)
    ensures r.Ok? <==> AllKnown(Spent(txs), lookup)
    ensures r.Err? ==> exists k: nat :: FirstUnknown(Spent(txs), lookup, k, r.error.coin)
    ensures r.Ok? ==>
              var elements := BlockElements(txs, lookup);
              var held := Held(r.value, 19);
              && r.value.n == |elements|
              && held.Some? && Sorted(held.value)
              && forall v :: v in held.value <==>
                   exists e :: e in elements && Place(hash(e), |elements|, 784931) == v
  {
    var writer := new GcsFilterWriter(Params(hash, M, P));
    AddOutputScripts(writer, txs);
    var added := AddInputScripts(writer, txs, lookup);
    if added.Err? {
      return Err(added.error);
    }
    assert writer.elements == BlockElements(txs, lookup);
    var content, _ := writer.Finish();
    r := Ok(content);
  }

  /**
   Whether a wallet finds a block by its filter: there is an answer exactly when all spent coins are
   known, it is that some query maps where a script of the block does, and so any script is found.
   */
  method FindsBlock<Coin(!new)>(hash: Element -> U64, txs: seq<Tx<Coin>>, lookup: Coin -> Option<Script>,
                                query: seq<Script>)
    returns (r: Result<bool, FilterError<Coin>>)
    ensures r.Ok? <==> AllKnown(Spent(txs), lookup)
    ensures r.Err? ==> exists k: nat :: FirstUnknown(Spent(txs), lookup, k, r.error.coin)
    ensures r.Ok? ==>
              var elements := BlockElements(txs, lookup);
              var n := |elements|;
              r.value <==> exists q, e ::
                q in query && e in elements && Place(hash(q), n, 784931) == Place(hash(e), n, 784931)
    ensures r.Ok? && (exists q :: q in query && q in BlockElements(txs, lookup)) ==> r.value
  {
    var content := NewScriptFilter(hash, txs, lookup);
    if content.Err? {
      return Err(content.error);
    }
    var found := MatchAny(Params(hash, M, P), content.value, query);
    r := Ok(found.value);
  }
}
