/** The fee of a taker swap and its split between the fee address and a burn output, over exact rationals. */
module DexFee {
  import opened Base

  datatype Destination = KmdOpReturn | PreBurnAccount(burnPubkey: Bytes)

  datatype Fee =
    | NoFee
    | Standard(amount: real)
    | WithBurn(feePart: real, burnPart: real, destination: Destination)
  {
    function TotalSpend(): real {
      match this
      case NoFee => 0.0
      case Standard(amount) => amount
      case WithBurn(fee, burn, _) => fee + burn
    }

    function FeeAmount(): real {
      match this
      case NoFee => 0.0
      case Standard(amount) => amount
      case WithBurn(fee, _, _) => fee
    }

    function BurnAmount(): real {
      if WithBurn? then burnPart else 0.0
    }
  }

  function Larger(a: real, b: real): real {
    if a < b then b else a
  }

  function ForOpReturn(total: real, dust: real, share: real): Fee {
    OpReturnSplit(total, total * share, dust)
  }

  /** Three ranges: all of it dust, the full split, and a fee leg raised to dust. */
  function OpReturnSplit(total: real, feePart: real, dust: real): Fee {
    if total <= dust then Standard(dust)
    else
      if feePart >= dust then
        var burnPart := total - feePart;
        if feePart <= 0.0 || burnPart <= 0.0 then Standard(total) else WithBurn(feePart, burnPart, KmdOpReturn)
      else
        var burnPart := total - dust;
        if burnPart <= 0.0 then Standard(total) else WithBurn(dust, burnPart, KmdOpReturn)
  }

  function ForBurnAccount(fee: real, dust: real, share: real, burnPubkey: Bytes): Fee {
    Split(fee, fee * share, dust, burnPubkey)
  }

  /** Two outputs, unless one of them would be dust. */
  function Split(fee: real, feePart: real, dust: real, burnPubkey: Bytes): Fee {
    var burnPart := fee - feePart;
    if feePart <= 0.0 || burnPart <= 0.0 || burnPart < dust || feePart < dust then Standard(fee)
    else WithBurn(feePart, burnPart, PreBurnAccount(burnPubkey))
  }

  datatype Coin = Coin(minTxAmount: real, burnsDirectly: bool, burnsFee: bool, burnPubkey: Bytes, privacy: bool)

  datatype Net = Net(burnEnabled: bool, feeShare: real, burnPubkey: Bytes)

  /** The coin's own burn key, else the network's. */
  function BurnKey(coin: Coin, net: Net): Bytes {
    if coin.burnPubkey != [] then coin.burnPubkey else net.burnPubkey
  }

  function FromTakerCoin(coin: Coin, net: Net, base: real): Fee {
    if !net.burnEnabled then Standard(base)
    else if coin.burnsDirectly then ForOpReturn(base, coin.minTxAmount, net.feeShare)
    else if !coin.burnsFee then Standard(base)
    else if BurnKey(coin, net) == [] then Standard(base)
    else ForBurnAccount(base, coin.minTxAmount, net.feeShare, BurnKey(coin, net))
  }

  function WithTakerPubkey(coin: Coin, net: Net, base: real, takerPubkey: Bytes): Fee {
    if !coin.privacy && BurnKey(coin, net) != [] && BurnKey(coin, net) == takerPubkey then NoFee
    else FromTakerCoin(coin, net, base)
  }

  // ---------------------------------------------------------------------------------------------
  // Closed forms
  // ---------------------------------------------------------------------------------------------

  lemma ShareOf(total: real, share: real)
    requires 0.0 < share <= 1.0
    ensures total > 0.0 ==> 0.0 < total * share <= total
    ensures total <= 0.0 ==> total * share <= 0.0
  {
  }

  /** The three ranges of the split are one formula: the fee leg is the share but never below dust. */
  lemma OpReturnClosedForm(total: real, dust: real, share: real, part: real)
    requires 0.0 < share <= 1.0 && dust >= 0.0 && part == total * share
    ensures ForOpReturn(total, dust, share).FeeAmount() == Larger(dust, part)
    ensures ForOpReturn(total, dust, share).TotalSpend() == Larger(total, dust)
    ensures ForOpReturn(total, dust, share).BurnAmount() == Larger(total, dust) - Larger(dust, part)
  {
    ShareOf(total, share);
    OpReturnLegs(total, part, dust);
  }

  lemma OpReturnLegs(total: real, part: real, dust: real)
    requires (total > 0.0 ==> 0.0 < part <= total) && (total <= 0.0 ==> part <= 0.0) && dust >= 0.0
    ensures var f := OpReturnSplit(total, part, dust);
            && f.FeeAmount() == Larger(dust, part)
            && f.TotalSpend() == Larger(total, dust)
            && f.BurnAmount() == Larger(total, dust) - Larger(dust, part)
  {
  }

  lemma ShareMonotone(total: real, total': real, share: real)
    requires total <= total' && 0.0 <= share <= 1.0
    ensures total * share <= total' * share
    ensures total - total * share <= total' - total' * share
  {
  }

  /** A larger total never makes the fee leg, the burn leg or what is spent smaller. */
  lemma OpReturnMonotone(total: real, total': real, dust: real, share: real)
    requires total <= total' && 0.0 < share <= 1.0 && dust >= 0.0
    ensures var f, f' := ForOpReturn(total, dust, share), ForOpReturn(total', dust, share);
            f.FeeAmount() <= f'.FeeAmount() && f.BurnAmount() <= f'.BurnAmount() && f.TotalSpend() <= f'.TotalSpend()
  {
    ShareMonotone(total, total', share);
    ShareOf(total, share);
    ShareOf(total', share);
    SplitMonotone(total, total', total * share, total' * share, dust);
  }

  lemma SplitMonotone(total: real, total': real, part: real, part': real, dust: real)
    requires total <= total' && part <= part' && total - part <= total' - part' && dust >= 0.0
    requires (total > 0.0 ==> 0.0 < part <= total) && (total' > 0.0 ==> 0.0 < part' <= total')
    requires (total <= 0.0 ==> part <= 0.0) && (total' <= 0.0 ==> part' <= 0.0)
    ensures var f, f' := OpReturnSplit(total, part, dust), OpReturnSplit(total', part', dust);
            f.FeeAmount() <= f'.FeeAmount() && f.BurnAmount() <= f'.BurnAmount() && f.TotalSpend() <= f'.TotalSpend()
  {
  }

  ghost predicate ClosedForm(f: Fee, total: real, part: real, dust: real) {
    f.FeeAmount() == Larger(dust, part) && f.TotalSpend() == Larger(total, dust)
  }

  ghost predicate FormHolds(total: real, dust: real, share: real) {
    ClosedForm(ForOpReturn(total, dust, share), total, total * share, dust)
  }

  lemma ClosedFormByPart(total: real, part: real, dust: real)
    requires total >= 0.0 && dust > 0.0
    ensures part <= total ==> ClosedForm(OpReturnSplit(total, part, dust), total, part, dust)
    ensures total > dust && part > total ==> !ClosedForm(OpReturnSplit(total, part, dust), total, part, dust)
  {
  }

  lemma AtMostTheTotal(total: real, share: real)
    requires total >= 0.0
    ensures share <= 1.0 ==> total * share <= total
    ensures share > 1.0 && total > 0.0 ==> total * share > total
  {
  }

  lemma FormUpToTheWhole(total: real, dust: real, share: real)
    requires total >= 0.0 && dust > 0.0 && share <= 1.0
    ensures FormHolds(total, dust, share)
  {
    var part := total * share;
    assert part <= total by {
      AtMostTheTotal(total, share);
    }
    assert ClosedForm(OpReturnSplit(total, part, dust), total, part, dust) by {
      ClosedFormByPart(total, part, dust);
    }
  }

  /** With a positive dust the formula holds for every total exactly when the share is at most the whole. */
  lemma ClosedFormExactlyUpToTheWhole(dust: real, share: real)
    requires dust > 0.0
    ensures (forall total :: total >= 0.0 ==> FormHolds(total, dust, share)) <==> share <= 1.0
  {
    if share <= 1.0 {
      forall total | total >= 0.0 ensures FormHolds(total, dust, share) {
        FormUpToTheWhole(total, dust, share);
      }
    }
    if share > 1.0 {
      var total := dust + dust;
      AtMostTheTotal(total, share);
      ClosedFormByPart(total, total * share, dust);
      assert !FormHolds(total, dust, share);
    }
  }

  /** The burn-account split spends exactly the fee, and splits exactly when both legs are positive and reach dust. */
  lemma BurnAccountConserves(fee: real, dust: real, share: real, part: real, key: Bytes)
    requires part == fee * share
    ensures var f := ForBurnAccount(fee, dust, share, key);
            && f.TotalSpend() == fee
            && (f.WithBurn? <==> 0.0 < part < fee && dust <= part <= fee - dust)
            && (f.WithBurn? ==> f.FeeAmount() == part && f.destination == PreBurnAccount(key))
  {
  }

  /** The taker spends nothing as the holder of the burn key, else the base fee, raised to dust on the direct burn. */
  lemma TakerSpends(coin: Coin, net: Net, base: real, takerPubkey: Bytes)
    requires 0.0 < net.feeShare <= 1.0 && coin.minTxAmount >= 0.0
    ensures var waived := !coin.privacy && takerPubkey != [] && BurnKey(coin, net) == takerPubkey;
            WithTakerPubkey(coin, net, base, takerPubkey).TotalSpend() ==
            if waived then 0.0
            else if net.burnEnabled && coin.burnsDirectly then Larger(base, coin.minTxAmount)
            else base
    ensures FromTakerCoin(coin, net, base).TotalSpend() ==
            if net.burnEnabled && coin.burnsDirectly then Larger(base, coin.minTxAmount) else base
  {
  }

  /** The outputs of the direct burn: one, or the fee leg of the closed form and the rest burnt by `OP_RETURN`. */
  lemma OpReturnOutputs(total: real, dust: real, share: real, part: real)
    requires 0.0 < share <= 1.0 && dust >= 0.0 && part == total * share
    ensures var f := ForOpReturn(total, dust, share);
            && (f.WithBurn? <==> total > dust && part < total)
            && (f.WithBurn? ==> f == WithBurn(Larger(dust, part), total - Larger(dust, part), KmdOpReturn))
            && (!f.WithBurn? ==> f == Standard(Larger(total, dust)))
  {
    ShareOf(total, share);
    OpReturnOutputsByPart(total, part, dust);
  }

  lemma OpReturnOutputsByPart(total: real, part: real, dust: real)
    requires (total > 0.0 ==> 0.0 < part <= total) && (total <= 0.0 ==> part <= 0.0) && dust >= 0.0
    ensures var f := OpReturnSplit(total, part, dust);
            && (f.WithBurn? <==> total > dust && part < total)
            && (f.WithBurn? ==> f == WithBurn(Larger(dust, part), total - Larger(dust, part), KmdOpReturn))
            && (!f.WithBurn? ==> f == Standard(Larger(total, dust)))
  {
  }

  /** The burn key is the coin's own if it has one, else the network's. */
  ghost predicate BurnsTo(coin: Coin, net: Net, key: Bytes) {
    key != [] && (key == coin.burnPubkey || (coin.burnPubkey == [] && key == net.burnPubkey))
  }

  /**
   Which outputs the taker pays: one for the whole base fee if the network burns nothing, if the coin's fee is not
   burnt, or if nobody has a burn key; the direct burn for a coin that burns directly; else, where both legs are
   positive and reach dust, the share and the rest, the rest to the burn key.
   */
  lemma TakerFeeByCases(coin: Coin, net: Net, base: real, part: real, key: Bytes)
    requires part == base * net.feeShare
    ensures var f := FromTakerCoin(coin, net, base);
            && (!net.burnEnabled ==> f == Standard(base))
            && (net.burnEnabled && coin.burnsDirectly ==> f == ForOpReturn(base, coin.minTxAmount, net.feeShare))
            && (net.burnEnabled && !coin.burnsDirectly && !coin.burnsFee ==> f == Standard(base))
            && (net.burnEnabled && !coin.burnsDirectly && (forall k :: !BurnsTo(coin, net, k)) ==> f == Standard(base))
            && (net.burnEnabled && !coin.burnsDirectly && coin.burnsFee && BurnsTo(coin, net, key) ==>
                  f == if 0.0 < part < base && coin.minTxAmount <= part <= base - coin.minTxAmount
                       then WithBurn(part, base - part, PreBurnAccount(key)) else Standard(base))
  {
    assert coin.burnPubkey != [] ==> BurnsTo(coin, net, coin.burnPubkey);
    assert coin.burnPubkey == [] && net.burnPubkey != [] ==> BurnsTo(coin, net, net.burnPubkey);
  }

  /** Exactly the holder of the burn key, on a coin that is no privacy coin, pays no fee. */
  lemma HolderPaysNoFee(coin: Coin, net: Net, base: real, takerPubkey: Bytes)
    ensures WithTakerPubkey(coin, net, base, takerPubkey) ==
            if !coin.privacy && BurnsTo(coin, net, takerPubkey) then NoFee else FromTakerCoin(coin, net, base)
  {
  }
}
