/**
 What a wallet answers after any run of notes, promotions and spends, told by the signed transactions alone:
 which outputs they consume, by outpoint and value, and which outputs they pay to the wallet's script.
 */
module WalletRuns {
  import opened Base
  import opened SpendGraph
  import opened SpentRecord
  import opened Substitution
  import opened PendingWithdraws
  import Ledger

  // ---------------------------------------------------------------------------------------------
  // Signed transactions
  // ---------------------------------------------------------------------------------------------

  /** The transaction consumes the output, mined or not. */
  ghost predicate Takes(spend: SignedTx, c: CachedUnspent) {
    exists u :: u in spend.inputs && u.outpoint == c.outpoint && u.value == c.value
  }

  /** The output is one of the transaction's and pays to `script`; positions are kept in 32 bits. */
  ghost predicate Pays(script: Bytes, spend: SignedTx, c: CachedUnspent) {
    exists i :: && 0 <= i < |spend.outputs| && spend.outputs[i].scriptPubkey == script
                && c.value == spend.outputs[i].value
                && c.outpoint.hash == spend.hash && c.outpoint.index == i % 0x1_0000_0000
  }

  lemma TxIs(script: Bytes, spend: SignedTx, c: CachedUnspent)
    ensures c in AsTx(script, spend).ins <==> Takes(spend, c)
    ensures c in AsTx(script, spend).outs <==> Pays(script, spend, c)
  {
    if u :| u in spend.inputs && u.outpoint == c.outpoint && u.value == c.value {
      assert Cache(u) == c;
    }
  }

  ghost predicate TakenBy(spends: seq<SignedTx>, c: CachedUnspent) {
    exists spend :: spend in spends && Takes(spend, c)
  }

  ghost predicate PaidBy(script: Bytes, spends: seq<SignedTx>, c: CachedUnspent) {
    exists spend :: spend in spends && Pays(script, spend, c)
  }

  lemma TakenIs(script: Bytes, spends: seq<SignedTx>, c: CachedUnspent)
    ensures TakenBy(spends, c) <==> exists t :: t in AsTxs(script, spends) && c in t.ins
    ensures PaidBy(script, spends, c) <==> exists t :: t in AsTxs(script, spends) && c in t.outs
  {
    var txs := AsTxs(script, spends);
    forall spend | spend in spends ensures AsTx(script, spend) in txs {
      var i :| 0 <= i < |spends| && spends[i] == spend;
      assert txs[i] == AsTx(script, spend);
    }
    forall t | t in txs ensures exists spend :: spend in spends && t == AsTx(script, spend) {
      var i :| 0 <= i < |txs| && txs[i] == t;
      assert spends[i] in spends;
    }
    forall spend ensures (c in AsTx(script, spend).ins <==> Takes(spend, c)) &&
                         (c in AsTx(script, spend).outs <==> Pays(script, spend, c)) {
      TxIs(script, spend, c);
    }
  }

  ghost predicate HeightsDescend(script: Bytes, spends: seq<SignedTx>, h: Height) {
    forall spend, p, q :: spend in spends && Takes(spend, p) && Pays(script, spend, q) ==> h(q) < h(p)
  }

  /** Spends can be given heights that descend from what is consumed to what is paid. */
  ghost predicate NoSpendCycle(script: Bytes, spends: seq<SignedTx>) {
    exists h: Height :: HeightsDescend(script, spends, h)
  }

  lemma NoCycleIs(script: Bytes, spends: seq<SignedTx>)
    requires NoSpendCycle(script, spends)
    ensures NoCycle(AsTxs(script, spends))
  {
    var h: Height :| HeightsDescend(script, spends, h);
    var txs := AsTxs(script, spends);
    forall t, p, q | t in txs && p in t.ins && q in t.outs ensures h(q) < h(p) {
      var i :| 0 <= i < |txs| && txs[i] == t;
      TxIs(script, spends[i], p);
      TxIs(script, spends[i], q);
    }
    assert TxsDescend(txs, h);
  }

  // ---------------------------------------------------------------------------------------------
  // Safety
  // ---------------------------------------------------------------------------------------------

  /** The keys of the record are exactly the inputs, by outpoint and value, of the transactions entered. */
  lemma RecordedInputs(script: Bytes, ops: seq<Op>, c: CachedUnspent)
    ensures c in Run(script, EMPTY_VIEW, ops).record.inputToOutput <==> TakenBy(Spends(script, EMPTY_VIEW, ops), c)
  {
    RunRecordsEntered(script, ops);
    KeysAre(Entered(script, EMPTY_VIEW, ops));
    TakenIs(script, Spends(script, EMPTY_VIEW, ops), c);
  }

  /** An output that a transaction entered consumed, mined or not, is never offered again. */
  lemma NoInputIsOfferedAgain(script: Bytes, ops: seq<Op>, s: set<UnspentInfo>)
    requires NoSpendCycle(script, Spends(script, EMPTY_VIEW, ops))
    ensures Terminates(Run(script, EMPTY_VIEW, ops).record.inputToOutput, s)
    ensures forall spend, u, w ::
              spend in Spends(script, EMPTY_VIEW, ops) && u in spend.inputs &&
              w in Replace(Run(script, EMPTY_VIEW, ops).record.inputToOutput, s) ==>
                !(w.outpoint == u.outpoint && w.value == u.value)
  {
    var spends := Spends(script, EMPTY_VIEW, ops);
    var g := Run(script, EMPTY_VIEW, ops).record.inputToOutput;
    NoCycleIs(script, spends);
    RunRecordsEntered(script, ops);
    RecordTerminates(Entered(script, EMPTY_VIEW, ops), s);
    forall spend, u, w | spend in spends && u in spend.inputs && w in Replace(g, s)
      ensures !(w.outpoint == u.outpoint && w.value == u.value)
    {
      ReplaceIs(g, s, w);
      RecordedInputs(script, ops, Cache(w));
    }
  }

  // ---------------------------------------------------------------------------------------------
  // The exact answer
  // ---------------------------------------------------------------------------------------------

  ghost predicate Makes(script: Bytes, spends: seq<SignedTx>, p: CachedUnspent, q: CachedUnspent) {
    exists spend :: spend in spends && Takes(spend, p) && Pays(script, spend, q)
  }

  /** Each output is consumed by a transaction that pays the next one. */
  ghost predicate IsPath(script: Bytes, spends: seq<SignedTx>, c: seq<CachedUnspent>) {
    |c| > 1 && forall i :: 0 <= i < |c| - 1 ==> Makes(script, spends, c[i], c[i + 1])
  }

  /** Two transactions that consume one output consume and pay the same: they are one transaction. */
  ghost predicate OneSpender(script: Bytes, spends: seq<SignedTx>) {
    forall a, b, p :: a in spends && b in spends && Takes(a, p) && Takes(b, p) ==>
      (forall c :: Takes(a, c) <==> Takes(b, c)) && (forall c :: Pays(script, a, c) <==> Pays(script, b, c))
  }

  lemma MakesIs(script: Bytes, spends: seq<SignedTx>, p: CachedUnspent, q: CachedUnspent)
    ensures Makes(script, spends, p, q) <==> SpendsInto(AsTxs(script, spends), p, q)
  {
    var txs := AsTxs(script, spends);
    if spend :| spend in spends && Takes(spend, p) && Pays(script, spend, q) {
      var i :| 0 <= i < |spends| && spends[i] == spend;
      TxIs(script, spend, p);
      TxIs(script, spend, q);
      assert txs[i] in txs;
    }
    if t :| t in txs && p in t.ins && q in t.outs {
      var i :| 0 <= i < |txs| && txs[i] == t;
      TxIs(script, spends[i], p);
      TxIs(script, spends[i], q);
      assert spends[i] in spends;
    }
  }

  lemma OneSpenderIs(script: Bytes, spends: seq<SignedTx>)
    requires OneSpender(script, spends)
    ensures NoDoubleSpend(AsTxs(script, spends))
  {
    var txs := AsTxs(script, spends);
    forall t, u | t in txs && u in txs && t != u ensures t.ins !! u.ins {
      var i :| 0 <= i < |txs| && txs[i] == t;
      var j :| 0 <= j < |txs| && txs[j] == u;
      if p :| p in t.ins && p in u.ins {
        TxIs(script, spends[i], p);
        TxIs(script, spends[j], p);
        SameTx(script, spends[i], spends[j]);
      }
    }
  }

  lemma SameTx(script: Bytes, a: SignedTx, b: SignedTx)
    requires (forall c :: Takes(a, c) <==> Takes(b, c)) && (forall c :: Pays(script, a, c) <==> Pays(script, b, c))
    ensures AsTx(script, a) == AsTx(script, b)
  {
    forall c ensures c in AsTx(script, a).ins <==> c in AsTx(script, b).ins {
      TxIs(script, a, c);
      TxIs(script, b, c);
    }
    forall c ensures c in AsTx(script, a).outs <==> c in AsTx(script, b).outs {
      TxIs(script, a, c);
      TxIs(script, b, c);
    }
  }

  /** In the plain graph, the ends of a spent output are its unspent descendants. */
  lemma EndsAreDescendants(txs: seq<Tx>, p: CachedUnspent, x: CachedUnspent)
    requires NoDoubleSpend(txs)
    ensures p in SpendsOf(txs) && EndsIn(SpendsOf(txs), p, x) <==> x !in SpendsOf(txs) && Descended(txs, p, x)
  {
    var g := SpendsOf(txs);
    SpendsAre(txs);
    if p in g && EndsIn(g, p, x) {
      var c :| ChainFromTo(g, c, p, x);
      assert |c| > 1;
      forall i | 0 <= i < |c| - 1 ensures SpendsInto(txs, c[i], c[i + 1]) {
        var t :| t in txs && c[i] in t.ins;
      }
      assert IsDescent(txs, c);
    }
    if x !in g && Descended(txs, p, x) {
      var c :| IsDescent(txs, c) && c[0] == p && c[|c| - 1] == x;
      forall i | 0 <= i < |c| - 1 ensures c[i] in g && c[i + 1] in g[c[i]] {
        assert SpendsInto(txs, c[i], c[i + 1]);
      }
      assert SpendsInto(txs, c[0], c[0 + 1]);
      assert ChainFromTo(g, c, p, x);
    }
  }

  lemma PathIs(script: Bytes, spends: seq<SignedTx>, c: seq<CachedUnspent>)
    ensures IsPath(script, spends, c) <==> IsDescent(AsTxs(script, spends), c)
  {
    forall i | 0 <= i < |c| - 1
      ensures Makes(script, spends, c[i], c[i + 1]) <==> SpendsInto(AsTxs(script, spends), c[i], c[i + 1])
    {
      MakesIs(script, spends, c[i], c[i + 1]);
    }
  }

  ghost predicate MadeFrom(script: Bytes, spends: seq<SignedTx>, p: CachedUnspent, x: CachedUnspent) {
    exists c :: IsPath(script, spends, c) && c[0] == p && c[|c| - 1] == x
  }

  lemma MadeFromIs(script: Bytes, spends: seq<SignedTx>, p: CachedUnspent, x: CachedUnspent)
    ensures MadeFrom(script, spends, p, x) <==> Descended(AsTxs(script, spends), p, x)
  {
    forall c ensures IsPath(script, spends, c) <==> IsDescent(AsTxs(script, spends), c) {
      PathIs(script, spends, c);
    }
  }

  /** What the wallet should answer: outputs that nothing consumed, listed or made out of listed ones. */
  ghost predicate ShouldReturn(script: Bytes, spends: seq<SignedTx>, s: set<UnspentInfo>, u: UnspentInfo) {
    var x := CachedUnspent(u.outpoint, u.value);
    && !TakenBy(spends, x)
    && (u in s ||
        (u.height == None && exists v :: v in s && MadeFrom(script, spends, CachedUnspent(v.outpoint, v.value), x)))
  }

  lemma ShouldReturnIs(script: Bytes, spends: seq<SignedTx>, s: set<UnspentInfo>, u: UnspentInfo)
    requires NoDoubleSpend(AsTxs(script, spends))
    ensures ShouldReturn(script, spends, s, u) <==> StandsFor(SpendsOf(AsTxs(script, spends)), s, u)
  {
    var txs := AsTxs(script, spends);
    SpendsAre(txs);
    TakenIs(script, spends, Cache(u));
    forall v | v in s
      ensures Cache(v) in SpendsOf(txs) && EndsIn(SpendsOf(txs), Cache(v), Cache(u)) <==>
              Cache(u) !in SpendsOf(txs) && MadeFrom(script, spends, Cache(v), Cache(u))
    {
      EndsAreDescendants(txs, Cache(v), Cache(u));
      MadeFromIs(script, spends, Cache(v), Cache(u));
    }
  }

  /** After any run without double spends, the answer to a listing is exactly what it should be. */
  lemma RunReturnsExactly(script: Bytes, ops: seq<Op>, s: set<UnspentInfo>, u: UnspentInfo)
    requires var spends := Spends(script, EMPTY_VIEW, ops); NoSpendCycle(script, spends) && OneSpender(script, spends)
    ensures Terminates(Run(script, EMPTY_VIEW, ops).record.inputToOutput, s)
    ensures u in Replace(Run(script, EMPTY_VIEW, ops).record.inputToOutput, s) <==>
            ShouldReturn(script, Spends(script, EMPTY_VIEW, ops), s, u)
  {
    var spends := Spends(script, EMPTY_VIEW, ops);
    NoCycleIs(script, spends);
    OneSpenderIs(script, spends);
    RunSubstitution(script, ops, s, u);
    ShouldReturnIs(script, spends, s, u);
  }

  // ---------------------------------------------------------------------------------------------
  // Chronological runs
  // ---------------------------------------------------------------------------------------------

  ghost predicate Existed(script: Bytes, start: set<CachedUnspent>, spends: seq<SignedTx>, c: CachedUnspent) {
    c in start || PaidBy(script, spends, c)
  }

  ghost predicate IsUnspent(script: Bytes, start: set<CachedUnspent>, spends: seq<SignedTx>, c: CachedUnspent) {
    Existed(script, start, spends, c) && !TakenBy(spends, c)
  }

  ghost predicate Lists(s: set<UnspentInfo>, c: CachedUnspent) {
    exists u :: u in s && u.outpoint == c.outpoint && u.value == c.value
  }

  lemma ListsIs(s: set<UnspentInfo>, c: CachedUnspent)
    ensures Lists(s, c) <==> c in Caches(s)
  {
    if u :| u in s && u.outpoint == c.outpoint && u.value == c.value {
      assert Cache(u) == c;
    }
  }

  /** A transaction consumes something, only what is unspent at that moment, and pays only what is new. */
  ghost predicate CanFollow(script: Bytes, start: set<CachedUnspent>, before: seq<SignedTx>, spend: SignedTx) {
    && spend.inputs != []
    && (forall c :: Takes(spend, c) ==> IsUnspent(script, start, before, c))
    && (forall c :: Pays(script, spend, c) ==> !Existed(script, start, before, c))
  }

  ghost predicate InOrder(script: Bytes, start: set<CachedUnspent>, spends: seq<SignedTx>) {
    forall k :: 0 <= k < |spends| ==> CanFollow(script, start, spends[..k], spends[k])
  }

  lemma {:induction false} LedgerIs(script: Bytes, start: set<CachedUnspent>, spends: seq<SignedTx>)
    requires InOrder(script, start, spends)
    ensures Ledger.Chronological(start, AsTxs(script, spends))
    ensures forall c :: c in Ledger.Unspent(start, AsTxs(script, spends)) <==> IsUnspent(script, start, spends, c)
    ensures forall c :: c in Ledger.Seen(start, AsTxs(script, spends)) <==> Existed(script, start, spends, c)
    ensures forall c :: TakenBy(spends, c) ==> Existed(script, start, spends, c)
  {
    if spends != [] {
      var init, last := spends[..|spends| - 1], spends[|spends| - 1];
      assert spends == init + [last];
      forall k | 0 <= k < |init| ensures CanFollow(script, start, init[..k], init[k]) {
        assert init[..k] == spends[..k] && init[k] == spends[k];
      }
      LedgerIs(script, start, init);
      var txs := AsTxs(script, spends);
      assert txs[..|txs| - 1] == AsTxs(script, init) && txs[|txs| - 1] == AsTx(script, last);
      assert CanFollow(script, start, init, last);
      LedgerStep(script, start, init, last);
    }
  }

  lemma LedgerStep(script: Bytes, start: set<CachedUnspent>, init: seq<SignedTx>, last: SignedTx)
    requires CanFollow(script, start, init, last)
    requires forall c :: c in Ledger.Unspent(start, AsTxs(script, init)) <==> IsUnspent(script, start, init, c)
    requires forall c :: c in Ledger.Seen(start, AsTxs(script, init)) <==> Existed(script, start, init, c)
    requires forall c :: TakenBy(init, c) ==> Existed(script, start, init, c)
    ensures var t := AsTx(script, last);
            && {} < t.ins <= Ledger.Unspent(start, AsTxs(script, init))
            && t.outs !! Ledger.Seen(start, AsTxs(script, init))
            && (forall c :: c in Ledger.Unspent(start, AsTxs(script, init)) - t.ins + t.outs <==>
                            IsUnspent(script, start, init + [last], c))
            && (forall c :: c in Ledger.Seen(start, AsTxs(script, init)) + t.outs <==>
                            Existed(script, start, init + [last], c))
            && (forall c :: TakenBy(init + [last], c) ==> Existed(script, start, init + [last], c))
  {
    forall c ensures (c in AsTx(script, last).ins <==> Takes(last, c)) &&
                     (c in AsTx(script, last).outs <==> Pays(script, last, c)) {
      TxIs(script, last, c);
    }
    assert Cache(last.inputs[0]) in AsTx(script, last).ins;
    forall c ensures TakenBy(init + [last], c) <==> TakenBy(init, c) || Takes(last, c) {
    }
    forall c ensures PaidBy(script, init + [last], c) <==> PaidBy(script, init, c) || Pays(script, last, c) {
    }
  }

  lemma PrefixIsInOrder(script: Bytes, start: set<CachedUnspent>, spends: seq<SignedTx>, k: nat)
    requires InOrder(script, start, spends) && k <= |spends|
    ensures InOrder(script, start, spends[..k]) && AsTxs(script, spends[..k]) == AsTxs(script, spends)[..k]
  {
    forall i | 0 <= i < k ensures CanFollow(script, start, spends[..k][..i], spends[..k][i]) {
      assert spends[..k][..i] == spends[..i] && spends[..k][i] == spends[i];
    }
  }

  /**
   After a run whose transactions were entered in the order they happened, a listing of any earlier moment
   becomes exactly the outputs that exist now and that nothing has consumed.
   */
  lemma StaleListingIsCurrent(script: Bytes, ops: seq<Op>, start: set<CachedUnspent>, k: nat,
                              listing: set<UnspentInfo>, c: CachedUnspent)
    requires InOrder(script, start, Spends(script, EMPTY_VIEW, ops)) && k <= |Spends(script, EMPTY_VIEW, ops)|
    requires forall x :: Lists(listing, x) <==> IsUnspent(script, start, Spends(script, EMPTY_VIEW, ops)[..k], x)
    ensures Terminates(Run(script, EMPTY_VIEW, ops).record.inputToOutput, listing)
    ensures Lists(Replace(Run(script, EMPTY_VIEW, ops).record.inputToOutput, listing), c) <==>
            IsUnspent(script, start, Spends(script, EMPTY_VIEW, ops), c)
  {
    var spends := Spends(script, EMPTY_VIEW, ops);
    var txs := AsTxs(script, spends);
    LedgerIs(script, start, spends);
    PrefixIsInOrder(script, start, spends, k);
    LedgerIs(script, start, spends[..k]);
    forall x ensures x in Caches(listing) <==> x in Ledger.Unspent(start, txs[..k]) {
      ListsIs(listing, x);
    }
    RunStaleListing(script, ops, start, k, listing);
    ListsIs(Replace(Run(script, EMPTY_VIEW, ops).record.inputToOutput, listing), c);
  }
}
