/**
 Transactions recorded as they happen: the record refines the plain ledger
 "remove the inputs, add the outputs", and substitution turns any earlier listing into the current one.
 */
module Ledger {
  import opened SpendGraph
  import opened SpentRecord
  import opened Substitution

  /** The unspent outputs after `txs`, starting from `start`. */
  function Unspent(start: set<CachedUnspent>, txs: seq<Tx>): set<CachedUnspent> {
    if txs == [] then start
    else var t := txs[|txs| - 1]; Unspent(start, txs[..|txs| - 1]) - t.ins + t.outs
  }

  /** Every output that has existed. */
  function Seen(start: set<CachedUnspent>, txs: seq<Tx>): set<CachedUnspent> {
    if txs == [] then start
    else Seen(start, txs[..|txs| - 1]) + txs[|txs| - 1].outs
  }

  /** Each transaction spends at least one output, only outputs that are unspent at that moment, into new ones. */
  ghost predicate Chronological(start: set<CachedUnspent>, txs: seq<Tx>) {
    txs == [] ||
    var init, t := txs[..|txs| - 1], txs[|txs| - 1];
    && Chronological(start, init)
    && {} < t.ins <= Unspent(start, init)
    && t.outs !! Seen(start, init)
  }

  /** Heights that work for a run also work, one step higher, for the run with a transaction added. */
  ghost function Raised(h: Height, last: Tx): Height {
    x => if x in last.outs then 0 else h(x) + 1
  }

  /** Nothing but outputs that have existed is named by a transaction. */
  ghost predicate WithinSeen(txs: seq<Tx>, seen: set<CachedUnspent>) {
    forall t :: t in txs ==> t.ins <= seen && t.outs <= seen
  }

  lemma RaisedDescends(init: seq<Tx>, last: Tx, h: Height, seen: set<CachedUnspent>)
    requires TxsDescend(init, h) && WithinSeen(init, seen)
    requires last.ins <= seen && last.outs !! seen
    ensures TxsDescend(init + [last], Raised(h, last))
  {
  }

  lemma NewInputsNoDoubleSpend(init: seq<Tx>, last: Tx)
    requires NoDoubleSpend(init) && last.ins !! SpendsOf(init).Keys
    ensures NoDoubleSpend(init + [last])
  {
  }

  lemma {:induction false} RunFacts(start: set<CachedUnspent>, txs: seq<Tx>) returns (h: Height)
    requires Chronological(start, txs)
    ensures NoDoubleSpend(txs) && TxsDescend(txs, h)
    ensures WithinSeen(txs, Seen(start, txs))
    ensures SpendsOf(txs).Keys <= Seen(start, txs)
    ensures Unspent(start, txs) == Seen(start, txs) - SpendsOf(txs).Keys
  {
    if txs == [] {
      h := x => 0;
    } else {
      var init, last := txs[..|txs| - 1], txs[|txs| - 1];
      var h0 := RunFacts(start, init);
      h := Raised(h0, last);
      RaisedDescends(init, last, h0, Seen(start, init));
      NewInputsNoDoubleSpend(init, last);
      assert txs == init + [last];
      WithinSeenAfter(init, last, Seen(start, init));
    }
  }

  lemma WithinSeenAfter(init: seq<Tx>, last: Tx, seen: set<CachedUnspent>)
    requires WithinSeen(init, seen) && last.ins <= seen
    ensures WithinSeen(init + [last], seen + last.outs)
  {
  }

  lemma RunConsistent(start: set<CachedUnspent>, txs: seq<Tx>)
    requires Chronological(start, txs)
    ensures Consistent(txs)
  {
    var h := RunFacts(start, txs);
  }

  // ---------------------------------------------------------------------------------------------
  // Stale views
  // ---------------------------------------------------------------------------------------------

  ghost predicate EndsFrom(g: Graph, s: set<CachedUnspent>, x: CachedUnspent) {
    exists p :: p in s && EndsIn(g, p, x)
  }

  lemma NewOutputsEnd(g: Graph, ins: set<CachedUnspent>, outs: set<CachedUnspent>, i: CachedUnspent, x: CachedUnspent)
    requires i in ins && outs !! g.Keys + ins
    ensures EndsIn(Spend(g, ins, outs), i, x) <==> x in outs
  {
    var g' := Spend(g, ins, outs);
    EndsInStep(g', i, x);
    forall q | q in outs ensures EndsIn(g', q, x) <==> q == x {
      EndsInStep(g', q, x);
    }
  }

  lemma EndsFromAfterSpend(g: Graph, ins: set<CachedUnspent>, outs: set<CachedUnspent>, h: Height,
                           s: set<CachedUnspent>, now: set<CachedUnspent>, x: CachedUnspent)
    requires ins !! g.Keys && outs !! g.Keys + ins && Descends(Spend(g, ins, outs), h)
    requires forall y :: EndsFrom(g, s, y) <==> y in now
    requires {} < ins <= now
    ensures EndsFrom(Spend(g, ins, outs), s, x) <==> x in now - ins + outs
  {
    var g' := Spend(g, ins, outs);
    forall i | i in ins ensures EndsIn(g', i, x) <==> x in outs {
      NewOutputsEnd(g, ins, outs, i, x);
    }
    forall p | p in s
      ensures EndsIn(g', p, x) <==>
              || (x !in ins && EndsIn(g, p, x))
              || exists i :: i in ins && EndsIn(g, p, i) && EndsIn(g', i, x)
    {
      EndsAfterSpend(g, ins, outs, h, p, x);
    }
    if x in outs {
      var i :| i in ins;
      assert EndsFrom(g, s, i);
      var p :| p in s && EndsIn(g, p, i);
      assert EndsIn(g', p, x);
    }
    if x in now - ins {
      assert EndsFrom(g, s, x);
      var p :| p in s && EndsIn(g, p, x);
      assert EndsIn(g', p, x);
    }
    if p :| p in s && EndsIn(g', p, x) {
      if x !in ins && EndsIn(g, p, x) {
        assert EndsFrom(g, s, x);
      }
    }
  }

  lemma RunStep(start: set<CachedUnspent>, init: seq<Tx>, last: Tx) returns (h: Height)
    requires Chronological(start, init + [last])
    ensures Chronological(start, init)
    ensures last.ins !! SpendsOf(init).Keys && last.outs !! SpendsOf(init).Keys + last.ins
    ensures Descends(SpendsOf(init), h) && Descends(Spend(SpendsOf(init), last.ins, last.outs), h)
    ensures SpendsOf(init + [last]) == Spend(SpendsOf(init), last.ins, last.outs)
    ensures {} < last.ins <= Unspent(start, init)
    ensures Unspent(start, init + [last]) == Unspent(start, init) - last.ins + last.outs
  {
    var txs := init + [last];
    assert txs[..|txs| - 1] == init;
    h := RunFacts(start, txs);
    var _ := RunFacts(start, init);
    SpendsDescend(txs, h);
    assert forall t :: t in init ==> t in txs;
    SpendsDescend(init, h);
  }

  /** Followed through the plain spend graph, an earlier set of unspent outputs ends in the current one. */
  lemma {:induction false} EarlierUnspentEndsInCurrent(start: set<CachedUnspent>, txs: seq<Tx>, k: nat,
                                                       x: CachedUnspent)
    requires Chronological(start, txs) && k <= |txs|
    ensures EndsFrom(SpendsOf(txs), Unspent(start, txs[..k]), x) <==> x in Unspent(start, txs)
  {
    var s := Unspent(start, txs[..k]);
    if k == |txs| {
      assert txs[..k] == txs;
      var _ := RunFacts(start, txs);
      forall p | p in s ensures EndsIn(SpendsOf(txs), p, x) <==> p == x {
        EndsInStep(SpendsOf(txs), p, x);
      }
    } else {
      var init, last := txs[..|txs| - 1], txs[|txs| - 1];
      assert txs == init + [last] && init[..k] == txs[..k];
      var h := RunStep(start, init, last);
      forall y ensures EndsFrom(SpendsOf(init), s, y) <==> y in Unspent(start, init) {
        EarlierUnspentEndsInCurrent(start, init, k, y);
      }
      EndsFromAfterSpend(SpendsOf(init), last.ins, last.outs, h, s, Unspent(start, init), x);
    }
  }

  /**
   Whatever earlier moment `k` the listing shows, substitution gives the current unspent outputs of the
   ledger: no spent output is offered again, and every output received meanwhile is offered.
   */
  lemma StaleListingBecomesCurrent(start: set<CachedUnspent>, txs: seq<Tx>, k: nat, listing: set<UnspentInfo>)
    requires Chronological(start, txs) && k <= |txs|
    requires Caches(listing) == Unspent(start, txs[..k])
    ensures Terminates(RecordAll(txs).inputToOutput, listing)
    ensures Caches(Replace(RecordAll(txs).inputToOutput, listing)) == Unspent(start, txs)
  {
    RunConsistent(start, txs);
    RecordTerminates(txs, listing);
    var g := SpendsOf(txs);
    var result := Replace(RecordAll(txs).inputToOutput, listing);
    forall x ensures x in Caches(result) <==> x in Unspent(start, txs) {
      EarlierUnspentEndsInCurrent(start, txs, k, x);
      EndsInStep(g, x, x);
      if x in Caches(result) {
        var u :| u in result && Cache(u) == x;
        SubstitutionFollowsTheTransactions(txs, listing, u);
        if u in listing && Cache(u) !in g {
          assert EndsIn(g, x, x);
        }
      }
      if p :| p in Caches(listing) && EndsIn(g, p, x) {
        var v :| v in listing && Cache(v) == p;
        EndsInStep(g, p, x);
        var u := if p in g then Uncache(x) else v;
        SubstitutionFollowsTheTransactions(txs, listing, u);
        assert u in result && Cache(u) == x;
      }
    }
  }

  lemma RowIsSeen(start: set<CachedUnspent>, txs: seq<Tx>, p: CachedUnspent)
    requires Chronological(start, txs) && p in SpendsOf(txs)
    ensures SpendsOf(txs)[p] <= Seen(start, txs)
  {
  }

  lemma {:induction false} ChainStaysSeen(start: set<CachedUnspent>, txs: seq<Tx>, c: seq<CachedUnspent>)
    requires Chronological(start, txs) && IsChain(SpendsOf(txs), c) && c[0] in Seen(start, txs)
    ensures c[|c| - 1] in Seen(start, txs)
  {
    if |c| > 1 {
      assert c[0] in SpendsOf(txs) && c[0 + 1] in SpendsOf(txs)[c[0]];
      RowIsSeen(start, txs, c[0]);
      ChainStaysSeen(start, txs, c[1..]);
    }
  }

  /** A listing that mixes outputs of any moments still yields only outputs that are unspent now. */
  lemma AnyListingIsSafe(start: set<CachedUnspent>, txs: seq<Tx>, listing: set<UnspentInfo>)
    requires Chronological(start, txs) && Caches(listing) <= Seen(start, txs)
    ensures Terminates(RecordAll(txs).inputToOutput, listing)
    ensures Caches(Replace(RecordAll(txs).inputToOutput, listing)) <= Unspent(start, txs)
  {
    RunConsistent(start, txs);
    RecordTerminates(txs, listing);
    var _ := RunFacts(start, txs);
    var g := SpendsOf(txs);
    forall u | u in Replace(RecordAll(txs).inputToOutput, listing) ensures Cache(u) in Unspent(start, txs) {
      SubstitutionFollowsTheTransactions(txs, listing, u);
      if !(u in listing && Cache(u) !in g) {
        var v :| v in listing && Cache(v) in g && EndsIn(g, Cache(v), Cache(u));
        var c :| ChainFromTo(g, c, Cache(v), Cache(u));
        ChainStaysSeen(start, txs, c);
      }
    }
  }

  // ---------------------------------------------------------------------------------------------
  // The two maps as indexes
  // ---------------------------------------------------------------------------------------------

  /** One map holds the unspent descendants of every spent output, the other the ancestors of every new output. */
  ghost predicate Indexed(r: Record, g: Graph) {
    && r.inputToOutput.Keys == g.Keys
    && (forall p, x :: p in g ==> (x in r.inputToOutput[p] <==> EndsIn(g, p, x)))
    && (forall p, q :: p in g && q in g[p] ==> q in r.outputToInput)
    && (forall o, p :: o in r.outputToInput ==> (p in r.outputToInput[o] <==> Ancestor(g, p, o)))
  }

  lemma {:induction false} ChainAfterSpend(g: Graph, ins: set<CachedUnspent>, outs: set<CachedUnspent>,
                                           c: seq<CachedUnspent>)
    requires ins !! g.Keys && outs !! g.Keys + ins && IsChain(Spend(g, ins, outs), c)
    ensures || Leads(g, c[0], c[|c| - 1])
            || (c[|c| - 1] in outs && exists i :: i in ins && Leads(g, c[0], i))
  {
    var n := |c|;
    LeadsStep(g, c[0], c[n - 1]);
    if n > 1 {
      var y := c[n - 2];
      assert y in Spend(g, ins, outs) && c[n - 2 + 1] in Spend(g, ins, outs)[y];
      ChainAfterSpend(g, ins, outs, c[..n - 1]);
      assert Leads(g, c[0], y);
      if y !in ins {
        assert y in g && c[n - 1] in g[y];
        LeadsLastStep(g, c[0], c[n - 1]);
      }
    }
  }

  lemma AncestorAfterSpend(g: Graph, ins: set<CachedUnspent>, outs: set<CachedUnspent>,
                           p: CachedUnspent, x: CachedUnspent)
    requires ins !! g.Keys && outs !! g.Keys + ins
    ensures Ancestor(Spend(g, ins, outs), p, x) <==>
            Ancestor(g, p, x) || (x in outs && exists i :: i in ins && (p == i || Ancestor(g, p, i)))
  {
    var g' := Spend(g, ins, outs);
    LeadsLastStep(g, p, x);
    LeadsLastStep(g', p, x);
    forall y | y in g' ensures Leads(g', p, y) <==> Leads(g, p, y) {
      if Leads(g', p, y) {
        var c :| ChainFromTo(g', c, p, y);
        ChainAfterSpend(g, ins, outs, c);
      }
      if Leads(g, p, y) {
        var c :| ChainFromTo(g, c, p, y);
        assert ChainFromTo(g', c, p, y);
      }
    }
    forall i | i in ins ensures Leads(g, p, i) <==> p == i || Ancestor(g, p, i) {
      LeadsStep(g, p, i);
    }
    if x in outs {
      forall i | i in ins && (p == i || Ancestor(g, p, i)) ensures Ancestor(g', p, x) {
        assert i in g' && x in g'[i] && Leads(g', p, i);
      }
    }
  }

  /** Under the index invariant, the inputs a row mentions are the ones the other map points back from. */
  lemma TouchedIsTheRow(r: Record, g: Graph, ins: set<CachedUnspent>, p: CachedUnspent)
    requires Indexed(r, g) && ins !! g.Keys && p in g
    ensures Touched(r, ins, p) == ins * r.inputToOutput[p]
  {
    forall i | i in ins ensures i in Touched(r, ins, p) <==> i in r.inputToOutput[p] {
      LeadsStep(g, p, i);
      LeadsLastStep(g, p, i);
    }
  }

  lemma IndexedRow(r: Record, g: Graph, ins: set<CachedUnspent>, outs: set<CachedUnspent>, h: Height,
                   p: CachedUnspent, x: CachedUnspent)
    requires Indexed(r, g) && ins !! g.Keys && outs !! g.Keys + ins && Descends(Spend(g, ins, outs), h)
    requires p in g.Keys + ins
    ensures x in Recorded(r, ins, outs).inputToOutput[p] <==> EndsIn(Spend(g, ins, outs), p, x)
  {
    if p in ins {
      NewOutputsEnd(g, ins, outs, p, x);
    } else {
      TouchedIsTheRow(r, g, ins, p);
      EndsAfterSpend(g, ins, outs, h, p, x);
      forall i | i in ins ensures EndsIn(Spend(g, ins, outs), i, x) <==> x in outs {
        NewOutputsEnd(g, ins, outs, i, x);
      }
      var row := r.inputToOutput[p];
      assert Recorded(r, ins, outs).inputToOutput[p] == Redirected(r, ins, outs, p);
      assert forall i :: i in ins && EndsIn(g, p, i) ==> i in ins * row;
      if ins * row != {} {
        var i :| i in ins * row;
        assert EndsIn(g, p, i);
        assert x in outs ==> EndsIn(Spend(g, ins, outs), i, x);
      }
    }
  }

  lemma IndexedAncestors(r: Record, g: Graph, ins: set<CachedUnspent>, outs: set<CachedUnspent>,
                         o: CachedUnspent, p: CachedUnspent)
    requires Indexed(r, g) && ins !! g.Keys && outs !! g.Keys + ins && outs !! r.outputToInput.Keys
    requires o in r.outputToInput.Keys + outs
    ensures p in Recorded(r, ins, outs).outputToInput[o] <==> Ancestor(Spend(g, ins, outs), p, o)
  {
    AncestorAfterSpend(g, ins, outs, p, o);
    if o in outs {
      LeadsLastStep(g, p, o);
      assert !Ancestor(g, p, o);
      forall i | i in ins && Ancestor(g, p, i) ensures i in r.outputToInput {
        LeadsLastStep(g, p, i);
      }
      if i :| i in ins && Ancestor(g, p, i) {
        assert i in Touched(r, ins, p);
      }
    }
  }

  lemma {:induction false} OutputsSeen(start: set<CachedUnspent>, txs: seq<Tx>)
    ensures RecordAll(txs).outputToInput.Keys <= Seen(start, txs)
  {
    if txs != [] {
      OutputsSeen(start, txs[..|txs| - 1]);
    }
  }

  lemma IndexedAfter(r: Record, g: Graph, ins: set<CachedUnspent>, outs: set<CachedUnspent>, h: Height)
    requires Indexed(r, g) && ins !! g.Keys && outs !! g.Keys + ins && outs !! r.outputToInput.Keys
    requires Descends(Spend(g, ins, outs), h)
    ensures Indexed(Recorded(r, ins, outs), Spend(g, ins, outs))
  {
    var r', g' := Recorded(r, ins, outs), Spend(g, ins, outs);
    forall p, x | p in g' ensures x in r'.inputToOutput[p] <==> EndsIn(g', p, x) {
      IndexedRow(r, g, ins, outs, h, p, x);
    }
    forall o, p | o in r'.outputToInput ensures p in r'.outputToInput[o] <==> Ancestor(g', p, o) {
      IndexedAncestors(r, g, ins, outs, o, p);
    }
  }

  /** Recorded as they happen, the two maps are exact indexes of descendants and ancestors. */
  lemma {:induction false} RecordIsIndexed(start: set<CachedUnspent>, txs: seq<Tx>)
    requires Chronological(start, txs)
    ensures Indexed(RecordAll(txs), SpendsOf(txs))
  {
    if txs != [] {
      var init, last := txs[..|txs| - 1], txs[|txs| - 1];
      assert txs == init + [last];
      RecordIsIndexed(start, init);
      var h := RunStep(start, init, last);
      OutputsSeen(start, init);
      IndexedAfter(RecordAll(init), SpendsOf(init), last.ins, last.outs, h);
    }
  }

  /** No replacement is itself spent, so a single round is the whole substitution. */
  lemma OneRoundSuffices(start: set<CachedUnspent>, txs: seq<Tx>, s: set<UnspentInfo>)
    requires Chronological(start, txs)
    ensures var f := RecordAll(txs).inputToOutput;
            && (forall p, q :: p in f && q in f[p] ==> q !in f)
            && Terminates(f, s) && Replace(f, s) == Round(f, s)
  {
    RecordIsIndexed(start, txs);
    RunConsistent(start, txs);
    RecordTerminates(txs, s);
    var f := RecordAll(txs).inputToOutput;
    forall u | u in Round(f, s) ensures Cache(u) !in f {
      if u !in Kept(f, s) {
        var c :| c in Replacements(f, s) && u == Uncache(c);
        assert Cache(u) == c;
      }
    }
    assert Replacements(f, Round(f, s)) == {} && Kept(f, Round(f, s)) == Round(f, s);
    if Replacements(f, s) != {} {
      assert Halts(f, Round(f, s), 0);
      assert Replace(f, s) == Replace(f, Round(f, s));
    }
  }
}
