/**
 The recently-spent record as a value: what recording one transaction does to the two maps, and the
 invariant that ties them to the plain spend graph of the transactions recorded so far.
 */
module SpentRecord {
  import opened SpendGraph

  /** A transaction as the record sees it: the outputs it consumes and its outputs paying to our script. */
  datatype Tx = Tx(ins: set<CachedUnspent>, outs: set<CachedUnspent>)

  datatype Record = Record(inputToOutput: Graph, outputToInput: Graph)

  const EMPTY_RECORD := Record(map[], map[])

  // ---------------------------------------------------------------------------------------------
  // One transaction
  // ---------------------------------------------------------------------------------------------

  /** The inputs of the transaction that an earlier input `p` is known to have led to. */
  function Touched(r: Record, ins: set<CachedUnspent>, p: CachedUnspent): (a: set<CachedUnspent>) {
    set i | i in ins && i in r.outputToInput && p in r.outputToInput[i]
  }

  /** The earlier inputs whose rows mention one of `ins`. */
  function EarlierInputs(r: Record, ins: set<CachedUnspent>): (ps: set<CachedUnspent>) {
    set p | p in r.inputToOutput.Keys && Touched(r, ins, p) != {}
  }

  /** The row of an earlier input once `ins` are spent into `outs`. */
  function Redirected(r: Record, ins: set<CachedUnspent>, outs: set<CachedUnspent>, p: CachedUnspent)
    : (row: set<CachedUnspent>)
    requires p in r.inputToOutput
  {
    var touched := Touched(r, ins, p);
    if touched == {} then r.inputToOutput[p] else r.inputToOutput[p] - touched + outs
  }

  function Recorded(r: Record, ins: set<CachedUnspent>, outs: set<CachedUnspent>): (r': Record) {
    var rows := map p | p in r.inputToOutput.Keys :: Redirected(r, ins, outs, p);
    var ancestors := EarlierInputs(r, ins) + ins;
    Record(Spend(rows, ins, outs), r.outputToInput + map o | o in outs :: ancestors)
  }

  // ---------------------------------------------------------------------------------------------
  // Histories
  // ---------------------------------------------------------------------------------------------

  function RecordAll(txs: seq<Tx>): Record {
    if txs == [] then EMPTY_RECORD
    else var t := txs[|txs| - 1]; Recorded(RecordAll(txs[..|txs| - 1]), t.ins, t.outs)
  }

  /** The plain spend graph: every spent output mapped to the outputs of the transaction that spent it. */
  function SpendsOf(txs: seq<Tx>): Graph {
    if txs == [] then map[]
    else var t := txs[|txs| - 1]; Spend(SpendsOf(txs[..|txs| - 1]), t.ins, t.outs)
  }

  /** No output is consumed by two different transactions. A transaction may be recorded more than once. */
  ghost predicate NoDoubleSpend(txs: seq<Tx>) {
    forall t, u :: t in txs && u in txs && t != u ==> t.ins !! u.ins
  }

  ghost predicate TxsDescend(txs: seq<Tx>, h: Height) {
    forall t, p, q :: t in txs && p in t.ins && q in t.outs ==> h(q) < h(p)
  }

  /** No chain of spends comes back to its start. An output may still be spent by several transactions. */
  ghost predicate NoCycle(txs: seq<Tx>) {
    exists h: Height :: TxsDescend(txs, h)
  }

  /** The order of recording is not constrained: a child may be recorded before its parent. */
  ghost predicate Consistent(txs: seq<Tx>) {
    NoDoubleSpend(txs) && NoCycle(txs)
  }

  /** The plain spend graph depends only on which transactions there are. */
  lemma {:induction false} SpendsAre(txs: seq<Tx>)
    requires NoDoubleSpend(txs)
    ensures forall p :: p in SpendsOf(txs) <==> exists t :: t in txs && p in t.ins
    ensures forall t, p :: t in txs && p in t.ins ==> p in SpendsOf(txs) && SpendsOf(txs)[p] == t.outs
  {
    if txs != [] {
      var init, last := txs[..|txs| - 1], txs[|txs| - 1];
      assert txs == init + [last];
      SpendsAre(init);
    }
  }

  lemma SpendsDescend(txs: seq<Tx>, h: Height)
    requires NoDoubleSpend(txs) && TxsDescend(txs, h)
    ensures Descends(SpendsOf(txs), h)
  {
  }

  // ---------------------------------------------------------------------------------------------
  // The invariant of the two maps
  // ---------------------------------------------------------------------------------------------

  /** Whatever can be reached from `i` can be reached from `p`. */
  ghost predicate Covers(g: Graph, p: CachedUnspent, i: CachedUnspent) {
    forall x :: EndsIn(g, i, x) ==> EndsIn(g, p, x)
  }

  ghost predicate Faithful(r: Record, g: Graph, h: Height) {
    && RowsAgree(r.inputToOutput, g)
    && Descends(r.inputToOutput, h)
    && forall i, p :: i in r.outputToInput && p in r.outputToInput[i] ==> h(i) < h(p) && Covers(g, p, i)
  }

  /** `g'` is `g` after a transaction that is new, or the same graph when the transaction is known already. */
  ghost predicate Next(g: Graph, g': Graph, ins: set<CachedUnspent>, outs: set<CachedUnspent>) {
    g' == Spend(g, ins, outs) && (ins !! g.Keys || g' == g)
  }

  lemma CoversAfter(g: Graph, g': Graph, ins: set<CachedUnspent>, outs: set<CachedUnspent>, h: Height,
                    p: CachedUnspent, i: CachedUnspent)
    requires Next(g, g', ins, outs) && Descends(g', h) && Covers(g, p, i)
    ensures Covers(g', p, i)
  {
    if g' != g {
      forall x | EndsIn(g', i, x) ensures EndsIn(g', p, x) {
        EndsAfterSpend(g, ins, outs, h, i, x);
        EndsAfterSpend(g, ins, outs, h, p, x);
      }
    }
  }

  ghost predicate RowStandsFor(g: Graph, row: set<CachedUnspent>, p: CachedUnspent) {
    forall x :: EndsIn(g, p, x) <==> exists q :: q in row && EndsIn(g, q, x)
  }

  lemma RowAfter(g: Graph, g': Graph, ins: set<CachedUnspent>, outs: set<CachedUnspent>, h: Height,
                 row: set<CachedUnspent>, p: CachedUnspent)
    requires Next(g, g', ins, outs) && Descends(g', h) && RowStandsFor(g, row, p)
    ensures RowStandsFor(g', row, p)
  {
    if g' != g {
      forall x ensures EndsIn(g', p, x) <==> exists q :: q in row && EndsIn(g', q, x) {
        EndsAfterSpend(g, ins, outs, h, p, x);
        forall q | q in row
          ensures EndsIn(g', q, x) <==>
                  || (x !in ins && EndsIn(g, q, x))
                  || exists i :: i in ins && EndsIn(g, q, i) && EndsIn(g', i, x)
        {
          EndsAfterSpend(g, ins, outs, h, q, x);
        }
      }
    }
  }

  lemma InputRow(g: Graph, ins: set<CachedUnspent>, outs: set<CachedUnspent>, i: CachedUnspent)
    requires i in ins
    ensures RowStandsFor(Spend(g, ins, outs), outs, i)
  {
    forall x ensures EndsIn(Spend(g, ins, outs), i, x) <==> exists q :: q in outs && EndsIn(Spend(g, ins, outs), q, x) {
      EndsInStep(Spend(g, ins, outs), i, x);
    }
  }

  /** Replacing inputs in a row by the outputs they were spent into keeps what the row stands for. */
  lemma RedirectedRow(g: Graph, ins: set<CachedUnspent>, outs: set<CachedUnspent>,
                      row: set<CachedUnspent>, touched: set<CachedUnspent>, p: CachedUnspent)
    requires RowStandsFor(Spend(g, ins, outs), row, p)
    requires {} < touched <= ins
    requires forall i :: i in touched ==> Covers(Spend(g, ins, outs), p, i)
    ensures RowStandsFor(Spend(g, ins, outs), row - touched + outs, p)
  {
    var g' := Spend(g, ins, outs);
    forall i | i in touched ensures RowStandsFor(g', outs, i) {
      InputRow(g, ins, outs, i);
    }
    forall x ensures EndsIn(g', p, x) <==> exists q :: q in row - touched + outs && EndsIn(g', q, x) {
      if q :| q in row && EndsIn(g', q, x) {
        if q in touched {
          var o :| o in outs && EndsIn(g', o, x);
          assert o in row - touched + outs;
        } else {
          assert q in row - touched + outs;
        }
      }
      if q :| q in row - touched + outs && EndsIn(g', q, x) {
        if q in outs {
          var i :| i in touched;
          assert EndsIn(g', i, x);
        }
      }
    }
  }

  lemma RowsAfter(r: Record, g: Graph, ins: set<CachedUnspent>, outs: set<CachedUnspent>, h: Height)
    requires Faithful(r, g, h) && Next(g, Spend(g, ins, outs), ins, outs) && Descends(Spend(g, ins, outs), h)
    ensures RowsAgree(Recorded(r, ins, outs).inputToOutput, Spend(g, ins, outs))
  {
    var g' := Spend(g, ins, outs);
    var f' := Recorded(r, ins, outs).inputToOutput;
    forall p | p in f' ensures RowStandsFor(g', f'[p], p) {
      if p in ins {
        InputRow(g, ins, outs, p);
      } else {
        RowAfter(g, g', ins, outs, h, r.inputToOutput[p], p);
        var touched := Touched(r, ins, p);
        if touched != {} {
          forall i | i in touched ensures Covers(g', p, i) {
            CoversAfter(g, g', ins, outs, h, p, i);
          }
          RedirectedRow(g, ins, outs, r.inputToOutput[p], touched, p);
        }
      }
    }
  }

  lemma AncestorsAfter(r: Record, g: Graph, ins: set<CachedUnspent>, outs: set<CachedUnspent>, h: Height,
                       o: CachedUnspent, p: CachedUnspent)
    requires Faithful(r, g, h) && Next(g, Spend(g, ins, outs), ins, outs) && Descends(Spend(g, ins, outs), h)
    requires var b := Recorded(r, ins, outs).outputToInput; o in b && p in b[o]
    ensures h(o) < h(p) && Covers(Spend(g, ins, outs), p, o)
  {
    var g' := Spend(g, ins, outs);
    if o in outs {
      var i := if p in ins then p else var i :| i in Touched(r, ins, p); i;
      assert i in g' && o in g'[i];
      InputRow(g, ins, outs, i);
      if p !in ins {
        CoversAfter(g, g', ins, outs, h, p, i);
      }
    } else {
      CoversAfter(g, g', ins, outs, h, p, o);
    }
  }

  lemma FaithfulAfter(r: Record, g: Graph, ins: set<CachedUnspent>, outs: set<CachedUnspent>, h: Height)
    requires Faithful(r, g, h) && Next(g, Spend(g, ins, outs), ins, outs) && Descends(Spend(g, ins, outs), h)
    ensures Faithful(Recorded(r, ins, outs), Spend(g, ins, outs), h)
  {
    var r' := Recorded(r, ins, outs);
    RowsAfter(r, g, ins, outs, h);
    forall o, p | o in r'.outputToInput && p in r'.outputToInput[o]
      ensures h(o) < h(p) && Covers(Spend(g, ins, outs), p, o)
    {
      AncestorsAfter(r, g, ins, outs, h, o, p);
    }
    forall p, q | p in r'.inputToOutput && q in r'.inputToOutput[p] ensures h(q) < h(p) {
      if p in ins {
        assert p in Spend(g, ins, outs) && q in Spend(g, ins, outs)[p];
      } else if q !in r.inputToOutput[p] {
        var i :| i in Touched(r, ins, p);
        assert i in Spend(g, ins, outs) && q in Spend(g, ins, outs)[i];
      }
    }
  }

  lemma NextTx(init: seq<Tx>, last: Tx)
    requires NoDoubleSpend(init + [last])
    ensures Next(SpendsOf(init), Spend(SpendsOf(init), last.ins, last.outs), last.ins, last.outs)
  {
  }

  /** The invariant holds after any recording of consistent transactions, in any order. */
  lemma {:induction false} FaithfulAlways(txs: seq<Tx>, h: Height)
    requires NoDoubleSpend(txs) && TxsDescend(txs, h)
    ensures Faithful(RecordAll(txs), SpendsOf(txs), h)
  {
    if txs != [] {
      var init, last := txs[..|txs| - 1], txs[|txs| - 1];
      assert txs == init + [last];
      FaithfulAlways(init, h);
      SpendsDescend(txs, h);
      NextTx(init, last);
      FaithfulAfter(RecordAll(init), SpendsOf(init), last.ins, last.outs, h);
    }
  }

  // ---------------------------------------------------------------------------------------------
  // Double spends
  // ---------------------------------------------------------------------------------------------

  /** What both maps keep even when two recorded transactions spend the same output. */
  ghost predicate Ranked(r: Record, h: Height) {
    && Descends(r.inputToOutput, h)
    && forall i, p :: i in r.outputToInput && p in r.outputToInput[i] ==> h(i) < h(p)
  }

  lemma RankedAfter(r: Record, ins: set<CachedUnspent>, outs: set<CachedUnspent>, h: Height)
    requires Ranked(r, h) && forall p, q :: p in ins && q in outs ==> h(q) < h(p)
    ensures Ranked(Recorded(r, ins, outs), h)
  {
  }

  lemma {:induction false} RankedAlways(txs: seq<Tx>, h: Height)
    requires TxsDescend(txs, h)
    ensures Ranked(RecordAll(txs), h)
  {
    if txs != [] {
      var init, last := txs[..|txs| - 1], txs[|txs| - 1];
      assert txs == init + [last];
      RankedAlways(init, h);
      RankedAfter(RecordAll(init), last.ins, last.outs, h);
    }
  }

  /** The keys of the record are exactly the outputs some recorded transaction spends. */
  lemma {:induction false} KeysAre(txs: seq<Tx>)
    ensures forall p :: p in RecordAll(txs).inputToOutput <==> exists t :: t in txs && p in t.ins
  {
    if txs != [] {
      var init, last := txs[..|txs| - 1], txs[|txs| - 1];
      assert txs == init + [last];
      KeysAre(init);
    }
  }

  ghost predicate SpendsInto(txs: seq<Tx>, p: CachedUnspent, q: CachedUnspent) {
    exists t :: t in txs && p in t.ins && q in t.outs
  }

  ghost predicate IsDescent(txs: seq<Tx>, c: seq<CachedUnspent>) {
    |c| > 1 && forall i :: 0 <= i < |c| - 1 ==> SpendsInto(txs, c[i], c[i + 1])
  }

  /** Recorded transactions, one after the other, turn `p` into `x`. */
  ghost predicate Descended(txs: seq<Tx>, p: CachedUnspent, x: CachedUnspent) {
    exists c :: IsDescent(txs, c) && c[0] == p && c[|c| - 1] == x
  }

  lemma DescendedByOne(txs: seq<Tx>, t: Tx, p: CachedUnspent, q: CachedUnspent)
    requires t in txs && p in t.ins && q in t.outs
    ensures Descended(txs, p, q)
  {
    assert SpendsInto(txs, p, q);
    assert IsDescent(txs, [p, q]);
  }

  lemma DescendedJoin(txs: seq<Tx>, p: CachedUnspent, y: CachedUnspent, x: CachedUnspent)
    requires Descended(txs, p, y) && Descended(txs, y, x)
    ensures Descended(txs, p, x)
  {
    var c :| IsDescent(txs, c) && c[0] == p && c[|c| - 1] == y;
    var d :| IsDescent(txs, d) && d[0] == y && d[|d| - 1] == x;
    var e := c + d[1..];
    forall i | 0 <= i < |e| - 1 ensures SpendsInto(txs, e[i], e[i + 1]) {
      if i >= |c| - 1 {
        var j := i - (|c| - 1);
        assert e[i] == d[j] && e[i + 1] == d[j + 1];
      }
    }
    assert IsDescent(txs, e) && e[0] == p && e[|e| - 1] == x;
  }

  lemma DescendedMore(init: seq<Tx>, txs: seq<Tx>, p: CachedUnspent, x: CachedUnspent)
    requires Descended(init, p, x) && forall t :: t in init ==> t in txs
    ensures Descended(txs, p, x)
  {
  }

  /** Both maps hold only what recorded transactions made, whatever they spend and however often. */
  ghost predicate Sound(txs: seq<Tx>, r: Record) {
    && (forall p, q :: p in r.inputToOutput && q in r.inputToOutput[p] ==> Descended(txs, p, q))
    && (forall o, p :: o in r.outputToInput && p in r.outputToInput[o] ==> Descended(txs, p, o))
  }

  lemma ThroughTouched(txs: seq<Tx>, r: Record, t: Tx, p: CachedUnspent, o: CachedUnspent)
    requires t in txs && Sound(txs, r) && o in t.outs && (p in t.ins || Touched(r, t.ins, p) != {})
    ensures Descended(txs, p, o)
  {
    if p in t.ins {
      DescendedByOne(txs, t, p, o);
    } else {
      var i :| i in Touched(r, t.ins, p);
      DescendedByOne(txs, t, i, o);
      DescendedJoin(txs, p, i, o);
    }
  }

  lemma SoundAfter(txs: seq<Tx>, r: Record, t: Tx)
    requires t in txs && Sound(txs, r)
    ensures Sound(txs, Recorded(r, t.ins, t.outs))
  {
    var r' := Recorded(r, t.ins, t.outs);
    forall p, q | p in r'.inputToOutput && q in r'.inputToOutput[p] ensures Descended(txs, p, q) {
      if p in t.ins || q !in r.inputToOutput[p] {
        ThroughTouched(txs, r, t, p, q);
      }
    }
    forall o, p | o in r'.outputToInput && p in r'.outputToInput[o] ensures Descended(txs, p, o) {
      if o in t.outs {
        ThroughTouched(txs, r, t, p, o);
      }
    }
  }

  lemma {:induction false} SoundAlways(txs: seq<Tx>)
    ensures Sound(txs, RecordAll(txs))
  {
    if txs != [] {
      var init, last := txs[..|txs| - 1], txs[|txs| - 1];
      SoundAlways(init);
      forall p, x | Descended(init, p, x) ensures Descended(txs, p, x) {
        DescendedMore(init, txs, p, x);
      }
      SoundAfter(txs, RecordAll(init), last);
    }
  }
}
