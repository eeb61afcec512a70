/**
 Graphs of spends: a key is a spent output, its row is a set of outputs that stand in for it.
 The recently-spent record keeps a compressed graph; the transactions themselves give a plain one.
 Both are compared through `EndsIn`: which outputs that are not keys can be reached from an output.
 */
module SpendGraph {

  datatype OutPoint = OutPoint(hash: nat, index: nat)

  /** An output together with its value, as the record stores it. */
  datatype CachedUnspent = CachedUnspent(outpoint: OutPoint, value: nat)

  type Graph = map<CachedUnspent, set<CachedUnspent>>

  /** A measure of how far an output is from the end of every chain of spends. */
  type Height = CachedUnspent -> nat

  ghost predicate Descends(g: Graph, h: Height) {
    forall p, q :: p in g && q in g[p] ==> h(q) < h(p)
  }

  ghost predicate Acyclic(g: Graph) {
    exists h: Height :: Descends(g, h)
  }

  ghost predicate IsChain(g: Graph, c: seq<CachedUnspent>) {
    && |c| > 0
    && forall i :: 0 <= i < |c| - 1 ==> c[i] in g && c[i + 1] in g[c[i]]
  }

  ghost predicate ChainFromTo(g: Graph, c: seq<CachedUnspent>, p: CachedUnspent, x: CachedUnspent) {
    IsChain(g, c) && c[0] == p && c[|c| - 1] == x
  }

  /** `x` is `p` or is reached from it by following rows. */
  ghost predicate Leads(g: Graph, p: CachedUnspent, x: CachedUnspent) {
    exists c :: ChainFromTo(g, c, p, x)
  }

  /** `x` is reached from `p` and is not itself spent in `g`. */
  ghost predicate EndsIn(g: Graph, p: CachedUnspent, x: CachedUnspent) {
    x !in g && Leads(g, p, x)
  }

  /** `x` is reached from `p` by at least one spend. */
  ghost predicate Ancestor(g: Graph, p: CachedUnspent, x: CachedUnspent) {
    p in g && exists q :: q in g[p] && Leads(g, q, x)
  }

  lemma LeadsStep(g: Graph, p: CachedUnspent, x: CachedUnspent)
    ensures Leads(g, p, x) <==> p == x || Ancestor(g, p, x)
  {
    if Leads(g, p, x) && p != x {
      var c :| ChainFromTo(g, c, p, x);
      assert c[0] in g && c[0 + 1] in g[c[0]];
      assert ChainFromTo(g, c[1..], c[1], x);
    }
    if p == x {
      assert ChainFromTo(g, [p], p, x);
    }
    if Ancestor(g, p, x) {
      var q :| q in g[p] && Leads(g, q, x);
      var c :| ChainFromTo(g, c, q, x);
      assert ChainFromTo(g, [p] + c, p, x);
    }
  }

  /** Reachability unfolded at the far end: the last spend instead of the first one. */
  lemma LeadsLastStep(g: Graph, p: CachedUnspent, x: CachedUnspent)
    ensures Ancestor(g, p, x) <==> exists y :: y in g && x in g[y] && Leads(g, p, y)
  {
    if Ancestor(g, p, x) {
      var q :| q in g[p] && Leads(g, q, x);
      var c :| ChainFromTo(g, c, q, x);
      var d := [p] + c;
      var n := |d|;
      assert IsChain(g, d);
      var y := d[n - 2];
      assert y in g && d[n - 2 + 1] in g[y];
      assert ChainFromTo(g, d[..n - 1], p, y);
    }
    if y :| y in g && x in g[y] && Leads(g, p, y) {
      var c :| ChainFromTo(g, c, p, y);
      var d := c + [x];
      assert forall i :: 0 <= i < |d| - 1 ==> d[i] == c[i];
      assert ChainFromTo(g, d, p, x);
      assert d[0] in g && d[0 + 1] in g[d[0]];
      assert ChainFromTo(g, d[1..], d[1], x);
    }
  }

  lemma EndsInStep(g: Graph, p: CachedUnspent, x: CachedUnspent)
    ensures EndsIn(g, p, x) <==> if p in g then exists q :: q in g[p] && EndsIn(g, q, x) else x == p
  {
    LeadsStep(g, p, x);
  }

  /** The graph after one more transaction: every input gets the transaction's own outputs as its row. */
  function Spend(g: Graph, ins: set<CachedUnspent>, outs: set<CachedUnspent>): Graph {
    g + map i | i in ins :: outs
  }

  /** What a spend of outputs that were unspent does to the ends reached from any output. */
  lemma {:induction false} EndsAfterSpend(
    g: Graph, ins: set<CachedUnspent>, outs: set<CachedUnspent>, h: Height, p: CachedUnspent, x: CachedUnspent)
    requires ins !! g.Keys && Descends(Spend(g, ins, outs), h)
    ensures var g' := Spend(g, ins, outs);
            EndsIn(g', p, x) <==>
            || (x !in ins && EndsIn(g, p, x))
            || exists i :: i in ins && EndsIn(g, p, i) && EndsIn(g', i, x)
    decreases h(p)
  {
    var g' := Spend(g, ins, outs);
    EndsInStep(g', p, x);
    EndsInStep(g, p, x);
    forall i | i in ins
      ensures EndsIn(g, p, i) <==> if p in g then exists q :: q in g[p] && EndsIn(g, q, i) else i == p
    {
      EndsInStep(g, p, i);
    }
    if p in g {
      assert g'[p] == g[p];
      forall q | q in g[p]
        ensures EndsIn(g', q, x) <==>
                || (x !in ins && EndsIn(g, q, x))
                || exists i :: i in ins && EndsIn(g, q, i) && EndsIn(g', i, x)
      {
        EndsAfterSpend(g, ins, outs, h, q, x);
      }
    }
  }

  /** Every row of `f` stands correctly for its key in `g`. */
  ghost predicate RowsAgree(f: Graph, g: Graph) {
    && f.Keys == g.Keys
    && forall p, x :: p in f ==> (EndsIn(g, p, x) <==> exists q :: q in f[p] && EndsIn(g, q, x))
  }

  /** A graph whose rows stand correctly for their keys reaches the same ends, however compressed it is. */
  lemma {:induction false} SameEnds(f: Graph, g: Graph, h: Height, p: CachedUnspent, x: CachedUnspent)
    requires RowsAgree(f, g) && Descends(f, h)
    ensures EndsIn(f, p, x) <==> EndsIn(g, p, x)
    decreases h(p)
  {
    EndsInStep(f, p, x);
    if p in f {
      forall q | q in f[p] ensures EndsIn(f, q, x) <==> EndsIn(g, q, x) {
        SameEnds(f, g, h, q, x);
      }
    } else {
      EndsInStep(g, p, x);
    }
  }
}
