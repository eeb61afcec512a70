/**
 Substitution: a listing of unspent outputs, possibly stale, is rewritten through the record until
 nothing in it is recorded as spent.
 */
module Substitution {
  import opened Base
  import opened SpendGraph
  import opened SpentRecord

  /** An unspent output as a backend lists it; `height` is absent while it is not mined. */
  datatype UnspentInfo = UnspentInfo(outpoint: OutPoint, value: nat, height: Option<nat>)

  function Cache(u: UnspentInfo): CachedUnspent {
    CachedUnspent(u.outpoint, u.value)
  }

  function Uncache(c: CachedUnspent): UnspentInfo {
    UnspentInfo(c.outpoint, c.value, None)
  }

  function Caches(s: set<UnspentInfo>): set<CachedUnspent> {
    set u | u in s :: Cache(u)
  }

  // ---------------------------------------------------------------------------------------------
  // Rounds and their termination
  // ---------------------------------------------------------------------------------------------

  function Kept(g: Graph, s: set<UnspentInfo>): set<UnspentInfo> {
    set u | u in s && Cache(u) !in g
  }

  function Replacements(g: Graph, s: set<UnspentInfo>): set<CachedUnspent> {
    set u, c | u in s && Cache(u) in g && c in g[Cache(u)] :: c
  }

  function Round(g: Graph, s: set<UnspentInfo>): set<UnspentInfo> {
    Kept(g, s) + set c | c in Replacements(g, s) :: Uncache(c)
  }

  /** The recursion returns after at most `n` further rounds. */
  ghost predicate Halts(g: Graph, s: set<UnspentInfo>, n: nat)
    decreases n
  {
    Replacements(g, s) == {} || (n > 0 && Halts(g, Round(g, s), n - 1))
  }

  ghost predicate Terminates(g: Graph, s: set<UnspentInfo>) {
    exists n: nat :: Halts(g, s, n)
  }

  ghost function RoundsNeeded(g: Graph, s: set<UnspentInfo>): (n: nat)
    requires Terminates(g, s)
    ensures Halts(g, s, n) && forall m: nat :: Halts(g, s, m) ==> n <= m
  {
    var n: nat :| Halts(g, s, n);
    LeastRounds(g, s, n)
  }

  ghost function LeastRounds(g: Graph, s: set<UnspentInfo>, n: nat): (k: nat)
    requires Halts(g, s, n)
    ensures Halts(g, s, k) && forall m: nat :: Halts(g, s, m) ==> k <= m
  {
    if n > 0 && Halts(g, s, n - 1) then LeastRounds(g, s, n - 1)
    else
      assert forall m: nat :: m < n ==> !Halts(g, s, m) by {
        forall m: nat | m < n && Halts(g, s, m) ensures false {
          HaltsMonotone(g, s, m, n - 1);
        }
      }
      n
  }

  lemma HaltsMonotone(g: Graph, s: set<UnspentInfo>, m: nat, n: nat)
    requires m <= n && Halts(g, s, m)
    ensures Halts(g, s, n)
    decreases m
  {
    if Replacements(g, s) != {} {
      HaltsMonotone(g, Round(g, s), m - 1, n - 1);
    }
  }

  /** The substitution itself, defined exactly where the recursion returns. */
  function Replace(g: Graph, s: set<UnspentInfo>): set<UnspentInfo>
    requires Terminates(g, s)
    decreases RoundsNeeded(g, s)
  {
    if Replacements(g, s) == {} then Kept(g, s)
    else
      assert Halts(g, Round(g, s), RoundsNeeded(g, s) - 1);
      Replace(g, Round(g, s))
  }

  ghost predicate StartsIn(s: set<UnspentInfo>, c: seq<CachedUnspent>) {
    |c| > 0 && c[0] in Caches(s)
  }

  ghost predicate ChainsBounded(g: Graph, s: set<UnspentInfo>, n: nat) {
    forall c :: IsChain(g, c) && StartsIn(s, c) ==> |c| <= n
  }

  lemma RoundMembers(g: Graph, s: set<UnspentInfo>, c: CachedUnspent)
    ensures c in Caches(Round(g, s)) <==>
            || (c in Caches(s) && c !in g)
            || exists p :: p in Caches(s) && p in g && c in g[p]
  {
    if c in Caches(Round(g, s)) {
      var u :| u in Round(g, s) && Cache(u) == c;
      if u !in Kept(g, s) {
        var d :| d in Replacements(g, s) && Uncache(d) == u;
        assert Cache(Uncache(d)) == d;
      }
    }
    if c in Caches(s) && c !in g {
      var u :| u in s && Cache(u) == c;
      assert u in Round(g, s);
    }
    if p :| p in Caches(s) && p in g && c in g[p] {
      assert c in Replacements(g, s);
      assert Uncache(c) in Round(g, s) && Cache(Uncache(c)) == c;
    }
  }

  lemma ChainNeedsReplacement(g: Graph, s: set<UnspentInfo>, c: seq<CachedUnspent>)
    requires IsChain(g, c) && StartsIn(s, c) && |c| > 1
    ensures c[1] in Replacements(g, s)
  {
  }

  /** The number of rounds is the length of the longest chain that starts in the listing. */
  lemma {:induction false} HaltsByChainLength(g: Graph, s: set<UnspentInfo>, n: nat)
    ensures Halts(g, s, n) <==> ChainsBounded(g, s, n + 1)
    decreases n
  {
    if Replacements(g, s) == {} {
      forall c | IsChain(g, c) && StartsIn(s, c) ensures |c| <= 1 {
        if |c| > 1 {
          ChainNeedsReplacement(g, s, c);
        }
      }
    } else if n == 0 {
      var u, d :| u in s && Cache(u) in g && d in g[Cache(u)];
      assert IsChain(g, [Cache(u), d]) && StartsIn(s, [Cache(u), d]);
    } else {
      HaltsByChainLength(g, Round(g, s), n - 1);
      if ChainsBounded(g, Round(g, s), n) {
        forall c | IsChain(g, c) && StartsIn(s, c) ensures |c| <= n + 1 {
          if |c| > 1 {
            assert c[0] in g && c[0 + 1] in g[c[0]];
            RoundMembers(g, s, c[1]);
            assert IsChain(g, c[1..]) && StartsIn(Round(g, s), c[1..]);
          }
        }
      }
      if ChainsBounded(g, s, n + 1) {
        forall c | IsChain(g, c) && StartsIn(Round(g, s), c) ensures |c| <= n {
          RoundMembers(g, s, c[0]);
          if p :| p in Caches(s) && p in g && c[0] in g[p] {
            assert IsChain(g, [p] + c) && StartsIn(s, [p] + c);
          } else {
            assert |c| > 1 ==> c[0] in g && c[0 + 1] in g[c[0]];
          }
        }
      }
    }
  }

  lemma DistinctWithin<T>(c: seq<T>, k: set<T>)
    requires forall i :: 0 <= i < |c| ==> c[i] in k
    requires forall i, j :: 0 <= i < j < |c| ==> c[i] != c[j]
    ensures |c| <= |k|
  {
    if c != [] {
      DistinctWithin(c[1..], k - {c[0]});
    }
  }

  /** An output that leads back to itself is reached from the listing. */
  ghost predicate CycleReachable(g: Graph, s: set<UnspentInfo>) {
    exists p, y :: p in Caches(s) && Leads(g, p, y) && Ancestor(g, y, y)
  }

  lemma SubChain(g: Graph, c: seq<CachedUnspent>, i: nat, j: nat)
    requires IsChain(g, c) && i < j <= |c|
    ensures ChainFromTo(g, c[i..j], c[i], c[j - 1])
  {
  }

  lemma LongChainMeetsCycle(g: Graph, s: set<UnspentInfo>, c: seq<CachedUnspent>)
    requires IsChain(g, c) && StartsIn(s, c) && |c| > |g.Keys| + 1
    ensures CycleReachable(g, s)
  {
    var d := c[..|c| - 1];
    if forall i, j :: 0 <= i < j < |d| ==> d[i] != d[j] {
      DistinctWithin(d, g.Keys);
      assert false;
    } else {
      var i, j :| 0 <= i < j < |d| && d[i] == d[j];
      SubChain(g, c, 0, i + 1);
      SubChain(g, c, i + 1, j + 1);
      assert c[i] in g && c[i + 1] in g[c[i]];
      assert Ancestor(g, c[i], c[i]);
    }
  }

  lemma {:induction false} CyclePumps(g: Graph, y: CachedUnspent, n: nat) returns (c: seq<CachedUnspent>)
    requires Ancestor(g, y, y)
    ensures ChainFromTo(g, c, y, y) && |c| > n
  {
    if n == 0 {
      c := [y];
    } else {
      var rest := CyclePumps(g, y, n - 1);
      var q :| q in g[y] && Leads(g, q, y);
      var back :| ChainFromTo(g, back, q, y);
      c := [y] + back + rest[1..];
      assert forall k :: 0 <= k < |back| ==> c[k + 1] == back[k];
      assert forall k :: 1 <= k < |rest| ==> c[|back| + k] == rest[k];
      forall k | 0 <= k < |c| - 1 ensures c[k] in g && c[k + 1] in g[c[k]] {
        if k == 0 {
        } else if k < |back| {
          assert back[k - 1] in g && back[k - 1 + 1] in g[back[k - 1]];
        } else {
          var m := k - |back|;
          assert rest[m] in g && rest[m + 1] in g[rest[m]];
          assert c[k] == rest[m];
        }
      }
    }
  }

  /** The substitution returns exactly when no cycle of spends can be reached from the listing. */
  lemma TerminatesExactlyWithoutCycles(g: Graph, s: set<UnspentInfo>)
    ensures Terminates(g, s) <==> !CycleReachable(g, s)
  {
    if CycleReachable(g, s) {
      var p, y :| p in Caches(s) && Leads(g, p, y) && Ancestor(g, y, y);
      var c :| ChainFromTo(g, c, p, y);
      forall n: nat ensures !Halts(g, s, n) {
        HaltsByChainLength(g, s, n);
        var loops := CyclePumps(g, y, n + 1);
        var d := c + loops[1..];
        forall k | 0 <= k < |d| - 1 ensures d[k] in g && d[k + 1] in g[d[k]] {
          if k < |c| - 1 {
            assert c[k] in g && c[k + 1] in g[c[k]];
          } else {
            var m := k - (|c| - 1);
            assert d[k] == loops[m] && d[k + 1] == loops[m + 1];
          }
        }
        assert IsChain(g, d) && StartsIn(s, d) && |d| > n + 1;
      }
    } else {
      forall c | IsChain(g, c) && StartsIn(s, c) ensures |c| <= |g.Keys| + 1 {
        if |c| > |g.Keys| + 1 {
          LongChainMeetsCycle(g, s, c);
        }
      }
      HaltsByChainLength(g, s, |g.Keys|);
    }
  }

  lemma LeadsDown(g: Graph, h: Height, c: seq<CachedUnspent>)
    requires Descends(g, h) && IsChain(g, c)
    ensures h(c[|c| - 1]) <= h(c[0])
  {
    if |c| > 1 {
      assert c[0] in g && c[0 + 1] in g[c[0]];
      LeadsDown(g, h, c[1..]);
    }
  }

  lemma AcyclicTerminates(g: Graph, s: set<UnspentInfo>)
    requires Acyclic(g)
    ensures Terminates(g, s)
  {
    var h: Height :| Descends(g, h);
    if CycleReachable(g, s) {
      var p, y :| p in Caches(s) && Leads(g, p, y) && Ancestor(g, y, y);
      var q :| q in g[y] && Leads(g, q, y);
      var c :| ChainFromTo(g, c, q, y);
      LeadsDown(g, h, c);
      assert false;
    }
    TerminatesExactlyWithoutCycles(g, s);
  }

  // ---------------------------------------------------------------------------------------------
  // What the substitution returns
  // ---------------------------------------------------------------------------------------------

  /** `u` stands for the listing: a listed output that is not spent, or an end of one that is. */
  ghost predicate StandsFor(g: Graph, s: set<UnspentInfo>, u: UnspentInfo) {
    || (u in s && Cache(u) !in g)
    || (u.height == None && exists v :: v in s && Cache(v) in g && EndsIn(g, Cache(v), Cache(u)))
  }

  lemma RoundStandsFor(g: Graph, s: set<UnspentInfo>, u: UnspentInfo)
    ensures StandsFor(g, Round(g, s), u) <==> StandsFor(g, s, u)
  {
    var x := Cache(u);
    forall v | v in s && Cache(v) in g
      ensures EndsIn(g, Cache(v), x) <==> exists q :: q in g[Cache(v)] && EndsIn(g, q, x)
    {
      EndsInStep(g, Cache(v), x);
    }
    if StandsFor(g, Round(g, s), u) && !(u in s && x !in g) {
      if u in Round(g, s) && x !in g {
        var c :| c in Replacements(g, s) && Uncache(c) == u;
        assert Cache(Uncache(c)) == c;
        EndsInStep(g, c, x);
      } else {
        var w :| w in Round(g, s) && Cache(w) in g && EndsIn(g, Cache(w), x);
        var c :| c in Replacements(g, s) && Uncache(c) == w;
        assert Cache(Uncache(c)) == c;
      }
    }
    if StandsFor(g, s, u) && !(u in s && x !in g) {
      var v :| v in s && Cache(v) in g && EndsIn(g, Cache(v), x);
      var q :| q in g[Cache(v)] && EndsIn(g, q, x);
      assert q in Replacements(g, s);
      assert Uncache(q) in Round(g, s) && Cache(Uncache(q)) == q;
      EndsInStep(g, q, x);
      if q !in g {
        assert u == Uncache(q);
      }
    }
  }

  lemma {:induction false} ReplaceIs(g: Graph, s: set<UnspentInfo>, u: UnspentInfo)
    requires Terminates(g, s)
    ensures u in Replace(g, s) <==> StandsFor(g, s, u)
    decreases RoundsNeeded(g, s)
  {
    if Replacements(g, s) == {} {
      forall v | v in s && Cache(v) in g ensures !EndsIn(g, Cache(v), Cache(u)) {
        EndsInStep(g, Cache(v), Cache(u));
        assert forall q :: q in g[Cache(v)] ==> q in Replacements(g, s);
      }
    } else {
      assert Halts(g, Round(g, s), RoundsNeeded(g, s) - 1);
      ReplaceIs(g, Round(g, s), u);
      RoundStandsFor(g, s, u);
    }
  }

  // ---------------------------------------------------------------------------------------------
  // Order independence
  // ---------------------------------------------------------------------------------------------

  /** Transactions without a cycle never make the substitution loop, in any order and with double spends. */
  lemma RecordTerminates(txs: seq<Tx>, s: set<UnspentInfo>)
    requires NoCycle(txs)
    ensures Terminates(RecordAll(txs).inputToOutput, s)
  {
    var h: Height :| TxsDescend(txs, h);
    RankedAlways(txs, h);
    AcyclicTerminates(RecordAll(txs).inputToOutput, s);
  }

  /**
   Consistent transactions recorded in any order: substitution returns exactly the listed outputs no
   transaction spends, and the unspent outputs at the end of a chain of transactions from a spent one.
   The right-hand side names only the transactions, never the two maps.
   */
  lemma SubstitutionFollowsTheTransactions(txs: seq<Tx>, s: set<UnspentInfo>, u: UnspentInfo)
    requires Consistent(txs)
    ensures Terminates(RecordAll(txs).inputToOutput, s)
    ensures u in Replace(RecordAll(txs).inputToOutput, s) <==> StandsFor(SpendsOf(txs), s, u)
  {
    var f, g := RecordAll(txs).inputToOutput, SpendsOf(txs);
    var h: Height :| TxsDescend(txs, h);
    FaithfulAlways(txs, h);
    RecordTerminates(txs, s);
    ReplaceIs(f, s, u);
    forall v | v in s ensures EndsIn(f, Cache(v), Cache(u)) <==> EndsIn(g, Cache(v), Cache(u)) {
      SameEnds(f, g, h, Cache(v), Cache(u));
    }
  }

  /** The order of recording, and recording a transaction again, make no difference. */
  lemma OrderAndRepetitionDoNotMatter(txs: seq<Tx>, txs': seq<Tx>, s: set<UnspentInfo>)
    requires Consistent(txs) && forall t :: t in txs <==> t in txs'
    ensures Consistent(txs')
    ensures Terminates(RecordAll(txs).inputToOutput, s) && Terminates(RecordAll(txs').inputToOutput, s)
    ensures Replace(RecordAll(txs).inputToOutput, s) == Replace(RecordAll(txs').inputToOutput, s)
  {
    var h: Height :| TxsDescend(txs, h);
    assert TxsDescend(txs', h);
    SpendsAre(txs);
    SpendsAre(txs');
    var g, g' := SpendsOf(txs), SpendsOf(txs');
    assert g == g' by {
      assert g.Keys == g'.Keys;
      forall p | p in g ensures g[p] == g'[p] {
        var t :| t in txs && p in t.ins;
      }
    }
    RecordTerminates(txs, s);
    RecordTerminates(txs', s);
    forall u ensures u in Replace(RecordAll(txs).inputToOutput, s) <==> u in Replace(RecordAll(txs').inputToOutput, s) {
      SubstitutionFollowsTheTransactions(txs, s, u);
      SubstitutionFollowsTheTransactions(txs', s, u);
    }
  }

  /** Nothing the substitution returns is spent by a recorded transaction, even if some are double spends. */
  lemma NoSpentOutputIsReturned(txs: seq<Tx>, s: set<UnspentInfo>)
    requires NoCycle(txs)
    ensures Terminates(RecordAll(txs).inputToOutput, s)
    ensures forall t, u :: t in txs && u in Replace(RecordAll(txs).inputToOutput, s) ==> Cache(u) !in t.ins
  {
    RecordTerminates(txs, s);
    KeysAre(txs);
    forall t, u | t in txs && u in Replace(RecordAll(txs).inputToOutput, s) ensures Cache(u) !in t.ins {
      ReplaceIs(RecordAll(txs).inputToOutput, s, u);
    }
  }

  lemma {:induction false} ChainIsDescent(txs: seq<Tx>, c: seq<CachedUnspent>)
    requires IsChain(RecordAll(txs).inputToOutput, c) && |c| > 1
    ensures Descended(txs, c[0], c[|c| - 1])
  {
    var f := RecordAll(txs).inputToOutput;
    SoundAlways(txs);
    assert c[0] in f && c[0 + 1] in f[c[0]];
    if |c| > 2 {
      ChainIsDescent(txs, c[1..]);
      DescendedJoin(txs, c[0], c[1], c[|c| - 1]);
    }
  }

  /** Whatever was recorded: a returned output was listed, or recorded transactions made it out of a listed one. */
  lemma ReturnedIsListedOrDescended(txs: seq<Tx>, s: set<UnspentInfo>, u: UnspentInfo)
    requires Terminates(RecordAll(txs).inputToOutput, s) && u in Replace(RecordAll(txs).inputToOutput, s)
    ensures u in s || exists v :: v in s && Descended(txs, Cache(v), Cache(u))
  {
    var f := RecordAll(txs).inputToOutput;
    ReplaceIs(f, s, u);
    if u !in s {
      var v :| v in s && Cache(v) in f && EndsIn(f, Cache(v), Cache(u));
      var c :| ChainFromTo(f, c, Cache(v), Cache(u));
      ChainIsDescent(txs, c);
    }
  }
}
