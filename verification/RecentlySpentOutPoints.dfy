/** The recently-spent record as the program keeps it: maps updated in place, proved against `PendingWithdraws.Step`. */
module RecentlySpentOutPoints {
  import opened Base
  import opened SpendGraph
  import opened SpentRecord
  import opened Substitution
  import opened PendingWithdraws
  import opened WalletRuns

  class RecentlySpent {
    var inputToOutput: Graph
    var outputToInput: Graph
    const forScriptPubkey: Bytes
    var pendingWithdraws: Pending
    var pendingWithdrawSeq: nat

    function AsView(): View
      reads this
    {
      View(Record(inputToOutput, outputToInput), pendingWithdraws, pendingWithdrawSeq)
    }

    constructor (script: Bytes)
      ensures AsView() == EMPTY_VIEW && forScriptPubkey == script
    {
      inputToOutput, outputToInput := map[], map[];
      pendingWithdraws, pendingWithdrawSeq := map[], 0;
      forScriptPubkey := script;
    }

    /** Keeps exactly the entries that are less than ten minutes old. */
    method PurgePendingWithdraws(nowMs: nat)
      modifies this`pendingWithdraws
      ensures pendingWithdraws == Purged(old(pendingWithdraws), nowMs)
      ensures forall d :: d in pendingWithdraws <==>
                d in old(pendingWithdraws) && nowMs < old(pendingWithdraws)[d].createdMs + 600_000
      ensures forall d :: d in pendingWithdraws ==> pendingWithdraws[d] == old(pendingWithdraws)[d]
    {
      var todo := pendingWithdraws.Keys;
      while todo != {}
        invariant todo <= pendingWithdraws.Keys <= old(pendingWithdraws).Keys
        invariant forall d :: d in pendingWithdraws ==> pendingWithdraws[d] == old(pendingWithdraws)[d]
        invariant forall d :: d in old(pendingWithdraws) && d !in todo ==>
                    (d in pendingWithdraws <==> d in Purged(old(pendingWithdraws), nowMs))
        decreases |todo|
      {
        var d :| d in todo;
        todo := todo - {d};
        if SatSub(nowMs, pendingWithdraws[d].createdMs) >= TTL_MS {
          pendingWithdraws := pendingWithdraws - {d};
        }
      }
    }

    method OldestPending() returns (digest: Bytes)
      requires pendingWithdraws != map[]
      ensures digest in pendingWithdraws
      ensures forall e :: e in pendingWithdraws ==> pendingWithdraws[digest].seqNo <= pendingWithdraws[e].seqNo
    {
      var todo := pendingWithdraws.Keys;
      digest :| digest in todo;
      while todo != {}
        invariant todo <= pendingWithdraws.Keys && digest in pendingWithdraws
        invariant forall e :: e in pendingWithdraws && e !in todo ==>
                    pendingWithdraws[digest].seqNo <= pendingWithdraws[e].seqNo
        decreases |todo|
      {
        var e :| e in todo;
        todo := todo - {e};
        if pendingWithdraws[e].seqNo < pendingWithdraws[digest].seqNo {
          digest := e;
        }
      }
    }

    /** Dropping the oldest entry while there are too many leaves exactly the newest ones. */
    method DropOldest()
      requires SeqNosDistinct(pendingWithdraws)
      modifies this`pendingWithdraws
      ensures pendingWithdraws == Newest(old(pendingWithdraws))
    {
      ghost var all := pendingWithdraws;
      while |pendingWithdraws| > CAP
        invariant NewestSoFar(all, pendingWithdraws)
        decreases |pendingWithdraws|
      {
        var digest := OldestPending();
        RemoveOldest(all, pendingWithdraws, digest);
        pendingWithdraws := pendingWithdraws - {digest};
      }
      NewestReached(all, pendingWithdraws);
    }

    method NotePendingWithdraw(nowMs: nat, txBytes: Bytes, spend: SignedTx)
      requires Bounded(AsView())
      modifies this`pendingWithdraws, this`pendingWithdrawSeq
      ensures Bounded(AsView())
      ensures AsView() == Step(forScriptPubkey, old(AsView()), Note(nowMs, txBytes, spend))
    {
      KeepPending(nowMs, txBytes, spend);
      NoteStep(forScriptPubkey, old(AsView()), nowMs, txBytes, spend);
    }

    method KeepPending(nowMs: nat, txBytes: Bytes, spend: SignedTx)
      requires PendingBounded(pendingWithdraws, pendingWithdrawSeq)
      modifies this`pendingWithdraws, this`pendingWithdrawSeq
      ensures PendingBounded(pendingWithdraws, pendingWithdrawSeq)
      ensures pendingWithdraws ==
              PendingAfter(old(pendingWithdraws), old(pendingWithdrawSeq), Note(nowMs, txBytes, spend))
      ensures pendingWithdrawSeq == old(pendingWithdrawSeq) + 1
    {
      PurgeBounded(nowMs);
      pendingWithdrawSeq := pendingWithdrawSeq + 1;
      InsertPending(txBytes, PendingWithdraw(spend, nowMs, pendingWithdrawSeq));
    }

    method PurgeBounded(nowMs: nat)
      requires PendingBounded(pendingWithdraws, pendingWithdrawSeq)
      modifies this`pendingWithdraws
      ensures PendingBounded(pendingWithdraws, pendingWithdrawSeq)
      ensures pendingWithdraws == Purged(old(pendingWithdraws), nowMs)
    {
      PurgedIsBounded(pendingWithdraws, pendingWithdrawSeq, nowMs);
      PurgePendingWithdraws(nowMs);
    }

    /** The new entry goes in and the oldest ones go out. */
    method InsertPending(txBytes: Bytes, pending: PendingWithdraw)
      requires pending.seqNo > 0 && PendingBounded(pendingWithdraws, pending.seqNo - 1)
      modifies this`pendingWithdraws
      ensures PendingBounded(pendingWithdraws, pending.seqNo)
      ensures pendingWithdraws == Newest(old(pendingWithdraws)[txBytes := pending])
    {
      NewNumberIsDistinct(pendingWithdraws, pending.seqNo - 1, txBytes, pending);
      NoteIsBounded(pendingWithdraws, pending.seqNo - 1, txBytes, pending);
      pendingWithdraws := pendingWithdraws[txBytes := pending];
      DropOldest();
    }

    method PromotePendingWithdraw(nowMs: nat, txBytes: Bytes) returns (promoted: bool)
      requires Bounded(AsView())
      modifies this
      ensures Bounded(AsView())
      ensures promoted <==>
              txBytes in old(pendingWithdraws) && nowMs < old(pendingWithdraws)[txBytes].createdMs + 600_000
      ensures AsView() == Step(forScriptPubkey, old(AsView()), Promote(nowMs, txBytes))
    {
      BoundedStep(AsView(), Promote(nowMs, txBytes));
      PurgePendingWithdraws(nowMs);
      if txBytes in pendingWithdraws {
        var pending := pendingWithdraws[txBytes];
        pendingWithdraws := pendingWithdraws - {txBytes};
        AddSpentOutputs(pending.spend);
        promoted := true;
      } else {
        assert pendingWithdraws - {txBytes} == pendingWithdraws;
        promoted := false;
      }
    }

    /** Every input becomes a key, whatever its height, and leads to the outputs that pay to the script. */
    method AddSpentOutputs(spend: SignedTx)
      modifies this`inputToOutput, this`outputToInput
      ensures AsView() == Step(forScriptPubkey, old(AsView()), AddSpent(spend))
      ensures forall c :: c in inputToOutput <==> c in old(inputToOutput) || Takes(spend, c)
      ensures forall c, q :: Takes(spend, c) ==> (q in inputToOutput[c] <==> Pays(forScriptPubkey, spend, q))
    {
      forall c ensures (c in AsTx(forScriptPubkey, spend).ins <==> Takes(spend, c)) &&
                       (c in AsTx(forScriptPubkey, spend).outs <==> Pays(forScriptPubkey, spend, c)) {
        TxIs(forScriptPubkey, spend, c);
      }
      var inputs := set u | u in spend.inputs :: Cache(u);
      var toReplace := OwnOutputs(forScriptPubkey, spend);
      var prevInputsSpent := RedirectEarlierInputs(inputs, toReplace);
      prevInputsSpent := prevInputsSpent + inputs;
      InsertOutputs(toReplace, prevInputsSpent);
      InsertInputs(inputs, toReplace);
    }

    method InsertOutputs(toReplace: set<CachedUnspent>, prevInputsSpent: set<CachedUnspent>)
      modifies this`outputToInput
      ensures outputToInput == old(outputToInput) + map o | o in toReplace :: prevInputsSpent
    {
      var todo := toReplace;
      while todo != {}
        invariant todo <= toReplace
        invariant outputToInput.Keys == old(outputToInput).Keys + (toReplace - todo)
        invariant forall o :: o in outputToInput ==>
                    outputToInput[o] == if o in toReplace - todo then prevInputsSpent else old(outputToInput)[o]
        decreases |todo|
      {
        var output :| output in todo;
        todo := todo - {output};
        outputToInput := outputToInput[output := prevInputsSpent];
      }
    }

    method InsertInputs(inputs: set<CachedUnspent>, toReplace: set<CachedUnspent>)
      modifies this`inputToOutput
      ensures inputToOutput == SpendGraph.Spend(old(inputToOutput), inputs, toReplace)
    {
      var todo := inputs;
      while todo != {}
        invariant todo <= inputs
        invariant inputToOutput.Keys == old(inputToOutput).Keys + (inputs - todo)
        invariant forall i :: i in inputToOutput ==>
                    inputToOutput[i] == if i in inputs - todo then toReplace else old(inputToOutput)[i]
        decreases |todo|
      {
        var input :| input in todo;
        todo := todo - {input};
        inputToOutput := inputToOutput[input := toReplace];
      }
    }

    /** Every earlier input whose chain the inputs continue now leads to the new outputs. */
    method RedirectEarlierInputs(inputs: set<CachedUnspent>, toReplace: set<CachedUnspent>)
      returns (prevInputsSpent: set<CachedUnspent>)
      modifies this`inputToOutput
      ensures var r := old(AsView()).record;
              && prevInputsSpent == EarlierInputs(r, inputs)
              && inputToOutput == map p | p in r.inputToOutput.Keys :: Redirected(r, inputs, toReplace, p)
    {
      ghost var r := AsView().record;
      prevInputsSpent := {};
      var todo := inputs;
      NothingTouched(r, toReplace);
      while todo != {}
        invariant todo <= inputs && inputToOutput.Keys == r.inputToOutput.Keys
        invariant prevInputsSpent == EarlierInputs(r, inputs - todo)
        invariant forall p :: p in inputToOutput ==> inputToOutput[p] == Redirected(r, inputs - todo, toReplace, p)
        decreases |todo|
      {
        var input :| input in todo;
        ghost var done := inputs - todo;
        todo := todo - {input};
        assert inputs - todo == done + {input};
        var spent := {};
        if input in outputToInput {
          spent := RedirectInput(input, outputToInput[input], toReplace);
        }
        prevInputsSpent := prevInputsSpent + spent;
        forall p | p in r.inputToOutput
          ensures Redirected(r, done + {input}, toReplace, p) ==
                  if p in spent then Redirected(r, done, toReplace, p) - {input} + toReplace
                  else Redirected(r, done, toReplace, p)
        {
          NextInput(r, done, input, toReplace, p);
        }
        NextEarlierInputs(r, done, input);
      }
      assert inputs - todo == inputs;
    }

    method RedirectInput(input: CachedUnspent, prevInputs: set<CachedUnspent>, toReplace: set<CachedUnspent>)
      returns (spent: set<CachedUnspent>)
      modifies this`inputToOutput
      ensures spent == prevInputs * inputToOutput.Keys
      ensures inputToOutput.Keys == old(inputToOutput).Keys
      ensures forall p :: p in inputToOutput ==>
                inputToOutput[p] ==
                if p in spent then old(inputToOutput)[p] - {input} + toReplace else old(inputToOutput)[p]
    {
      spent := {};
      var todo := prevInputs;
      while todo != {}
        invariant todo <= prevInputs && inputToOutput.Keys == old(inputToOutput).Keys
        invariant spent == (prevInputs - todo) * inputToOutput.Keys
        invariant forall p :: p in inputToOutput ==>
                    inputToOutput[p] ==
                    if p in spent then old(inputToOutput)[p] - {input} + toReplace else old(inputToOutput)[p]
        decreases |todo|
      {
        var prev :| prev in todo;
        todo := todo - {prev};
        if prev in inputToOutput {
          spent := spent + {prev};
          inputToOutput := inputToOutput[prev := inputToOutput[prev] - {input} + toReplace];
        }
      }
    }

    /** One pass over a listing: what stays, and what stands in for the spent outputs. */
    method Pass(outputs: set<UnspentInfo>) returns (kept: set<UnspentInfo>, replacements: set<CachedUnspent>)
      ensures kept == Kept(inputToOutput, outputs) && replacements == Replacements(inputToOutput, outputs)
    {
      kept, replacements := {}, {};
      var todo := outputs;
      while todo != {}
        invariant todo <= outputs
        invariant kept == Kept(inputToOutput, outputs - todo)
        invariant replacements == Replacements(inputToOutput, outputs - todo)
        decreases |todo|
      {
        var unspent :| unspent in todo;
        ghost var done := outputs - todo;
        todo := todo - {unspent};
        assert outputs - todo == done + {unspent};
        if Cache(unspent) in inputToOutput {
          replacements := replacements + inputToOutput[Cache(unspent)];
        } else {
          kept := kept + {unspent};
        }
        OneMore(inputToOutput, done, unspent);
      }
      assert outputs - todo == outputs;
    }

    /** The listing with every recorded spend replaced; each round is one pass over the listing. */
    method ReplaceSpentOutputs(outputs: set<UnspentInfo>) returns (unspents: set<UnspentInfo>)
      requires Terminates(inputToOutput, outputs)
      ensures unspents == Replace(inputToOutput, outputs)
      decreases RoundsNeeded(inputToOutput, outputs)
    {
      var kept, replacements := Pass(outputs);
      if replacements == {} {
        return kept;
      }
      assert Halts(inputToOutput, Round(inputToOutput, outputs), RoundsNeeded(inputToOutput, outputs) - 1);
      unspents := ReplaceSpentOutputs(kept + set c | c in replacements :: Uncache(c));
    }
  }

  // ---------------------------------------------------------------------------------------------
  // Loop invariants
  // ---------------------------------------------------------------------------------------------

  lemma NothingTouched(r: Record, outs: set<CachedUnspent>)
    ensures EarlierInputs(r, {}) == {}
    ensures forall p :: p in r.inputToOutput ==> Redirected(r, {}, outs, p) == r.inputToOutput[p]
  {
  }

  lemma TouchedByOneMore(r: Record, done: set<CachedUnspent>, input: CachedUnspent, p: CachedUnspent)
    ensures Touched(r, done + {input}, p) ==
            Touched(r, done, p) + if input in r.outputToInput && p in r.outputToInput[input] then {input} else {}
  {
  }

  lemma NextInput(r: Record, done: set<CachedUnspent>, input: CachedUnspent, outs: set<CachedUnspent>, p: CachedUnspent)
    requires p in r.inputToOutput
    ensures Redirected(r, done + {input}, outs, p) ==
            if input in r.outputToInput && p in r.outputToInput[input]
            then Redirected(r, done, outs, p) - {input} + outs else Redirected(r, done, outs, p)
  {
    TouchedByOneMore(r, done, input, p);
  }

  lemma NextEarlierInputs(r: Record, done: set<CachedUnspent>, input: CachedUnspent)
    ensures EarlierInputs(r, done + {input}) ==
            EarlierInputs(r, done) +
            if input in r.outputToInput then r.outputToInput[input] * r.inputToOutput.Keys else {}
  {
    forall p ensures Touched(r, done + {input}, p) ==
                     Touched(r, done, p) +
                     if input in r.outputToInput && p in r.outputToInput[input] then {input} else {}
    {
      TouchedByOneMore(r, done, input, p);
    }
  }

  lemma NewNumberIsDistinct(pending: Pending, seqNo: nat, d: Bytes, entry: PendingWithdraw)
    requires SeqNosDistinct(pending) && SeqNosUpTo(pending, seqNo) && entry.seqNo == seqNo + 1
    ensures SeqNosDistinct(pending[d := entry])
  {
  }

  lemma OneMore(g: Graph, done: set<UnspentInfo>, u: UnspentInfo)
    ensures Kept(g, done + {u}) == Kept(g, done) + if Cache(u) in g then {} else {u}
    ensures Replacements(g, done + {u}) == Replacements(g, done) + if Cache(u) in g then g[Cache(u)] else {}
  {
  }

  /** `some` holds the newest entries of `all`, and at least `CAP` of them once any has been dropped. */
  ghost predicate NewestSoFar(all: Pending, some: Pending) {
    && some.Keys <= all.Keys && SeqNosDistinct(all)
    && (forall d :: d in some ==> some[d] == all[d])
    && (forall d, e :: d in all && d !in some && e in some ==> all[d].seqNo < all[e].seqNo)
    && (some != all ==> |some| >= CAP)
  }

  lemma RemoveOldest(all: Pending, some: Pending, digest: Bytes)
    requires NewestSoFar(all, some) && |some| > CAP && digest in some
    requires forall e :: e in some ==> some[digest].seqNo <= some[e].seqNo
    ensures NewestSoFar(all, some - {digest}) && |some - {digest}| == |some| - 1
  {
  }

  lemma NewestReached(all: Pending, some: Pending)
    requires NewestSoFar(all, some) && |some| <= CAP
    ensures some == Newest(all)
  {
    forall d | d in all ensures d in some <==> |Newer(all, d)| < CAP {
      if d in some {
        KeptIsNew(all, some, d);
      } else {
        DroppedIsOld(all, some, d);
      }
    }
  }

  lemma KeptIsNew(all: Pending, some: Pending, d: Bytes)
    requires NewestSoFar(all, some) && |some| <= CAP && d in some
    ensures |Newer(all, d)| < CAP
  {
    assert Newer(all, d) <= some.Keys - {d};
    CardinalityMonotone(Newer(all, d), some.Keys - {d});
    assert |some.Keys| == |some|;
  }

  lemma DroppedIsOld(all: Pending, some: Pending, d: Bytes)
    requires NewestSoFar(all, some) && d in all && d !in some
    ensures |Newer(all, d)| >= CAP
  {
    assert some.Keys <= Newer(all, d);
    CardinalityMonotone(some.Keys, Newer(all, d));
    assert |some.Keys| == |some|;
  }
}
