/**
 Withdraws that were signed but not seen broadcast yet, and whole runs of the record: noting a withdraw,
 promoting it when its broadcast is accepted, and recording a spend directly.
 */
module PendingWithdraws {
  import opened Base
  import opened SpendGraph
  import opened SpentRecord
  import opened Substitution
  import Ledger

  const TTL_MS: nat := 10 * 60 * 1000
  const CAP: nat := 64

  datatype TransactionOutput = TransactionOutput(value: nat, scriptPubkey: Bytes)

  /** A signed transaction: the listed outputs it consumes, its hash and all of its outputs. */
  datatype SignedTx = SignedTx(inputs: seq<UnspentInfo>, hash: nat, outputs: seq<TransactionOutput>)

  datatype PendingWithdraw = PendingWithdraw(spend: SignedTx, createdMs: nat, seqNo: nat)

  /** Keyed by the serialized transaction, which stands for its digest. */
  type Pending = map<Bytes, PendingWithdraw>

  datatype View = View(record: Record, pending: Pending, seqNo: nat)

  const EMPTY_VIEW := View(EMPTY_RECORD, map[], 0)

  // ---------------------------------------------------------------------------------------------
  // One operation
  // ---------------------------------------------------------------------------------------------

  /** The outputs that pay to `script`, named by their position; positions are kept in 32 bits. */
  function OwnOutputs(script: Bytes, spend: SignedTx): set<CachedUnspent> {
    set i | 0 <= i < |spend.outputs| && spend.outputs[i].scriptPubkey == script ::
      CachedUnspent(OutPoint(spend.hash, i % (U32_MAX + 1)), spend.outputs[i].value)
  }

  /** Each outpoint of a transaction names one output: the one at its position, if that pays to `script`. */
  lemma OwnOutputsByPosition(script: Bytes, spend: SignedTx, c: CachedUnspent)
    requires |spend.outputs| <= U32_MAX + 1
    ensures c in OwnOutputs(script, spend) <==>
            && c.outpoint.hash == spend.hash && c.outpoint.index < |spend.outputs|
            && spend.outputs[c.outpoint.index] == TransactionOutput(c.value, script)
  {
  }

  function AsTx(script: Bytes, spend: SignedTx): Tx {
    Tx(set u | u in spend.inputs :: Cache(u), OwnOutputs(script, spend))
  }

  function Enter(script: Bytes, r: Record, spend: SignedTx): Record {
    var t := AsTx(script, spend); Recorded(r, t.ins, t.outs)
  }

  predicate Expired(p: PendingWithdraw, nowMs: nat) {
    SatSub(nowMs, p.createdMs) >= TTL_MS
  }

  function Purged(pending: Pending, nowMs: nat): Pending {
    map d | d in pending && !Expired(pending[d], nowMs) :: pending[d]
  }

  function Newer(pending: Pending, d: Bytes): (s: set<Bytes>)
    requires d in pending
  {
    set e | e in pending && pending[e].seqNo > pending[d].seqNo
  }

  /** The entries that fewer than `CAP` entries are newer than. */
  function Newest(pending: Pending): Pending {
    map d | d in pending && |Newer(pending, d)| < CAP :: pending[d]
  }

  datatype Op =
    | Note(nowMs: nat, txBytes: Bytes, spend: SignedTx)
    | Promote(nowMs: nat, txBytes: Bytes)
    | AddSpent(spend: SignedTx)

  function PendingAfter(pending: Pending, seqNo: nat, op: Op): Pending {
    match op
    case Note(now, d, spend) => Newest(Purged(pending, now)[d := PendingWithdraw(spend, now, seqNo + 1)])
    case Promote(now, d) => Purged(pending, now) - {d}
    case AddSpent(_) => pending
  }

  function RecordAfter(script: Bytes, v: View, op: Op): Record {
    match op
    case Note(_, _, _) => v.record
    case Promote(now, d) => if Promotes(v, op) then Enter(script, v.record, v.pending[d].spend) else v.record
    case AddSpent(spend) => Enter(script, v.record, spend)
  }

  function Step(script: Bytes, v: View, op: Op): View {
    View(RecordAfter(script, v, op), PendingAfter(v.pending, v.seqNo, op), if op.Note? then v.seqNo + 1 else v.seqNo)
  }

  /** Whether a promotion finds its entry. */
  predicate Promotes(v: View, op: Op) {
    op.Promote? && op.txBytes in Purged(v.pending, op.nowMs)
  }

  function Run(script: Bytes, v: View, ops: seq<Op>): View {
    if ops == [] then v
    else Step(script, Run(script, v, ops[..|ops| - 1]), ops[|ops| - 1])
  }

  // ---------------------------------------------------------------------------------------------
  // Bounds of every run
  // ---------------------------------------------------------------------------------------------

  ghost predicate SeqNosDistinct(pending: Pending) {
    forall d, e :: d in pending && e in pending && pending[d].seqNo == pending[e].seqNo ==> d == e
  }

  ghost predicate SeqNosUpTo(pending: Pending, n: nat) {
    forall d :: d in pending ==> pending[d].seqNo <= n
  }

  ghost predicate PendingBounded(pending: Pending, n: nat) {
    |pending| <= CAP && SeqNosDistinct(pending) && SeqNosUpTo(pending, n)
  }

  ghost predicate Bounded(v: View) {
    PendingBounded(v.pending, v.seqNo)
  }

  lemma Oldest(pending: Pending, s: set<Bytes>) returns (d: Bytes)
    requires {} < s <= pending.Keys
    ensures d in s && forall e :: e in s ==> pending[d].seqNo <= pending[e].seqNo
  {
    d :| d in s;
    if s != {d} {
      var e := Oldest(pending, s - {d});
      if pending[e].seqNo < pending[d].seqNo {
        d := e;
      }
    }
  }

  /** Keeping the newest entries is keeping at most 64 of them. */
  lemma NewestIsCapped(pending: Pending)
    requires SeqNosDistinct(pending)
    ensures |Newest(pending)| <= 64
  {
    var kept := Newest(pending).Keys;
    if kept != {} {
      var d := Oldest(pending, kept);
      assert kept <= Newer(pending, d) + {d};
      CardinalityMonotone(kept, Newer(pending, d) + {d});
      assert |kept| == |Newest(pending)|;
    }
  }

  lemma CardinalityMonotone<T>(a: set<T>, b: set<T>)
    requires a <= b
    ensures |a| <= |b|
  {
    if a != {} {
      var x :| x in a;
      CardinalityMonotone(a - {x}, b - {x});
    }
  }

  lemma PurgedIsSmaller(pending: Pending, nowMs: nat)
    ensures |Purged(pending, nowMs)| <= |pending|
  {
    CardinalityMonotone(Purged(pending, nowMs).Keys, pending.Keys);
    assert |Purged(pending, nowMs).Keys| == |Purged(pending, nowMs)| && |pending.Keys| == |pending|;
  }

  lemma RemovalIsBounded(pending: Pending, seqNo: nat, d: Bytes)
    requires PendingBounded(pending, seqNo)
    ensures PendingBounded(pending - {d}, seqNo)
  {
  }

  lemma NoteIsBounded(pending: Pending, seqNo: nat, d: Bytes, entry: PendingWithdraw)
    requires SeqNosDistinct(pending) && SeqNosUpTo(pending, seqNo) && entry.seqNo == seqNo + 1
    ensures PendingBounded(Newest(pending[d := entry]), seqNo + 1)
  {
    NewestIsCapped(pending[d := entry]);
  }

  lemma PurgedIsBounded(pending: Pending, seqNo: nat, nowMs: nat)
    requires PendingBounded(pending, seqNo)
    ensures PendingBounded(Purged(pending, nowMs), seqNo)
  {
    PurgedIsSmaller(pending, nowMs);
  }

  lemma BoundedStep(v: View, op: Op)
    requires Bounded(v)
    ensures PendingBounded(PendingAfter(v.pending, v.seqNo, op), if op.Note? then v.seqNo + 1 else v.seqNo)
  {
    match op {
      case Note(now, d, spend) =>
        PurgedIsBounded(v.pending, v.seqNo, now);
        NoteIsBounded(Purged(v.pending, now), v.seqNo, d, PendingWithdraw(spend, now, v.seqNo + 1));
      case Promote(now, d) =>
        PurgedIsBounded(v.pending, v.seqNo, now);
        RemovalIsBounded(Purged(v.pending, now), v.seqNo, d);
      case AddSpent(_) =>
    }
  }

  /** In every run there are at most 64 entries, and their sequence numbers are distinct. */
  lemma {:induction false} RunIsBounded(script: Bytes, v: View, ops: seq<Op>)
    requires Bounded(v)
    ensures Bounded(Run(script, v, ops)) && |Run(script, v, ops).pending| <= 64
  {
    if ops != [] {
      RunIsBounded(script, v, ops[..|ops| - 1]);
      BoundedStep(Run(script, v, ops[..|ops| - 1]), ops[|ops| - 1]);
    }
  }

  // ---------------------------------------------------------------------------------------------
  // How long an entry lives
  // ---------------------------------------------------------------------------------------------

  function Notes(ops: seq<Op>): nat {
    if ops == [] then 0 else Notes(ops[..|ops| - 1]) + if ops[|ops| - 1].Note? then 1 else 0
  }

  /** The operation replaces or consumes the entry `d`, or comes ten minutes or more after it was made. */
  predicate EndsEntry(op: Op, d: Bytes, entry: PendingWithdraw) {
    match op
    case Note(now, e, _) => e == d || now >= entry.createdMs + 600_000
    case Promote(now, e) => e == d || now >= entry.createdMs + 600_000
    case AddSpent(_) => false
  }

  predicate Holds(v: View, d: Bytes, entry: PendingWithdraw) {
    d in v.pending && v.pending[d] == entry
  }

  lemma DistinctNumbersFit(pending: Pending, s: set<Bytes>, lo: nat, hi: nat)
    requires s <= pending.Keys && SeqNosDistinct(pending) && lo <= hi
    requires forall e :: e in s ==> lo < pending[e].seqNo <= hi
    ensures |s| <= hi - lo
    decreases hi - lo
  {
    if s != {} {
      var d :| d in s;
      var top := set e | e in s && pending[e].seqNo == hi;
      assert |top| <= 1 by {
        if e :| e in top {
          assert top == {e};
        }
      }
      if lo < hi {
        DistinctNumbersFit(pending, s - top, lo, hi - 1);
        assert s == (s - top) + top;
        assert |s| == |s - top| + |top|;
      }
    }
  }

  lemma EntryStep(script: Bytes, v: View, op: Op, d: Bytes, entry: PendingWithdraw)
    requires Bounded(v) && entry.seqNo <= v.seqNo
    requires op.Note? ==> v.seqNo + 1 < entry.seqNo + CAP
    ensures Holds(Step(script, v, op), d, entry) <==> Holds(v, d, entry) && !EndsEntry(op, d, entry)
  {
    if op.Note? {
      var all := Purged(v.pending, op.nowMs)[op.txBytes := PendingWithdraw(op.spend, op.nowMs, v.seqNo + 1)];
      if d in all && all[d] == entry {
        DistinctNumbersFit(all, Newer(all, d), entry.seqNo, v.seqNo + 1);
      }
    }
  }

  lemma {:induction false} SeqNoCountsNotes(script: Bytes, v: View, ops: seq<Op>)
    ensures Run(script, v, ops).seqNo == v.seqNo + Notes(ops)
  {
    if ops != [] {
      SeqNoCountsNotes(script, v, ops[..|ops| - 1]);
    }
  }

  /**
   An entry followed by fewer than 64 notes is there exactly as long as no operation replaces it, consumes
   it, or comes ten minutes after it: it is never dropped to make room. Clocks are arbitrary.
   */
  lemma {:induction false} EntryLivesUntilEnded(script: Bytes, v: View, d: Bytes, spend: SignedTx, nowMs: nat,
                                                ops: seq<Op>)
    requires Bounded(v) && Notes(ops) < 64
    ensures var noted := Step(script, v, Note(nowMs, d, spend));
            var entry := PendingWithdraw(spend, nowMs, v.seqNo + 1);
            Holds(Run(script, noted, ops), d, entry) <==> forall op :: op in ops ==> !EndsEntry(op, d, entry)
  {
    var noted := Step(script, v, Note(nowMs, d, spend));
    var entry := PendingWithdraw(spend, nowMs, v.seqNo + 1);
    BoundedStep(v, Note(nowMs, d, spend));
    if ops == [] {
      var all := Purged(v.pending, nowMs)[d := entry];
      assert Newer(all, d) == {};
    } else {
      var init, last := ops[..|ops| - 1], ops[|ops| - 1];
      assert ops == init + [last];
      EntryLivesUntilEnded(script, v, d, spend, nowMs, init);
      RunIsBounded(script, noted, init);
      SeqNoCountsNotes(script, noted, init);
      EntryStep(script, Run(script, noted, init), last, d, entry);
    }
  }

  /** A promotion succeeds exactly for an entry that is less than ten minutes old. */
  lemma PromotedWithinTenMinutes(v: View, now: nat, d: Bytes)
    ensures Promotes(v, Promote(now, d)) <==> d in v.pending && now < v.pending[d].createdMs + 600_000
  {
  }

  /**
   A withdraw noted at `t` is promoted at `now`, with at most 63 notes in between, exactly if nothing ended its
   entry meanwhile and fewer than ten minutes have passed; with nothing in between the ten minutes decide alone.
   */
  lemma NotedThenPromoted(script: Bytes, v: View, d: Bytes, spend: SignedTx, t: nat, ops: seq<Op>, now: nat)
    requires Bounded(v) && Notes(ops) < 64
    ensures var after := Run(script, Step(script, v, Note(t, d, spend)), ops);
            var entry := PendingWithdraw(spend, t, v.seqNo + 1);
            Holds(after, d, entry) && Promotes(after, Promote(now, d)) <==>
            (forall op :: op in ops ==> !EndsEntry(op, d, entry)) && now < t + 600_000
    ensures Promotes(Step(script, v, Note(t, d, spend)), Promote(now, d)) <==> now < t + 600_000
  {
    var noted := Step(script, v, Note(t, d, spend));
    EntryLivesUntilEnded(script, v, d, spend, t, ops);
    EntryLivesUntilEnded(script, v, d, spend, t, []);
    assert Holds(noted, d, PendingWithdraw(spend, t, v.seqNo + 1));
  }

  /** Noting a withdraw leaves the record as it is, so it hides nothing and offers nothing. */
  lemma NoteStep(script: Bytes, v: View, nowMs: nat, txBytes: Bytes, spend: SignedTx)
    ensures Step(script, v, Note(nowMs, txBytes, spend)) ==
            View(v.record, PendingAfter(v.pending, v.seqNo, Note(nowMs, txBytes, spend)), v.seqNo + 1)
  {
  }

  // ---------------------------------------------------------------------------------------------
  // Promotion
  // ---------------------------------------------------------------------------------------------

  function NotesOf(ops: seq<Op>, d: Bytes): nat {
    if ops == [] then 0
    else NotesOf(ops[..|ops| - 1], d) + var op := ops[|ops| - 1]; if op.Note? && op.txBytes == d then 1 else 0
  }

  function PromotionsOf(script: Bytes, v: View, ops: seq<Op>, d: Bytes): nat {
    if ops == [] then 0
    else
      var init, op := ops[..|ops| - 1], ops[|ops| - 1];
      PromotionsOf(script, v, init, d) +
      if op.Promote? && op.txBytes == d && Promotes(Run(script, v, init), op) then 1 else 0
  }

  /** A withdraw is promoted at most once for each time it was noted. */
  lemma {:induction false} PromotedAtMostOncePerNote(script: Bytes, ops: seq<Op>, d: Bytes)
    ensures PromotionsOf(script, EMPTY_VIEW, ops, d) + (if d in Run(script, EMPTY_VIEW, ops).pending then 1 else 0)
            <= NotesOf(ops, d)
  {
    if ops != [] {
      PromotedAtMostOncePerNote(script, ops[..|ops| - 1], d);
    }
  }

  /** What an operation enters: the spend itself, or that of an entry promoted within ten minutes. */
  function EnteredBy(v: View, op: Op): seq<SignedTx> {
    match op
    case AddSpent(spend) => [spend]
    case Promote(now, d) =>
      if d in v.pending && now < v.pending[d].createdMs + 600_000 then [v.pending[d].spend] else []
    case Note(_, _, _) => []
  }

  /** The signed transactions a run enters into the record, in the order it enters them. */
  function Spends(script: Bytes, v: View, ops: seq<Op>): seq<SignedTx> {
    if ops == [] then []
    else
      var init, op := ops[..|ops| - 1], ops[|ops| - 1];
      Spends(script, v, init) + EnteredBy(Run(script, v, init), op)
  }

  function AsTxs(script: Bytes, spends: seq<SignedTx>): (txs: seq<Tx>)
    ensures |txs| == |spends| && forall i :: 0 <= i < |spends| ==> txs[i] == AsTx(script, spends[i])
  {
    seq(|spends|, i requires 0 <= i < |spends| => AsTx(script, spends[i]))
  }

  function Entered(script: Bytes, v: View, ops: seq<Op>): seq<Tx> {
    AsTxs(script, Spends(script, v, ops))
  }

  lemma EnteredNothing(script: Bytes, spends: seq<SignedTx>)
    ensures RecordAll(AsTxs(script, spends + [])) == RecordAll(AsTxs(script, spends))
  {
    assert spends + [] == spends;
  }

  lemma EnteredOne(script: Bytes, spends: seq<SignedTx>, spend: SignedTx)
    ensures RecordAll(AsTxs(script, spends + [spend])) == Enter(script, RecordAll(AsTxs(script, spends)), spend)
  {
    var txs := AsTxs(script, spends + [spend]);
    assert txs[..|txs| - 1] == AsTxs(script, spends);
  }

  /** The record of a run is the record of the transactions entered, however late they were promoted. */
  lemma {:induction false} RunRecordsEntered(script: Bytes, ops: seq<Op>)
    ensures Run(script, EMPTY_VIEW, ops).record == RecordAll(Entered(script, EMPTY_VIEW, ops))
  {
    if ops != [] {
      var init, op := ops[..|ops| - 1], ops[|ops| - 1];
      var spends, v := Spends(script, EMPTY_VIEW, init), Run(script, EMPTY_VIEW, init);
      RunRecordsEntered(script, init);
      if EnteredBy(v, op) == [] {
        EnteredNothing(script, spends);
      } else {
        EnteredOne(script, spends, EnteredBy(v, op)[0]);
      }
    }
  }

  /** After any run, substitution answers from the transactions entered and from nothing else. */
  lemma RunSubstitution(script: Bytes, ops: seq<Op>, s: set<UnspentInfo>, u: UnspentInfo)
    requires NoCycle(Entered(script, EMPTY_VIEW, ops))
    ensures Terminates(Run(script, EMPTY_VIEW, ops).record.inputToOutput, s)
    ensures u in Replace(Run(script, EMPTY_VIEW, ops).record.inputToOutput, s) ==>
            forall t :: t in Entered(script, EMPTY_VIEW, ops) ==> Cache(u) !in t.ins
    ensures NoDoubleSpend(Entered(script, EMPTY_VIEW, ops)) ==>
            (u in Replace(Run(script, EMPTY_VIEW, ops).record.inputToOutput, s) <==>
             StandsFor(SpendsOf(Entered(script, EMPTY_VIEW, ops)), s, u))
  {
    RunRecordsEntered(script, ops);
    NoSpentOutputIsReturned(Entered(script, EMPTY_VIEW, ops), s);
    if NoDoubleSpend(Entered(script, EMPTY_VIEW, ops)) {
      SubstitutionFollowsTheTransactions(Entered(script, EMPTY_VIEW, ops), s, u);
    }
  }

  /**
   After a run whose transactions happened in the order they were entered, a listing of any earlier moment
   becomes the current set of unspent outputs; withdraws that are only noted make no difference.
   */
  lemma RunStaleListing(script: Bytes, ops: seq<Op>, start: set<CachedUnspent>, k: nat, listing: set<UnspentInfo>)
    requires var txs := Entered(script, EMPTY_VIEW, ops);
             Ledger.Chronological(start, txs) && k <= |txs| && Caches(listing) == Ledger.Unspent(start, txs[..k])
    ensures Terminates(Run(script, EMPTY_VIEW, ops).record.inputToOutput, listing)
    ensures Caches(Replace(Run(script, EMPTY_VIEW, ops).record.inputToOutput, listing)) ==
            Ledger.Unspent(start, Entered(script, EMPTY_VIEW, ops))
  {
    RunRecordsEntered(script, ops);
    Ledger.StaleListingBecomesCurrent(start, Entered(script, EMPTY_VIEW, ops), k, listing);
  }
}
