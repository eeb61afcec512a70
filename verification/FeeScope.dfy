/**
 Requests that share fee readings: every request has a slot for each reading, guarded by a lock that the
 consumers of the request take in any order, and the node's cache behind it.
 */
module FeeScope {
  import opened Base
  import opened FeeLifetime
  import opened FeeCache

  type ScopeId = nat
  type CallId = nat

  datatype Slot = Slot(value: Option<Boxed>, owner: Option<CallId>)

  /** A request: whether it has the node's cache, its slots, and how many cache operations preceded it. */
  datatype Scope = Scope(cached: bool, slots: map<Key, Slot>, openedAt: nat)

  /** A consumer that waits for its slot or, once it has the slot, fetches. */
  datatype Call = Call(scope: ScopeId, key: Key, asking: string, ty: nat, fetching: bool)

  /** Where a value came from; `seen` is the number of cache operations before the lookup. */
  datatype Origin = FromSlot | FromCache(asking: string, now: nat, seen: nat) | FromFetch

  /** A consumer got a value. */
  datatype Got = Got(scope: ScopeId, key: Key, value: Boxed, origin: Origin)

  datatype State = State(
    readings: Readings, ops: seq<Op>, scopes: map<ScopeId, Scope>, calls: map<CallId, Call>, log: seq<Got>)

  const INITIAL := State(map[], [], map[], map[], [])

  datatype Step =
    | Open(scope: ScopeId, cached: bool)
    | Begin(call: CallId, scope: ScopeId, key: Key, asking: string, ty: nat)
    | Enter(call: CallId, now: nat)
    | FetchOk(call: CallId, contents: int, now: nat)
    | FetchErr(call: CallId)
    | Cancel(call: CallId)
    | Remove(op: Op)
    | Outside(contents: int)   // code outside a request fetches on its own

  predicate HasSlot(s: State, scope: ScopeId, key: Key) {
    scope in s.scopes && key in s.scopes[scope].slots
  }

  function SlotOf(s: State, scope: ScopeId, key: Key): Slot
    requires HasSlot(s, scope, key)
  {
    s.scopes[scope].slots[key]
  }

  function WithSlot(s: State, scope: ScopeId, key: Key, slot: Slot): State
    requires scope in s.scopes
  {
    s.(scopes := s.scopes[scope := s.scopes[scope].(slots := s.scopes[scope].slots[key := slot])])
  }

  function Finished(s: State, call: CallId): State {
    s.(calls := s.calls - {call})
  }

  function Logged(s: State, got: Got): State {
    s.(log := s.log + [got])
  }

  function Operated(cfg: Config, s: State, op: Op): State {
    s.(readings := Apply(cfg, s.readings, op), ops := s.ops + [op])
  }

  predicate Ready(s: State, call: CallId) {
    call in s.calls && HasSlot(s, s.calls[call].scope, s.calls[call].key)
  }

  predicate Enabled(s: State, step: Step) {
    match step
    case Open(scope, _) => scope !in s.scopes
    case Begin(call, scope, _, _, _) => call !in s.calls && scope in s.scopes
    case Enter(call, _) =>
      Ready(s, call) && !s.calls[call].fetching && SlotOf(s, s.calls[call].scope, s.calls[call].key).owner.None?
    case FetchOk(call, _, _) => Ready(s, call) && s.calls[call].fetching
    case FetchErr(call) => Ready(s, call) && s.calls[call].fetching
    case Cancel(call) => Ready(s, call)
    case Remove(op) => !op.Store?
    case Outside(_) => true
  }

  /** The consumer has the lock of its slot. */
  function Entered(cfg: Config, s: State, call: CallId, now: nat): State
    requires Ready(s, call)
  {
    var c := s.calls[call];
    var slot := SlotOf(s, c.scope, c.key);
    if slot.value.Some? && slot.value.value.ty == c.ty then
      Finished(Logged(s, Got(c.scope, c.key, slot.value.value, FromSlot)), call)
    else
      var hit := if s.scopes[c.scope].cached then LookUp(cfg, s.readings, c.key, c.asking, c.ty, now) else None;
      if hit.Some? then
        var s1 := WithSlot(s, c.scope, c.key, slot.(value := hit));
        Finished(Logged(s1, Got(c.scope, c.key, hit.value, FromCache(c.asking, now, |s.ops|))), call)
      else
        var s1 := WithSlot(s, c.scope, c.key, slot.(owner := Some(call)));
        s1.(calls := s1.calls[call := c.(fetching := true)])
  }

  function Fetched(cfg: Config, s: State, call: CallId, contents: int, now: nat): State
    requires Ready(s, call)
  {
    var c := s.calls[call];
    var v := Boxed(c.ty, contents);
    var s1 := if s.scopes[c.scope].cached then Operated(cfg, s, Store(c.key, c.asking, v, now)) else s;
    Finished(Logged(WithSlot(s1, c.scope, c.key, Slot(Some(v), None)), Got(c.scope, c.key, v, FromFetch)), call)
  }

  /** A consumer that fails or is cancelled lets go of the lock if it has it. */
  function GivenUp(s: State, call: CallId): State
    requires Ready(s, call)
  {
    var c := s.calls[call];
    var s1 := if c.fetching then WithSlot(s, c.scope, c.key, SlotOf(s, c.scope, c.key).(owner := None)) else s;
    Finished(s1, call)
  }

  function Next(cfg: Config, s: State, step: Step): State
    requires Enabled(s, step)
  {
    match step
    case Open(scope, cached) => s.(scopes := s.scopes[scope := Scope(cached, map[], |s.ops|)])
    case Begin(call, scope, key, asking, ty) =>
      var s1 := if key in s.scopes[scope].slots then s else WithSlot(s, scope, key, Slot(None, None));
      s1.(calls := s1.calls[call := Call(scope, key, asking, ty, false)])
    case Enter(call, now) => Entered(cfg, s, call, now)
    case FetchOk(call, contents, now) => Fetched(cfg, s, call, contents, now)
    case FetchErr(call) => GivenUp(s, call)
    case Cancel(call) => GivenUp(s, call)
    case Remove(op) => Operated(cfg, s, op)
    case Outside(_) => s
  }

  ghost predicate IsRun(cfg: Config, s: State, steps: seq<Step>)
    decreases |steps|
  {
    steps == [] || (Enabled(s, steps[0]) && IsRun(cfg, Next(cfg, s, steps[0]), steps[1..]))
  }

  ghost function After(cfg: Config, s: State, steps: seq<Step>): State
    requires IsRun(cfg, s, steps)
    decreases |steps|
  {
    if steps == [] then s else After(cfg, Next(cfg, s, steps[0]), steps[1..])
  }

  /** The type at which each reading is asked for, where there is one such type for each. */
  type Typing = Option<Key -> nat>

  predicate WellTyped(typing: Typing, step: Step) {
    step.Begin? && typing.Some? ==> step.ty == typing.value(step.key)
  }

  // ---------------------------------------------------------------------------------------------
  // The invariant
  // ---------------------------------------------------------------------------------------------

  predicate About(g: Got, scope: ScopeId, key: Key) {
    g.scope == scope && g.key == key
  }

  /** The first value of a slot: it came from the cache or from a fetch, and the slot keeps it. */
  predicate Fills(g: Got, scope: ScopeId, key: Key) {
    About(g, scope, key) && g.origin != FromSlot
  }

  ghost predicate CallOk(s: State, typing: Typing, call: CallId)
    requires call in s.calls
  {
    var c := s.calls[call];
    && HasSlot(s, c.scope, c.key)
    && (typing.Some? ==> c.ty == typing.value(c.key))
    && (c.fetching ==> SlotOf(s, c.scope, c.key).owner == Some(call))
  }

  /** Somebody filled the slot with this value. */
  ghost predicate Filling(log: seq<Got>, scope: ScopeId, key: Key, value: Boxed) {
    exists i :: 0 <= i < |log| && Fills(log[i], scope, key) && log[i].value == value
  }

  lemma FillingKept(log: seq<Got>, log': seq<Got>, scope: ScopeId, key: Key, value: Boxed)
    requires Filling(log, scope, key, value) && log <= log'
    ensures Filling(log', scope, key, value)
  {
    var i :| 0 <= i < |log| && Fills(log[i], scope, key) && log[i].value == value;
    assert Fills(log'[i], scope, key);
  }

  ghost predicate SlotOk(s: State, typing: Typing, scope: ScopeId, key: Key)
    requires HasSlot(s, scope, key)
  {
    var slot := SlotOf(s, scope, key);
    && (slot.value.Some? ==> Filling(s.log, scope, key, slot.value.value))
    && (typing.Some? && slot.value.Some? ==> slot.owner.None? && slot.value.value.ty == typing.value(key))
  }

  ghost predicate GotOk(cfg: Config, s: State, typing: Typing, g: Got) {
    && HasSlot(s, g.scope, g.key)
    && Filling(s.log, g.scope, g.key, g.value)
    && (typing.Some? ==> SlotOf(s, g.scope, g.key).value == Some(g.value))
    && OriginOk(cfg, s, g)
  }

  predicate SameFilling(g: Got, h: Got) {
    g.origin != FromSlot && h.origin != FromSlot && g.scope == h.scope && g.key == h.key
  }

  ghost predicate FilledOnce(log: seq<Got>) {
    forall i, j :: 0 <= i < |log| && 0 <= j < |log| && SameFilling(log[i], log[j]) ==> i == j
  }

  ghost predicate CacheOk(cfg: Config, s: State) {
    && s.readings == Run(cfg, s.ops)
    && forall scope :: scope in s.scopes ==> s.scopes[scope].openedAt <= |s.ops|
  }

  ghost predicate Inv(cfg: Config, typing: Typing, s: State) {
    && CacheOk(cfg, s)
    && (forall call :: call in s.calls ==> CallOk(s, typing, call))
    && (forall scope, key :: HasSlot(s, scope, key) ==> SlotOk(s, typing, scope, key))
    && (forall i :: 0 <= i < |s.log| ==> GotOk(cfg, s, typing, s.log[i]))
    && (typing.Some? ==> FilledOnce(s.log))
  }

  lemma RunSnoc(cfg: Config, ops: seq<Op>, op: Op)
    ensures Run(cfg, ops + [op]) == Apply(cfg, Run(cfg, ops), op)
  {
  }

  lemma OperatedKeepsInv(cfg: Config, typing: Typing, s: State, op: Op)
    requires Inv(cfg, typing, s)
    ensures Inv(cfg, typing, Operated(cfg, s, op))
  {
    var s' := Operated(cfg, s, op);
    RunSnoc(cfg, s.ops, op);
    forall i | 0 <= i < |s.log| ensures GotOk(cfg, s', typing, s.log[i]) {
      var g := s.log[i];
      assert GotOk(cfg, s, typing, g);
      if g.origin.FromCache? {
        assert s'.ops[..g.origin.seen] == s.ops[..g.origin.seen];
      }
    }
    forall scope, key | HasSlot(s', scope, key) ensures SlotOk(s', typing, scope, key) {
      assert SlotOk(s, typing, scope, key);
    }
    forall call | call in s'.calls ensures CallOk(s', typing, call) {
      assert CallOk(s, typing, call);
    }
  }

  /** Slots keep their values and requests their beginnings. */
  ghost predicate Extends(s: State, s': State) {
    && s'.ops == s.ops
    && (forall scope :: scope in s.scopes ==>
          scope in s'.scopes && s'.scopes[scope].openedAt == s.scopes[scope].openedAt)
    && (forall scope, key :: HasSlot(s, scope, key) ==>
          HasSlot(s', scope, key) && SlotOf(s', scope, key).value == SlotOf(s, scope, key).value)
  }

  lemma GotKept(cfg: Config, typing: Typing, s: State, s': State, g: Got)
    requires Extends(s, s') && s.log <= s'.log && GotOk(cfg, s, typing, g)
    ensures GotOk(cfg, s', typing, g)
  {
  }

  lemma LogKept(cfg: Config, typing: Typing, s: State, s': State)
    requires Inv(cfg, typing, s) && Extends(s, s') && s'.log == s.log
    ensures typing.Some? ==> FilledOnce(s'.log)
    ensures forall i :: 0 <= i < |s'.log| ==> GotOk(cfg, s', typing, s'.log[i])
  {
  }

  /** A slot that only changes hands is still in order. */
  lemma SlotKept(typing: Typing, s: State, s': State, scope: ScopeId, key: Key)
    requires HasSlot(s, scope, key) && HasSlot(s', scope, key) && SlotOk(s, typing, scope, key)
    requires SlotOf(s', scope, key).value == SlotOf(s, scope, key).value
    requires typing.Some? && SlotOf(s', scope, key).value.Some? ==> SlotOf(s', scope, key).owner.None?
    requires s.log <= s'.log
    ensures SlotOk(s', typing, scope, key)
  {
  }

  function Reused(s: State, call: CallId, scope: ScopeId, key: Key): State
    requires HasSlot(s, scope, key) && SlotOf(s, scope, key).value.Some?
  {
    Finished(Logged(s, Got(scope, key, SlotOf(s, scope, key).value.value, FromSlot)), call)
  }

  lemma ReuseKeepsLog(cfg: Config, typing: Typing, s: State, call: CallId, scope: ScopeId, key: Key, i: nat)
    requires Inv(cfg, typing, s) && HasSlot(s, scope, key) && SlotOf(s, scope, key).value.Some?
    requires i < |Reused(s, call, scope, key).log|
    ensures GotOk(cfg, Reused(s, call, scope, key), typing, Reused(s, call, scope, key).log[i])
  {
    var s' := Reused(s, call, scope, key);
    if i < |s.log| {
      GotKept(cfg, typing, s, s', s.log[i]);
    } else {
      assert SlotOk(s, typing, scope, key);
      FillingKept(s.log, s'.log, scope, key, s'.log[i].value);
    }
  }

  /** A value handed out from the slot. */
  lemma ReuseKeepsInv(cfg: Config, typing: Typing, s: State, call: CallId, scope: ScopeId, key: Key)
    requires Inv(cfg, typing, s) && HasSlot(s, scope, key) && SlotOf(s, scope, key).value.Some?
    ensures Inv(cfg, typing, Reused(s, call, scope, key))
  {
    var s' := Reused(s, call, scope, key);
    forall i | 0 <= i < |s'.log| ensures GotOk(cfg, s', typing, s'.log[i]) {
      ReuseKeepsLog(cfg, typing, s, call, scope, key, i);
    }
    forall sc, k | HasSlot(s', sc, k) ensures SlotOk(s', typing, sc, k) {
      assert SlotOk(s, typing, sc, k);
      SlotKept(typing, s, s', sc, k);
    }
    forall o | o in s'.calls ensures CallOk(s', typing, o) {
      assert CallOk(s, typing, o);
    }
  }

  /** The lookup that the origin of a value stands for did give that value. */
  ghost predicate OriginOk(cfg: Config, s: State, g: Got)
    requires g.scope in s.scopes
  {
    g.origin.FromCache? ==>
      && s.scopes[g.scope].openedAt <= g.origin.seen <= |s.ops|
      && LookUp(cfg, Run(cfg, s.ops[..g.origin.seen]), g.key, g.origin.asking, g.value.ty, g.origin.now) ==
         Some(g.value)
  }

  ghost predicate Fillable(cfg: Config, typing: Typing, s: State, call: CallId, got: Got) {
    && HasSlot(s, got.scope, got.key) && got.origin != FromSlot
    && SlotOf(s, got.scope, got.key).owner in {None, Some(call)}
    && (typing.Some? ==> SlotOf(s, got.scope, got.key).value.None? && got.value.ty == typing.value(got.key))
    && OriginOk(cfg, s, got)
  }

  function Filled(s: State, call: CallId, got: Got): State
    requires got.scope in s.scopes
  {
    Finished(Logged(WithSlot(s, got.scope, got.key, Slot(Some(got.value), None)), got), call)
  }

  lemma FilledSlots(s: State, call: CallId, got: Got, scope: ScopeId, key: Key)
    requires HasSlot(s, got.scope, got.key)
    ensures HasSlot(Filled(s, call, got), scope, key) <==> HasSlot(s, scope, key)
    ensures HasSlot(s, scope, key) ==>
              SlotOf(Filled(s, call, got), scope, key) ==
              if About(got, scope, key) then Slot(Some(got.value), None) else SlotOf(s, scope, key)
    ensures scope in s.scopes ==> Filled(s, call, got).scopes[scope].openedAt == s.scopes[scope].openedAt
  {
  }

  lemma FillKeepsLog(cfg: Config, typing: Typing, s: State, call: CallId, got: Got)
    requires Inv(cfg, typing, s) && Fillable(cfg, typing, s, call, got)
    ensures var s' := Filled(s, call, got);
            && (typing.Some? ==> FilledOnce(s'.log))
            && forall i :: 0 <= i < |s'.log| ==> GotOk(cfg, s', typing, s'.log[i])
  {
    var s' := Filled(s, call, got);
    forall i | 0 <= i < |s'.log| ensures GotOk(cfg, s', typing, s'.log[i]) {
      var g := s'.log[i];
      if i < |s.log| {
        assert GotOk(cfg, s, typing, s.log[i]);
        FillingKept(s.log, s'.log, g.scope, g.key, g.value);
      } else {
        assert Fills(s'.log[i], g.scope, g.key);
      }
      FilledSlots(s, call, got, g.scope, g.key);
    }
  }

  lemma FillKeepsSlots(cfg: Config, typing: Typing, s: State, call: CallId, got: Got, scope: ScopeId, key: Key)
    requires Inv(cfg, typing, s) && Fillable(cfg, typing, s, call, got) && HasSlot(s, scope, key)
    ensures HasSlot(Filled(s, call, got), scope, key) && SlotOk(Filled(s, call, got), typing, scope, key)
  {
    var s' := Filled(s, call, got);
    FilledSlots(s, call, got, scope, key);
    if About(got, scope, key) {
      assert Fills(s'.log[|s.log|], scope, key);
    } else {
      assert SlotOk(s, typing, scope, key);
      SlotKept(typing, s, s', scope, key);
    }
  }

  /** An empty slot is filled, by a consumer that has its lock or has just taken it. */
  lemma FillKeepsInv(cfg: Config, typing: Typing, s: State, call: CallId, got: Got)
    requires Inv(cfg, typing, s) && Fillable(cfg, typing, s, call, got)
    ensures Inv(cfg, typing, Filled(s, call, got))
  {
    var s' := Filled(s, call, got);
    FillKeepsLog(cfg, typing, s, call, got);
    forall scope, key | HasSlot(s', scope, key) ensures SlotOk(s', typing, scope, key) {
      FilledSlots(s, call, got, scope, key);
      FillKeepsSlots(cfg, typing, s, call, got, scope, key);
    }
    forall o | o in s'.calls ensures CallOk(s', typing, o) {
      assert CallOk(s, typing, o);
      FilledSlots(s, call, got, s.calls[o].scope, s.calls[o].key);
    }
  }

  /** The slot of a consumer changes hands. */
  function Handed(s: State, call: CallId, owner: Option<CallId>): State
    requires Ready(s, call)
  {
    var c := s.calls[call];
    WithSlot(s, c.scope, c.key, SlotOf(s, c.scope, c.key).(owner := owner))
  }

  lemma HandedSlots(s: State, call: CallId, owner: Option<CallId>)
    requires Ready(s, call)
    ensures Extends(s, Handed(s, call, owner))
    ensures forall scope, key :: HasSlot(Handed(s, call, owner), scope, key) <==> HasSlot(s, scope, key)
    ensures forall scope, key :: HasSlot(s, scope, key) ==>
              SlotOf(Handed(s, call, owner), scope, key).owner ==
              if scope == s.calls[call].scope && key == s.calls[call].key then owner else SlotOf(s, scope, key).owner
  {
  }

  lemma TakeKeepsInv(cfg: Config, typing: Typing, s: State, call: CallId)
    requires Inv(cfg, typing, s) && Ready(s, call)
    requires SlotOf(s, s.calls[call].scope, s.calls[call].key).owner.None?
    requires typing.Some? ==> SlotOf(s, s.calls[call].scope, s.calls[call].key).value.None?
    ensures var s1 := Handed(s, call, Some(call));
            Inv(cfg, typing, s1.(calls := s1.calls[call := s.calls[call].(fetching := true)]))
  {
    var s1 := Handed(s, call, Some(call));
    var s' := s1.(calls := s1.calls[call := s.calls[call].(fetching := true)]);
    HandedSlots(s, call, Some(call));
    LogKept(cfg, typing, s, s');
    forall sc, k | HasSlot(s', sc, k) ensures SlotOk(s', typing, sc, k) {
      assert HasSlot(s1, sc, k) && SlotOk(s, typing, sc, k);
      SlotKept(typing, s, s', sc, k);
    }
    forall o | o in s'.calls ensures CallOk(s', typing, o) {
      assert CallOk(s, typing, o);
      assert HasSlot(s1, s.calls[o].scope, s.calls[o].key);
    }
  }

  lemma LetGoKeepsInv(cfg: Config, typing: Typing, s: State, call: CallId)
    requires Inv(cfg, typing, s) && Ready(s, call) && s.calls[call].fetching
    ensures Inv(cfg, typing, Finished(Handed(s, call, None), call))
  {
    var s1 := Handed(s, call, None);
    var s' := Finished(s1, call);
    HandedSlots(s, call, None);
    LogKept(cfg, typing, s, s');
    assert CallOk(s, typing, call);
    forall sc, k | HasSlot(s', sc, k) ensures SlotOk(s', typing, sc, k) {
      assert HasSlot(s1, sc, k) && SlotOk(s, typing, sc, k);
      SlotKept(typing, s, s', sc, k);
    }
    forall o | o in s'.calls ensures CallOk(s', typing, o) {
      assert CallOk(s, typing, o);
      assert HasSlot(s1, s.calls[o].scope, s.calls[o].key);
    }
  }

  lemma EnterKeepsInv(cfg: Config, typing: Typing, s: State, call: CallId, now: nat)
    requires Inv(cfg, typing, s) && Enabled(s, Enter(call, now))
    ensures Inv(cfg, typing, Entered(cfg, s, call, now))
  {
    var c := s.calls[call];
    var slot := SlotOf(s, c.scope, c.key);
    assert CallOk(s, typing, call) && SlotOk(s, typing, c.scope, c.key);
    if slot.value.Some? && slot.value.value.ty == c.ty {
      ReuseKeepsInv(cfg, typing, s, call, c.scope, c.key);
    } else {
      var hit := if s.scopes[c.scope].cached then LookUp(cfg, s.readings, c.key, c.asking, c.ty, now) else None;
      if hit.Some? {
        assert s.ops[..|s.ops|] == s.ops;
        FillKeepsInv(cfg, typing, s, call, Got(c.scope, c.key, hit.value, FromCache(c.asking, now, |s.ops|)));
        assert slot.(value := hit) == Slot(Some(hit.value), None);
      } else {
        TakeKeepsInv(cfg, typing, s, call);
      }
    }
  }

  lemma FetchKeepsInv(cfg: Config, typing: Typing, s: State, call: CallId, contents: int, now: nat)
    requires Inv(cfg, typing, s) && Enabled(s, FetchOk(call, contents, now))
    ensures Inv(cfg, typing, Fetched(cfg, s, call, contents, now))
  {
    var c := s.calls[call];
    var v := Boxed(c.ty, contents);
    assert CallOk(s, typing, call) && SlotOk(s, typing, c.scope, c.key);
    var s1 := if s.scopes[c.scope].cached then Operated(cfg, s, Store(c.key, c.asking, v, now)) else s;
    OperatedKeepsInv(cfg, typing, s, Store(c.key, c.asking, v, now));
    FillKeepsInv(cfg, typing, s1, call, Got(c.scope, c.key, v, FromFetch));
  }

  lemma BeginExtends(cfg: Config, s: State, step: Step)
    requires Enabled(s, step) && (step.Begin? || step.Open?)
    ensures Extends(s, Next(cfg, s, step))
    ensures forall scope, key :: HasSlot(s, scope, key) ==>
              SlotOf(Next(cfg, s, step), scope, key) == SlotOf(s, scope, key)
    ensures forall scope, key :: HasSlot(Next(cfg, s, step), scope, key) && !HasSlot(s, scope, key) ==>
              SlotOf(Next(cfg, s, step), scope, key) == Slot(None, None)
  {
  }

  lemma BeginKeepsInv(cfg: Config, typing: Typing, s: State, step: Step)
    requires Inv(cfg, typing, s) && Enabled(s, step) && WellTyped(typing, step) && (step.Begin? || step.Open?)
    ensures Inv(cfg, typing, Next(cfg, s, step))
  {
    var s' := Next(cfg, s, step);
    BeginExtends(cfg, s, step);
    LogKept(cfg, typing, s, s');
    forall sc, k | HasSlot(s', sc, k) ensures SlotOk(s', typing, sc, k) {
      if HasSlot(s, sc, k) {
        assert SlotOk(s, typing, sc, k);
        SlotKept(typing, s, s', sc, k);
      }
    }
    forall o | o in s'.calls ensures CallOk(s', typing, o) {
      if o in s.calls {
        assert CallOk(s, typing, o);
      }
    }
  }

  lemma GiveUpKeepsInv(cfg: Config, typing: Typing, s: State, call: CallId)
    requires Inv(cfg, typing, s) && Ready(s, call)
    ensures Inv(cfg, typing, GivenUp(s, call))
  {
    if s.calls[call].fetching {
      LetGoKeepsInv(cfg, typing, s, call);
    } else {
      var s' := Finished(s, call);
      LogKept(cfg, typing, s, s');
      forall o | o in s'.calls ensures CallOk(s', typing, o) {
        assert CallOk(s, typing, o);
      }
      forall sc, k | HasSlot(s', sc, k) ensures SlotOk(s', typing, sc, k) {
        assert SlotOk(s, typing, sc, k);
        SlotKept(typing, s, s', sc, k);
      }
    }
  }

  lemma NextKeepsInv(cfg: Config, typing: Typing, s: State, step: Step)
    requires Inv(cfg, typing, s) && Enabled(s, step) && WellTyped(typing, step)
    ensures Inv(cfg, typing, Next(cfg, s, step))
  {
    match step {
      case Open(_, _) => BeginKeepsInv(cfg, typing, s, step);
      case Begin(_, _, _, _, _) => BeginKeepsInv(cfg, typing, s, step);
      case Enter(call, now) => EnterKeepsInv(cfg, typing, s, call, now);
      case FetchOk(call, contents, now) => FetchKeepsInv(cfg, typing, s, call, contents, now);
      case FetchErr(call) => GiveUpKeepsInv(cfg, typing, s, call);
      case Cancel(call) => GiveUpKeepsInv(cfg, typing, s, call);
      case Remove(op) => OperatedKeepsInv(cfg, typing, s, op);
      case Outside(_) =>
    }
  }

  lemma {:induction false} RunKeepsInv(cfg: Config, typing: Typing, s: State, steps: seq<Step>)
    requires Inv(cfg, typing, s) && IsRun(cfg, s, steps) && forall step :: step in steps ==> WellTyped(typing, step)
    ensures Inv(cfg, typing, After(cfg, s, steps))
    decreases |steps|
  {
    if steps != [] {
      assert WellTyped(typing, steps[0]);
      NextKeepsInv(cfg, typing, s, steps[0]);
      RunKeepsInv(cfg, typing, Next(cfg, s, steps[0]), steps[1..]);
    }
  }

  // ---------------------------------------------------------------------------------------------
  // One reading per request
  // ---------------------------------------------------------------------------------------------

  /** Which readings consumers ask for, and at which types. */
  type Policy = (Key, nat) -> bool

  ghost predicate Within(allowed: Policy, steps: seq<Step>) {
    forall step :: step in steps && step.Begin? ==> allowed(step.key, step.ty)
  }

  ghost predicate OneTypePerKey(allowed: Policy) {
    forall key, ty, ty' :: allowed(key, ty) && allowed(key, ty') ==> ty == ty'
  }

  /** All consumers of a request get the same value of a reading, and at most one of them went beyond the slot. */
  ghost predicate OneReading(log: seq<Got>) {
    forall i, j :: 0 <= i < |log| && 0 <= j < |log| && log[i].scope == log[j].scope && log[i].key == log[j].key ==>
      && log[i].value == log[j].value
      && (log[i].origin != FromSlot && log[j].origin != FromSlot ==> i == j)
  }

  ghost function TypeIn(allowed: Policy, key: Key): nat {
    if ty: nat :| allowed(key, ty) then ty else 0
  }

  /** Whatever the consumers of requests do in whatever order, if each reading is asked for at one type. */
  lemma OneReadingPerRequest(cfg: Config, allowed: Policy, steps: seq<Step>)
    requires OneTypePerKey(allowed) && IsRun(cfg, INITIAL, steps) && Within(allowed, steps)
    ensures OneReading(After(cfg, INITIAL, steps).log)
  {
    var typing := Some(key => TypeIn(allowed, key));
    RunKeepsInv(cfg, typing, INITIAL, steps);
    var s := After(cfg, INITIAL, steps);
    forall i, j | && 0 <= i < |s.log| && 0 <= j < |s.log|
                  && s.log[i].scope == s.log[j].scope && s.log[i].key == s.log[j].key
      ensures s.log[i].value == s.log[j].value
      ensures s.log[i].origin != FromSlot && s.log[j].origin != FromSlot ==> i == j
    {
      assert GotOk(cfg, s, typing, s.log[i]) && GotOk(cfg, s, typing, s.log[j]);
    }
  }

  /**
   Two consumers that ask for one reading at any two different types both fetch, and the second value takes
   the place of the first.
   */
  lemma TwoTypesFetchTwice(cfg: Config, allowed: Policy, key: Key, ty: nat, ty': nat) returns (steps: seq<Step>)
    requires ty != ty' && allowed(key, ty) && allowed(key, ty')
    ensures IsRun(cfg, INITIAL, steps) && Within(allowed, steps)
    ensures After(cfg, INITIAL, steps).log ==
            [Got(0, key, Boxed(ty, 1), FromFetch), Got(0, key, Boxed(ty', 2), FromFetch)]
  {
    steps := PlayOn(cfg, allowed, [], Open(0, false));
    steps := FetchesItself(cfg, allowed, steps, 0, key, ty, 1);
    steps := FetchesItself(cfg, allowed, steps, 1, key, ty', 2);
  }

  /** A consumer of an uncached request whose slot holds nothing of its type fetches. */
  lemma FetchesItself(cfg: Config, allowed: Policy, steps: seq<Step>, call: CallId, key: Key, ty: nat, contents: int)
    returns (steps': seq<Step>)
    requires IsRun(cfg, INITIAL, steps) && Within(allowed, steps) && allowed(key, ty)
    requires var s := After(cfg, INITIAL, steps);
             && s.calls == map[] && 0 in s.scopes && !s.scopes[0].cached
             && (HasSlot(s, 0, key) ==>
                   var slot := SlotOf(s, 0, key); slot.owner.None? && (slot.value.Some? ==> slot.value.value.ty != ty))
    ensures IsRun(cfg, INITIAL, steps') && Within(allowed, steps')
    ensures var s, s' := After(cfg, INITIAL, steps), After(cfg, INITIAL, steps');
            && s'.calls == map[] && 0 in s'.scopes && !s'.scopes[0].cached
            && HasSlot(s', 0, key) && SlotOf(s', 0, key) == Slot(Some(Boxed(ty, contents)), None)
            && s'.log == s.log + [Got(0, key, Boxed(ty, contents), FromFetch)]
  {
    steps' := PlayOn(cfg, allowed, steps, Begin(call, 0, key, key.coin, ty));
    steps' := PlayOn(cfg, allowed, steps', Enter(call, 0));
    steps' := PlayOn(cfg, allowed, steps', FetchOk(call, contents, 0));
  }

  lemma PlayOn(cfg: Config, allowed: Policy, steps: seq<Step>, step: Step) returns (steps': seq<Step>)
    requires IsRun(cfg, INITIAL, steps) && Within(allowed, steps) && Enabled(After(cfg, INITIAL, steps), step)
    requires step.Begin? ==> allowed(step.key, step.ty)
    ensures IsRun(cfg, INITIAL, steps') && Within(allowed, steps')
    ensures After(cfg, INITIAL, steps') == Next(cfg, After(cfg, INITIAL, steps), step)
  {
    steps' := steps + [step];
    AfterSnoc(cfg, INITIAL, steps, step);
  }

  lemma {:induction false} AfterSnoc(cfg: Config, s: State, steps: seq<Step>, step: Step)
    requires IsRun(cfg, s, steps) && Enabled(After(cfg, s, steps), step)
    ensures IsRun(cfg, s, steps + [step])
    ensures After(cfg, s, steps + [step]) == Next(cfg, After(cfg, s, steps), step)
    decreases |steps|
  {
    if steps == [] {
      assert steps + [step] == [step] && [step][1..] == [];
    } else {
      AfterSnoc(cfg, Next(cfg, s, steps[0]), steps[1..], step);
      assert (steps + [step])[1..] == steps[1..] + [step];
    }
  }

  /** Requests read each value once in every run exactly if no reading may be asked for at two types. */
  lemma OneReadingExactlyWithOneType(cfg: Config, allowed: Policy)
    ensures OneTypePerKey(allowed) <==>
            forall steps :: IsRun(cfg, INITIAL, steps) && Within(allowed, steps) ==>
              OneReading(After(cfg, INITIAL, steps).log)
  {
    if OneTypePerKey(allowed) {
      forall steps | IsRun(cfg, INITIAL, steps) && Within(allowed, steps)
        ensures OneReading(After(cfg, INITIAL, steps).log)
      {
        OneReadingPerRequest(cfg, allowed, steps);
      }
    } else {
      var key, ty, ty' :| allowed(key, ty) && allowed(key, ty') && ty != ty';
      var steps := TwoTypesFetchTwice(cfg, allowed, key, ty, ty');
      var log := After(cfg, INITIAL, steps).log;
      assert log[0].key == log[1].key && log[0].value != log[1].value;
    }
  }

  // ---------------------------------------------------------------------------------------------
  // Where a consumer gets its value
  // ---------------------------------------------------------------------------------------------

  /** The slot holds a value of the consumer's type. */
  predicate SlotServes(s: State, c: Call, v: Boxed) {
    HasSlot(s, c.scope, c.key) && SlotOf(s, c.scope, c.key).value == Some(v) && v.ty == c.ty
  }

  /** The request has the cache, and the cache has a reading that is young enough for the consumer's own coin. */
  ghost predicate CacheServes(cfg: Config, s: State, c: Call, now: nat, v: Boxed) {
    c.scope in s.scopes && s.scopes[c.scope].cached && Reusable(cfg, s.ops, c.key, c.asking, c.ty, now, v)
  }

  lemma CacheServesIs(cfg: Config, s: State, c: Call, now: nat, v: Boxed)
    requires CacheOk(cfg, s) && c.scope in s.scopes
    ensures CacheServes(cfg, s, c, now, v) <==>
            s.scopes[c.scope].cached && LookUp(cfg, s.readings, c.key, c.asking, c.ty, now) == Some(v)
  {
    LookUpExactly(cfg, s.ops, c.key, c.asking, c.ty, now, v);
  }

  /**
   A consumer whose turn it is takes the value of its request if there is one of its type; else the cached one
   if the cache has one for its coin, which then is the value of the request; and fetches only if neither has.
   */
  lemma TurnByCases(cfg: Config, s: State, call: CallId, now: nat, v: Boxed)
    requires CacheOk(cfg, s) && Enabled(s, Enter(call, now))
    ensures var c, s' := s.calls[call], Next(cfg, s, Enter(call, now));
            && s'.ops == s.ops && s'.readings == s.readings
            && (SlotServes(s, c, v) ==>
                  call !in s'.calls && s'.log == s.log + [Got(c.scope, c.key, v, FromSlot)] && s'.scopes == s.scopes)
            && ((forall w :: !SlotServes(s, c, w)) && CacheServes(cfg, s, c, now, v) ==>
                  && call !in s'.calls && SlotServes(s', c, v)
                  && s'.log == s.log + [Got(c.scope, c.key, v, FromCache(c.asking, now, |s.ops|))])
            && ((forall w :: !SlotServes(s, c, w)) && (forall w :: !CacheServes(cfg, s, c, now, w)) ==>
                  && call in s'.calls && s'.calls[call].fetching && s'.log == s.log
                  && HasSlot(s', c.scope, c.key) && SlotOf(s', c.scope, c.key).owner == Some(call))
  {
    var c := s.calls[call];
    var slot := SlotOf(s, c.scope, c.key);
    if slot.value.Some? && slot.value.value.ty == c.ty {
      assert SlotServes(s, c, slot.value.value);
    } else {
      CacheServesIs(cfg, s, c, now, v);
      var hit := LookUp(cfg, s.readings, c.key, c.asking, c.ty, now);
      if s.scopes[c.scope].cached && hit.Some? {
        CacheServesIs(cfg, s, c, now, hit.value);
      }
    }
  }

  /** What a consumer fetched becomes the value of its request and, if the request has the cache, is stored there. */
  lemma FetchIsKept(cfg: Config, s: State, call: CallId, contents: int, now: nat)
    requires Enabled(s, FetchOk(call, contents, now))
    ensures var c, s' := s.calls[call], Next(cfg, s, FetchOk(call, contents, now));
            var v := Boxed(c.ty, contents);
            && call !in s'.calls && SlotServes(s', c, v)
            && s'.log == s.log + [Got(c.scope, c.key, v, FromFetch)]
            && s'.ops == s.ops + if s.scopes[c.scope].cached then [Store(c.key, c.asking, v, now)] else []
  {
  }

  /** The first request with the cache fetches, since there is nothing in it, and stores what it got. */
  lemma FirstRequestStores(cfg: Config, allowed: Policy, key: Key, asking: string, v: Boxed, at: nat)
    returns (steps: seq<Step>)
    requires cfg.lifetimeOf(asking) != Fixed(0) && allowed(key, v.ty)
    ensures IsRun(cfg, INITIAL, steps) && Within(allowed, steps)
    ensures var s := After(cfg, INITIAL, steps);
            && s.log == [Got(0, key, v, FromFetch)] && s.calls == map[] && 1 !in s.scopes && |s.ops| == 1
            && s.readings == map[key := Reading(v, at, cfg.startSecsOf(key.coin))]
  {
    steps := PlayOn(cfg, allowed, [], Open(0, true));
    steps := PlayOn(cfg, allowed, steps, Begin(0, 0, key, asking, v.ty));
    steps := PlayOn(cfg, allowed, steps, Enter(0, at));
    steps := PlayOn(cfg, allowed, steps, FetchOk(0, v.contents, at));
  }

  /** What one request fetched and stored serves the next one while it is young enough, without another fetch. */
  lemma LaterRequestReuses(cfg: Config, allowed: Policy, key: Key, asking: string, n: nat, v: Boxed, at: nat, now: nat)
    returns (steps: seq<Step>)
    requires cfg.lifetimeOf(asking) == Fixed(n) && at <= now && now - at < Min(n * 1000, U64_MAX) && allowed(key, v.ty)
    ensures IsRun(cfg, INITIAL, steps) && Within(allowed, steps)
    ensures After(cfg, INITIAL, steps).log ==
            [Got(0, key, v, FromFetch), Got(1, key, v, FromCache(asking, now, 1))]
  {
    steps := FirstRequestStores(cfg, allowed, key, asking, v, at);
    steps := PlayOn(cfg, allowed, steps, Open(1, true));
    steps := PlayOn(cfg, allowed, steps, Begin(1, 1, key, asking, v.ty));
    steps := PlayOn(cfg, allowed, steps, Enter(1, now));
  }

  /** A removal is one more operation on the cache: nothing of the key, or of the coin, serves anybody after it. */
  lemma RemovalTakesEffect(cfg: Config, s: State, op: Op, c: Call, now: nat, v: Boxed)
    requires CacheOk(cfg, s) && Enabled(s, Remove(op))
    ensures var s' := Next(cfg, s, Remove(op));
            && s'.ops == s.ops + [op] && s'.scopes == s.scopes && s'.calls == s.calls && s'.log == s.log
            && (op == Discard(c.key) || op == Forget(c.key.coin) ==> !CacheServes(cfg, s', c, now, v))
  {
    var s' := Next(cfg, s, Remove(op));
    if CacheServes(cfg, s', c, now, v) {
      var i: nat :| LastStore(cfg, s'.ops, c.key, i);
      assert i < |s.ops| && s'.ops[|s.ops|] == op;
    }
  }

  /** A consumer that fails or is cancelled changes neither the cache nor the value of any slot. */
  lemma FailureIsNotRemembered(cfg: Config, s: State, step: Step)
    requires Enabled(s, step) && (step.FetchErr? || step.Cancel?)
    ensures var s' := Next(cfg, s, step);
            && s'.readings == s.readings && s'.ops == s.ops && s'.log == s.log
            && (forall scope, key :: HasSlot(s, scope, key) <==> HasSlot(s', scope, key))
            && (forall scope, key :: HasSlot(s, scope, key) ==>
                  SlotOf(s', scope, key).value == SlotOf(s, scope, key).value)
  {
  }

  // ---------------------------------------------------------------------------------------------
  // Nobody waits for nobody
  // ---------------------------------------------------------------------------------------------

  /** The lock of a slot is held by a consumer that is fetching for that slot. */
  ghost predicate OwnerOk(s: State, scope: ScopeId, key: Key)
    requires HasSlot(s, scope, key)
  {
    var owner := SlotOf(s, scope, key).owner;
    owner.Some? ==>
      && owner.value in s.calls && s.calls[owner.value].fetching
      && s.calls[owner.value].scope == scope && s.calls[owner.value].key == key
  }

  ghost predicate OwnersOk(s: State) {
    forall scope, key :: HasSlot(s, scope, key) ==> OwnerOk(s, scope, key)
  }

  lemma EnterKeepsOwners(cfg: Config, s: State, call: CallId, now: nat)
    requires OwnersOk(s) && Enabled(s, Enter(call, now))
    ensures OwnersOk(Entered(cfg, s, call, now))
  {
    var s' := Entered(cfg, s, call, now);
    forall scope, key | HasSlot(s', scope, key) ensures OwnerOk(s', scope, key) {
      assert HasSlot(s, scope, key) && OwnerOk(s, scope, key);
    }
  }

  lemma FetchKeepsOwners(cfg: Config, s: State, call: CallId, contents: int, now: nat)
    requires OwnersOk(s) && Ready(s, call) && s.calls[call].fetching
    ensures OwnersOk(Fetched(cfg, s, call, contents, now))
  {
    var s' := Fetched(cfg, s, call, contents, now);
    forall scope, key | HasSlot(s', scope, key) ensures OwnerOk(s', scope, key) {
      assert HasSlot(s, scope, key) && OwnerOk(s, scope, key);
    }
  }

  lemma GiveUpKeepsOwners(s: State, call: CallId)
    requires OwnersOk(s) && Ready(s, call)
    ensures OwnersOk(GivenUp(s, call))
  {
    var s' := GivenUp(s, call);
    forall scope, key | HasSlot(s', scope, key) ensures OwnerOk(s', scope, key) {
      assert HasSlot(s, scope, key) && OwnerOk(s, scope, key);
    }
  }

  lemma BeginKeepsOwners(cfg: Config, s: State, step: Step)
    requires OwnersOk(s) && Enabled(s, step) && (step.Begin? || step.Open?)
    ensures OwnersOk(Next(cfg, s, step))
  {
    var s' := Next(cfg, s, step);
    BeginExtends(cfg, s, step);
    forall scope, key | HasSlot(s', scope, key) ensures OwnerOk(s', scope, key) {
      if HasSlot(s, scope, key) {
        assert OwnerOk(s, scope, key);
      }
    }
  }

  lemma OperatedKeepsOwners(cfg: Config, s: State, op: Op)
    requires OwnersOk(s)
    ensures OwnersOk(Operated(cfg, s, op))
  {
    var s' := Operated(cfg, s, op);
    forall scope, key | HasSlot(s', scope, key) ensures OwnerOk(s', scope, key) {
      assert HasSlot(s, scope, key) && OwnerOk(s, scope, key);
    }
  }

  lemma NextKeepsOwners(cfg: Config, s: State, step: Step)
    requires OwnersOk(s) && Enabled(s, step)
    ensures OwnersOk(Next(cfg, s, step))
  {
    match step {
      case Open(_, _) => BeginKeepsOwners(cfg, s, step);
      case Begin(_, _, _, _, _) => BeginKeepsOwners(cfg, s, step);
      case Enter(call, now) => EnterKeepsOwners(cfg, s, call, now);
      case FetchOk(call, contents, now) => FetchKeepsOwners(cfg, s, call, contents, now);
      case FetchErr(call) => GiveUpKeepsOwners(s, call);
      case Cancel(call) => GiveUpKeepsOwners(s, call);
      case Remove(op) => OperatedKeepsOwners(cfg, s, op);
      case Outside(_) =>
    }
  }

  lemma {:induction false} RunKeepsOwners(cfg: Config, s: State, steps: seq<Step>)
    requires OwnersOk(s) && IsRun(cfg, s, steps)
    ensures OwnersOk(After(cfg, s, steps))
    decreases |steps|
  {
    if steps != [] {
      NextKeepsOwners(cfg, s, steps[0]);
      RunKeepsOwners(cfg, Next(cfg, s, steps[0]), steps[1..]);
    }
  }

  /** However the consumer `k` ends, the consumer `call` can take its turn next. */
  ghost predicate MakesWay(cfg: Config, s: State, k: CallId, call: CallId, now: nat) {
    && (forall contents, at :: Enabled(s, FetchOk(k, contents, at)) &&
          Enabled(Next(cfg, s, FetchOk(k, contents, at)), Enter(call, now)))
    && Enabled(s, FetchErr(k)) && Enabled(Next(cfg, s, FetchErr(k)), Enter(call, now))
    && Enabled(s, Cancel(k)) && Enabled(Next(cfg, s, Cancel(k)), Enter(call, now))
  }

  lemma OwnerMakesWay(cfg: Config, s: State, k: CallId, call: CallId, now: nat)
    requires Ready(s, k) && Ready(s, call) && s.calls[k].fetching && !s.calls[call].fetching
    requires s.calls[k].scope == s.calls[call].scope && s.calls[k].key == s.calls[call].key
    ensures MakesWay(cfg, s, k, call, now)
  {
  }

  /**
   After any run, a waiting consumer can take its turn, or it waits for one that is fetching and can take its
   turn as soon as that one has its value, has failed or is cancelled.
   */
  lemma NobodyIsStuck(cfg: Config, steps: seq<Step>, call: CallId, now: nat)
    requires IsRun(cfg, INITIAL, steps)
    requires var s := After(cfg, INITIAL, steps); call in s.calls && !s.calls[call].fetching
    ensures var s := After(cfg, INITIAL, steps);
            Enabled(s, Enter(call, now)) || exists k :: k in s.calls && MakesWay(cfg, s, k, call, now)
  {
    RunKeepsInv(cfg, None, INITIAL, steps);
    RunKeepsOwners(cfg, INITIAL, steps);
    var s := After(cfg, INITIAL, steps);
    var c := s.calls[call];
    assert CallOk(s, None, call) && OwnerOk(s, c.scope, c.key);
    var owner := SlotOf(s, c.scope, c.key).owner;
    if owner.Some? {
      OwnerMakesWay(cfg, s, owner.value, call, now);
    }
  }

  /** The value was taken from the cache within its lifetime, and stored after the reading was last removed. */
  ghost predicate TakenFresh(node: NodeConf, ops: seq<Op>, g: Got, stored: nat)
    requires g.origin.FromCache? && g.origin.seen <= |ops|
  {
    var FromCache(asking, now, seen) := g.origin;
    var lifetime := UsableSecs(ForNode(node), ops[..seen], g.key, asking);
    && stored < seen && ops[stored].Store? && ops[stored].key == g.key && ops[stored].value == g.value
    && ops[stored].now <= now < ops[stored].now + lifetime * 1000 && lifetime <= 600
    && forall f :: 0 <= f < seen && Removes(ops[f], g.key) ==> f < stored
  }

  lemma CacheValueIsFresh(node: NodeConf, s: State, g: Got) returns (stored: nat)
    requires g.scope in s.scopes && OriginOk(ForNode(node), s, g) && g.origin.FromCache?
    ensures TakenFresh(node, s.ops, g, stored)
  {
    var FromCache(asking, now, seen) := g.origin;
    var before := s.ops[..seen];
    stored := BoundedStaleness(node, before, g.key, asking, g.value.ty, now);
    assert before[stored] == s.ops[stored];
    forall f | 0 <= f < seen && Removes(s.ops[f], g.key) ensures f < stored {
      assert before[f] == s.ops[f];
    }
  }

  /**
   In a node: a value a consumer got was fetched by its own request, or its request took it from the cache
   when it was younger than the first asking coin's lifetime, which is at most 600 seconds, and it had been
   stored after every removal of that reading, in particular after any that preceded the request.
   */
  lemma ValuesAreFresh(node: NodeConf, steps: seq<Step>, i: nat) returns (first: nat, stored: nat)
    requires IsRun(ForNode(node), INITIAL, steps) && i < |After(ForNode(node), INITIAL, steps).log|
    ensures var s := After(ForNode(node), INITIAL, steps);
            && first < |s.log| && Fills(s.log[first], s.log[i].scope, s.log[i].key)
            && s.log[first].value == s.log[i].value
            && (s.log[first].origin.FromCache? ==>
                  && s.log[i].scope in s.scopes
                  && s.scopes[s.log[i].scope].openedAt <= s.log[first].origin.seen <= |s.ops|
                  && TakenFresh(node, s.ops, s.log[first], stored))
  {
    var cfg := ForNode(node);
    RunKeepsInv(cfg, None, INITIAL, steps);
    var s := After(cfg, INITIAL, steps);
    var g := s.log[i];
    assert GotOk(cfg, s, None, g);
    first :| 0 <= first < |s.log| && Fills(s.log[first], g.scope, g.key) && s.log[first].value == g.value;
    assert GotOk(cfg, s, None, s.log[first]);
    stored := 0;
    if s.log[first].origin.FromCache? {
      stored := CacheValueIsFresh(node, s, s.log[first]);
    }
  }
}
