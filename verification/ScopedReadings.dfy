/**
 Readings made by polled code and what they do to the requests and the cache: a reading made inside a
 request takes part in that request, and a reading made outside every request fetches on its own.
 */
module ScopedReadings {
  import opened Base
  import opened FeeCache
  import FeeScope
  import ScopeStack

  /** What a reading of the program asks for. */
  datatype Asked = Asked(key: Key, asking: string, ty: nat)

  type Program = nat -> Asked

  /** The step a reading takes, by the scope it sees. The reading's place in the trace names its consumer. */
  function StepOf(asks: Program, place: nat, seen: ScopeStack.Seen): FeeScope.Step {
    var a := asks(seen.id);
    if seen.scope.None? then FeeScope.Outside(0)
    else FeeScope.Begin(place, seen.scope.value, a.key, a.asking, a.ty)
  }

  /** Consumers begin only where the polled code makes a reading. Everything else may happen at any time. */
  ghost predicate Driven(asks: Program, trace: seq<ScopeStack.Seen>, steps: seq<FeeScope.Step>) {
    forall step :: step in steps && step.Begin? ==>
      step.call < |trace| && step == StepOf(asks, step.call, trace[step.call])
  }

  ghost predicate ReadIn(asks: Program, trace: seq<ScopeStack.Seen>, scope: FeeScope.ScopeId, a: Asked) {
    exists i :: 0 <= i < |trace| && trace[i].scope == Some(scope) && asks(trace[i].id) == a
  }

  ghost predicate StoredFor(asks: Program, trace: seq<ScopeStack.Seen>, op: Op) {
    op.Store? ==> exists scope :: ReadIn(asks, trace, scope, Asked(op.key, op.asking, op.value.ty))
  }

  /** Consumers, stored readings and values handed out all come from readings made inside a request. */
  ghost predicate Accounted(asks: Program, trace: seq<ScopeStack.Seen>, s: FeeScope.State) {
    && (forall call :: call in s.calls ==>
          var c := s.calls[call]; ReadIn(asks, trace, c.scope, Asked(c.key, c.asking, c.ty)))
    && (forall k :: 0 <= k < |s.ops| ==> StoredFor(asks, trace, s.ops[k]))
    && (forall g :: g in s.log ==> exists a: Asked :: a.key == g.key && ReadIn(asks, trace, g.scope, a))
  }

  lemma NextIsAccounted(cfg: Config, asks: Program, trace: seq<ScopeStack.Seen>, s: FeeScope.State, step: FeeScope.Step)
    requires Accounted(asks, trace, s) && FeeScope.Enabled(s, step) && Driven(asks, trace, [step])
    ensures Accounted(asks, trace, FeeScope.Next(cfg, s, step))
  {
  }

  lemma {:induction false} RunIsAccounted(cfg: Config, asks: Program, trace: seq<ScopeStack.Seen>, s: FeeScope.State,
                                          steps: seq<FeeScope.Step>)
    requires Accounted(asks, trace, s) && FeeScope.IsRun(cfg, s, steps) && Driven(asks, trace, steps)
    ensures Accounted(asks, trace, FeeScope.After(cfg, s, steps))
    decreases |steps|
  {
    if steps != [] {
      NextIsAccounted(cfg, asks, trace, s, steps[0]);
      RunIsAccounted(cfg, asks, trace, FeeScope.Next(cfg, s, steps[0]), steps[1..]);
    }
  }

  /**
   However polls and everything else interleave: a stored reading was asked for inside a request, and whoever
   got a value asked for it inside the very request that handed it out.
   */
  lemma OnlyRequestsTouchTheCache(cfg: Config, asks: Program, polls: seq<ScopeStack.Act>, steps: seq<FeeScope.Step>)
    requires FeeScope.IsRun(cfg, FeeScope.INITIAL, steps) && Driven(asks, ScopeStack.Flat(polls), steps)
    ensures Accounted(asks, ScopeStack.Flat(polls), FeeScope.After(cfg, FeeScope.INITIAL, steps))
  {
    RunIsAccounted(cfg, asks, ScopeStack.Flat(polls), FeeScope.INITIAL, steps);
  }

  // ---------------------------------------------------------------------------------------------
  // Code outside every request
  // ---------------------------------------------------------------------------------------------

  /** An act that neither carries a scope nor starts a request. */
  predicate Plain(a: ScopeStack.Act) {
    a.Read? || a.Panic?
  }

  lemma {:induction false} PlainSeesNoScope(polls: seq<ScopeStack.Act>)
    requires forall a :: a in polls ==> Plain(a)
    ensures forall i :: 0 <= i < |ScopeStack.Flat(polls)| ==> ScopeStack.Flat(polls)[i].scope == None
  {
    if polls != [] {
      assert Plain(polls[0]);
      PlainSeesNoScope(polls[1..]);
    }
  }

  lemma {:induction false} NothingStored(cfg: Config, ops: seq<Op>)
    requires forall k :: 0 <= k < |ops| ==> !ops[k].Store?
    ensures Run(cfg, ops) == map[]
  {
    if ops != [] {
      NothingStored(cfg, ops[..|ops| - 1]);
      assert !ops[|ops| - 1].Store?;
    }
  }

  /** Code outside every request, however often polled and whatever it reads, leaves the cache empty. */
  lemma PlainCodeNeverTouchesTheCache(cfg: Config, asks: Program, polls: seq<ScopeStack.Act>, steps: seq<FeeScope.Step>)
    requires FeeScope.IsRun(cfg, FeeScope.INITIAL, steps) && Driven(asks, ScopeStack.Flat(polls), steps)
    requires forall a :: a in polls ==> Plain(a)
    ensures var s := FeeScope.After(cfg, FeeScope.INITIAL, steps); s.readings == map[] && s.log == []
  {
    var s := FeeScope.After(cfg, FeeScope.INITIAL, steps);
    assert s.log == [] || s.log[0] in s.log;
    OnlyRequestsTouchTheCache(cfg, asks, polls, steps);
    PlainSeesNoScope(polls);
    forall k | 0 <= k < |s.ops| ensures !s.ops[k].Store? {
      assert StoredFor(asks, ScopeStack.Flat(polls), s.ops[k]);
    }
    FeeScope.RunKeepsInv(cfg, None, FeeScope.INITIAL, steps);
    NothingStored(cfg, s.ops);
  }

  function WithoutOutside(steps: seq<FeeScope.Step>): seq<FeeScope.Step> {
    if steps == [] then [] else (if steps[0].Outside? then [] else [steps[0]]) + WithoutOutside(steps[1..])
  }

  /** In any run, requests and cache are as if the readings made outside had never happened. */
  lemma {:induction false} OutsideReadingsChangeNothing(cfg: Config, s: FeeScope.State, steps: seq<FeeScope.Step>)
    requires FeeScope.IsRun(cfg, s, steps)
    ensures FeeScope.IsRun(cfg, s, WithoutOutside(steps))
    ensures FeeScope.After(cfg, s, WithoutOutside(steps)) == FeeScope.After(cfg, s, steps)
    decreases |steps|
  {
    if steps != [] {
      var rest := WithoutOutside(steps[1..]);
      OutsideReadingsChangeNothing(cfg, FeeScope.Next(cfg, s, steps[0]), steps[1..]);
      if steps[0].Outside? {
        assert WithoutOutside(steps) == rest;
      } else {
        assert WithoutOutside(steps) == [steps[0]] + rest && ([steps[0]] + rest)[1..] == rest;
      }
    }
  }
}
