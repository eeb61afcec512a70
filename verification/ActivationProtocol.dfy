/**
 The per-ticker activation locks as a protocol: tasks look a mutex up in a registry of weak references,
 wait for it, hold it, and let go of what they hold when they finish or are cancelled, in any interleaving.
 */
module ActivationProtocol {
  import opened Base
  import opened ByteOrder

  type Ticker = Bytes
  type MutexId = nat
  type TaskId = nat

  /** `held[i]` is the mutex of `want[i]`; while `waiting`, the task has a handle on the mutex of the next one. */
  datatype Task = Task(want: seq<Ticker>, held: seq<MutexId>, waiting: Option<MutexId>, dropping: bool)

  datatype State = State(registry: map<Ticker, MutexId>, tasks: map<TaskId, Task>, nextMutex: MutexId)

  const INITIAL := State(map[], map[], 0)

  /** The task keeps the mutex alive: it holds it or waits for it. */
  predicate HasHandle(t: Task, m: MutexId) {
    m in t.held || t.waiting == Some(m)
  }

  predicate Live(tasks: map<TaskId, Task>, m: MutexId) {
    exists id :: id in tasks && HasHandle(tasks[id], m)
  }

  predicate Locked(tasks: map<TaskId, Task>, m: MutexId) {
    exists id :: id in tasks && m in tasks[id].held
  }

  function Swept(s: State): map<Ticker, MutexId> {
    map t | t in s.registry && Live(s.tasks, s.registry[t]) :: s.registry[t]
  }

  // ---------------------------------------------------------------------------------------------
  // Steps
  // ---------------------------------------------------------------------------------------------

  datatype Step =
    | Start(id: TaskId, tickers: seq<Ticker>)
    | LookUp(id: TaskId)
    | Acquire(id: TaskId)
    | Drop(id: TaskId)      // the guard is dropped, or the task fails or is cancelled at any point
    | Release(id: TaskId)   // one of the mutexes held is released
    | Gone(id: TaskId)

  predicate Complete(t: Task) {
    |t.held| == |t.want| && t.waiting.None? && !t.dropping
  }

  predicate Enabled(s: State, step: Step) {
    match step
    case Start(id, _) => id !in s.tasks
    case LookUp(id) =>
      id in s.tasks && var t := s.tasks[id]; !t.dropping && t.waiting.None? && |t.held| < |t.want|
    case Acquire(id) =>
      id in s.tasks && s.tasks[id].waiting.Some? && !Locked(s.tasks, s.tasks[id].waiting.value)
    case Drop(id) => id in s.tasks && !s.tasks[id].dropping && |s.tasks[id].held| <= |s.tasks[id].want|
    case Release(id) => id in s.tasks && s.tasks[id].dropping && s.tasks[id].held != [] && s.tasks[id].want != []
    case Gone(id) => id in s.tasks && s.tasks[id].dropping && s.tasks[id].held == []
  }

  function Apply(s: State, step: Step): State
    requires Enabled(s, step)
  {
    match step
    case Start(id, tickers) => s.(tasks := s.tasks[id := Task(SortedUnique(tickers), [], None, false)])
    case LookUp(id) =>
      var t := s.tasks[id];
      var ticker := t.want[|t.held|];
      var swept := Swept(s);
      if ticker in swept then State(swept, s.tasks[id := t.(waiting := Some(swept[ticker]))], s.nextMutex)
      else State(swept[ticker := s.nextMutex], s.tasks[id := t.(waiting := Some(s.nextMutex))], s.nextMutex + 1)
    case Acquire(id) =>
      var t := s.tasks[id];
      s.(tasks := s.tasks[id := t.(held := t.held + [t.waiting.value], waiting := None)])
    case Drop(id) =>
      var t := s.tasks[id];
      s.(tasks := s.tasks[id := Task(t.want[..|t.held|], t.held, None, true)])
    case Release(id) =>
      var t := s.tasks[id];
      s.(tasks := s.tasks[id := t.(want := t.want[1..], held := t.held[1..])])
    case Gone(id) => s.(tasks := s.tasks - {id})
  }

  ghost predicate IsRun(s: State, steps: seq<Step>)
    decreases |steps|
  {
    steps == [] || (Enabled(s, steps[0]) && IsRun(Apply(s, steps[0]), steps[1..]))
  }

  ghost function After(s: State, steps: seq<Step>): State
    requires IsRun(s, steps)
    decreases |steps|
  {
    if steps == [] then s else After(Apply(s, steps[0]), steps[1..])
  }

  // ---------------------------------------------------------------------------------------------
  // The invariant
  // ---------------------------------------------------------------------------------------------

  ghost predicate TaskOk(registry: map<Ticker, MutexId>, t: Task) {
    && Ascending(t.want)
    && |t.held| <= |t.want|
    && (t.waiting.Some? ==> !t.dropping && |t.held| < |t.want|)
    && (forall i :: 0 <= i < |t.held| ==> t.want[i] in registry && registry[t.want[i]] == t.held[i])
    && (t.waiting.Some? ==> var next := t.want[|t.held|]; next in registry && registry[next] == t.waiting.value)
  }

  ghost predicate RegistryOk(s: State) {
    && (forall t :: t in s.registry ==> s.registry[t] < s.nextMutex)
    && (forall t, u :: t in s.registry && u in s.registry && s.registry[t] == s.registry[u] ==> t == u)
  }

  /** No mutex is held by two tasks. */
  ghost predicate Exclusive(tasks: map<TaskId, Task>) {
    forall a, b, m :: a in tasks && b in tasks && m in tasks[a].held && m in tasks[b].held ==> a == b
  }

  ghost predicate Inv(s: State) {
    && RegistryOk(s)
    && Exclusive(s.tasks)
    && forall id :: id in s.tasks ==> TaskOk(s.registry, s.tasks[id])
  }

  /** Sweeping keeps every entry somebody has a handle for. */
  lemma SweepKeepsTask(s: State, id: TaskId)
    requires Inv(s) && id in s.tasks
    ensures TaskOk(Swept(s), s.tasks[id])
  {
  }

  lemma NewEntryKeepsTask(registry: map<Ticker, MutexId>, t: Task, ticker: Ticker, m: MutexId)
    requires TaskOk(registry, t) && ticker !in registry
    ensures TaskOk(registry[ticker := m], t)
  {
  }

  lemma LookUpKeepsInv(s: State, id: TaskId)
    requires Inv(s) && Enabled(s, LookUp(id))
    ensures Inv(Apply(s, LookUp(id)))
  {
    var s' := Apply(s, LookUp(id));
    var ticker := s.tasks[id].want[|s.tasks[id].held|];
    forall o | o in s.tasks ensures TaskOk(s'.registry, s.tasks[o]) {
      SweepKeepsTask(s, o);
      if ticker !in Swept(s) {
        NewEntryKeepsTask(Swept(s), s.tasks[o], ticker, s.nextMutex);
      }
    }
    assert s'.tasks[id].held == s.tasks[id].held;
  }

  lemma AcquireKeepsInv(s: State, id: TaskId)
    requires Inv(s) && Enabled(s, Acquire(id))
    ensures Inv(Apply(s, Acquire(id)))
  {
  }

  lemma DropKeepsInv(s: State, step: Step)
    requires Inv(s) && Enabled(s, step) && (step.Drop? || step.Release? || step.Gone?)
    ensures Inv(Apply(s, step))
  {
  }

  lemma StepKeepsInv(s: State, step: Step)
    requires Inv(s) && Enabled(s, step)
    ensures Inv(Apply(s, step))
  {
    match step {
      case Start(_, _) =>
      case LookUp(id) => LookUpKeepsInv(s, id);
      case Acquire(id) => AcquireKeepsInv(s, id);
      case _ => DropKeepsInv(s, step);
    }
  }

  lemma {:induction false} RunKeepsInv(s: State, steps: seq<Step>)
    requires Inv(s) && IsRun(s, steps)
    ensures Inv(After(s, steps))
    decreases |steps|
  {
    if steps != [] {
      StepKeepsInv(s, steps[0]);
      RunKeepsInv(Apply(s, steps[0]), steps[1..]);
    }
  }

  // ---------------------------------------------------------------------------------------------
  // Mutual exclusion
  // ---------------------------------------------------------------------------------------------

  predicate Holds(s: State, id: TaskId, ticker: Ticker) {
    id in s.tasks && exists i :: 0 <= i < |s.tasks[id].held| && i < |s.tasks[id].want| && s.tasks[id].want[i] == ticker
  }

  /** After any run, no two tasks hold the lock of one ticker. */
  lemma MutualExclusion(steps: seq<Step>, a: TaskId, b: TaskId, ticker: Ticker)
    requires IsRun(INITIAL, steps)
    requires var s := After(INITIAL, steps); Holds(s, a, ticker) && Holds(s, b, ticker)
    ensures a == b
  {
    RunKeepsInv(INITIAL, steps);
    var s := After(INITIAL, steps);
    var i :| 0 <= i < |s.tasks[a].held| && s.tasks[a].want[i] == ticker;
    var j :| 0 <= j < |s.tasks[b].held| && s.tasks[b].want[j] == ticker;
    assert s.tasks[a].held[i] in s.tasks[b].held;
  }

  // ---------------------------------------------------------------------------------------------
  // What a guard covers
  // ---------------------------------------------------------------------------------------------

  /** The task wants nothing but `tickers` and, until it lets go, all of them. */
  ghost predicate AskedFor(s: State, id: TaskId, tickers: seq<Ticker>) {
    id in s.tasks ==>
      && (forall t :: t in s.tasks[id].want ==> t in tickers)
      && (!s.tasks[id].dropping ==> forall t :: t in tickers ==> t in s.tasks[id].want)
  }

  predicate Starts(step: Step, id: TaskId) {
    step.Start? && step.id == id
  }

  lemma {:induction false} RunKeepsAskedFor(s: State, steps: seq<Step>, id: TaskId, tickers: seq<Ticker>)
    requires IsRun(s, steps) && AskedFor(s, id, tickers) && forall step :: step in steps ==> !Starts(step, id)
    ensures AskedFor(After(s, steps), id, tickers)
    decreases |steps|
  {
    if steps != [] {
      assert !Starts(steps[0], id);
      assert AskedFor(Apply(s, steps[0]), id, tickers);
      RunKeepsAskedFor(Apply(s, steps[0]), steps[1..], id, tickers);
    }
  }

  lemma StartAsksFor(s: State, id: TaskId, tickers: seq<Ticker>)
    requires Enabled(s, Start(id, tickers))
    ensures AskedFor(Apply(s, Start(id, tickers)), id, tickers)
  {
    forall t ensures t in SortedUnique(tickers) <==> t in tickers {
      assert t in Elements(SortedUnique(tickers)) <==> t in Elements(tickers);
    }
  }

  /**
   Whatever happened before and since: the task that asked for `tickers` holds none but their locks, and once it
   has its guard it holds exactly their locks.
   */
  lemma GuardCoversItsTickers(before: seq<Step>, id: TaskId, tickers: seq<Ticker>, since: seq<Step>, t: Ticker)
    requires IsRun(INITIAL, before) && Enabled(After(INITIAL, before), Start(id, tickers))
    requires IsRun(Apply(After(INITIAL, before), Start(id, tickers)), since)
    requires forall step :: step in since ==> !Starts(step, id)
    ensures var s := After(Apply(After(INITIAL, before), Start(id, tickers)), since);
            && (Holds(s, id, t) ==> t in tickers)
            && (id in s.tasks && Complete(s.tasks[id]) ==> (Holds(s, id, t) <==> t in tickers))
  {
    var started := Apply(After(INITIAL, before), Start(id, tickers));
    var s := After(started, since);
    StartAsksFor(After(INITIAL, before), id, tickers);
    RunKeepsAskedFor(started, since, id, tickers);
  }

  /** A handle on the lock of a ticker: held, or waited for. */
  ghost predicate HandleFor(t: Task, ticker: Ticker, m: MutexId) {
    || (exists i :: 0 <= i < |t.held| && i < |t.want| && t.want[i] == ticker && t.held[i] == m)
    || (t.waiting == Some(m) && |t.held| < |t.want| && t.want[|t.held|] == ticker)
  }

  /** After any run, all handles on the lock of a ticker are handles on one mutex: the registered one. */
  lemma HandlesAgree(steps: seq<Step>, a: TaskId, ticker: Ticker, m: MutexId)
    requires IsRun(INITIAL, steps)
    requires var s := After(INITIAL, steps); a in s.tasks && HandleFor(s.tasks[a], ticker, m)
    ensures var s := After(INITIAL, steps); ticker in s.registry && s.registry[ticker] == m
  {
    RunKeepsInv(INITIAL, steps);
    assert TaskOk(After(INITIAL, steps).registry, After(INITIAL, steps).tasks[a]);
  }

  /** A lookup leaves only entries somebody has a handle for, and gives the task a handle of its own. */
  lemma LookUpLeavesNoDeadEntry(s: State, id: TaskId)
    requires Inv(s) && Enabled(s, LookUp(id))
    ensures var s' := Apply(s, LookUp(id));
            && (forall t :: t in s'.registry ==> Live(s'.tasks, s'.registry[t]))
            && HandleFor(s'.tasks[id], s.tasks[id].want[|s.tasks[id].held|], s'.tasks[id].waiting.value)
  {
    var s' := Apply(s, LookUp(id));
    forall t | t in s'.registry ensures Live(s'.tasks, s'.registry[t]) {
      var m := s'.registry[t];
      if Live(s.tasks, m) {
        var o :| o in s.tasks && HasHandle(s.tasks[o], m);
        assert HasHandle(s'.tasks[o], m);
      } else {
        assert HasHandle(s'.tasks[id], m);
      }
    }
  }

  // ---------------------------------------------------------------------------------------------
  // Deadlock freedom
  // ---------------------------------------------------------------------------------------------

  /** `a` waits for a mutex that `b` holds. */
  predicate WaitsFor(s: State, a: TaskId, b: TaskId) {
    && a in s.tasks && b in s.tasks && s.tasks[a].waiting.Some?
    && s.tasks[a].waiting.value in s.tasks[b].held
  }

  ghost function Next(t: Task): Ticker {
    if |t.held| < |t.want| then t.want[|t.held|] else []
  }

  /** Who is waited for waits, if at all, for a later ticker: tasks never wait for each other in a circle. */
  lemma WaitsAscend(s: State, a: TaskId, b: TaskId)
    requires Inv(s) && WaitsFor(s, a, b) && s.tasks[b].waiting.Some?
    ensures Less(Next(s.tasks[a]), Next(s.tasks[b]))
    ensures Holds(s, b, Next(s.tasks[a]))
  {
  }

  lemma LastInOrder(s: State, w: set<TaskId>) returns (a: TaskId)
    requires w != {} && w <= s.tasks.Keys
    ensures a in w && forall b :: b in w ==> !Less(Next(s.tasks[a]), Next(s.tasks[b]))
  {
    a :| a in w;
    var x := Next(s.tasks[a]);
    if Less(x, x) {
      LessAsymmetric(x, x);
    }
    if w != {a} {
      var c := LastInOrder(s, w - {a});
      var y := Next(s.tasks[c]);
      if Less(x, y) {
        LessAsymmetric(x, y);
        a := c;
      } else {
        forall b | b in w && b != a ensures !Less(x, Next(s.tasks[b])) {
          var z := Next(s.tasks[b]);
          if Less(x, z) {
            LessTotal(x, y);
            if Less(y, x) {
              LessTransitive(y, x, z);
            }
          }
        }
      }
    }
  }

  /** No set of tasks waits on one another, however many of them there are. */
  lemma NoDeadlock(steps: seq<Step>, w: set<TaskId>)
    requires IsRun(INITIAL, steps) && w != {}
    ensures exists a :: a in w && forall b :: b in w ==> !WaitsFor(After(INITIAL, steps), a, b)
  {
    RunKeepsInv(INITIAL, steps);
    NobodyBlocksTheLast(After(INITIAL, steps), w);
  }

  lemma NobodyBlocksTheLast(s: State, w: set<TaskId>)
    requires Inv(s) && w != {}
    ensures exists a :: a in w && forall b :: b in w ==> !WaitsFor(s, a, b)
  {
    var blocked := set a | a in w && a in s.tasks && s.tasks[a].waiting.Some?;
    if blocked == {} {
      var a :| a in w;
      assert forall b :: b in w ==> !WaitsFor(s, a, b) by {
        assert a !in blocked;
      }
    } else {
      var a := LastInOrder(s, blocked);
      if forall b :: b in w ==> !WaitsFor(s, a, b) {
      } else {
        var b :| b in w && WaitsFor(s, a, b);
        if b in blocked {
          WaitsAscend(s, a, b);
          assert false;
        }
        assert forall c :: c in w ==> !WaitsFor(s, b, c);
      }
    }
  }

  /** A step that brings the tasks there are closer to their end; nobody is cancelled and nobody starts. */
  predicate Advances(s: State, step: Step) {
    && Enabled(s, step)
    && !step.Start?
    && (step.Drop? ==> Complete(s.tasks[step.id]))
  }

  lemma SomebodyAdvances(s: State) returns (step: Step)
    requires Inv(s) && s.tasks != map[]
    ensures Advances(s, step)
  {
    NobodyBlocksTheLast(s, s.tasks.Keys);
    var a :| a in s.tasks.Keys && forall b :: b in s.tasks.Keys ==> !WaitsFor(s, a, b);
    var t := s.tasks[a];
    assert TaskOk(s.registry, t);
    if t.dropping {
      step := if t.held == [] then Gone(a) else Release(a);
    } else if t.waiting.Some? {
      step := Acquire(a);
      assert !Locked(s.tasks, t.waiting.value) by {
        if b :| b in s.tasks && t.waiting.value in s.tasks[b].held {
          assert WaitsFor(s, a, b);
        }
      }
    } else {
      step := if |t.held| < |t.want| then LookUp(a) else Drop(a);
    }
  }

  /** What a task has left to do. */
  function Cost(t: Task): nat {
    var missing := SatSub(|t.want|, |t.held|);
    (if missing == 0 then 0 else 3 * missing - if t.waiting.Some? then 1 else 0)
    + |t.held| + if t.dropping then 1 else 2
  }

  ghost function Remaining(tasks: map<TaskId, Task>): nat
    decreases |tasks|
  {
    if tasks == map[] then 0
    else
      var id :| id in tasks;
      assert |(tasks - {id}).Keys| < |tasks.Keys| by { assert (tasks - {id}).Keys == tasks.Keys - {id}; }
      Cost(tasks[id]) + Remaining(tasks - {id})
  }

  lemma {:induction false} RemainingSplits(tasks: map<TaskId, Task>, id: TaskId)
    requires id in tasks
    ensures Remaining(tasks) == Cost(tasks[id]) + Remaining(tasks - {id})
    decreases |tasks|
  {
    var x :| x in tasks && Remaining(tasks) == Cost(tasks[x]) + Remaining(tasks - {x});
    if x != id {
      assert |(tasks - {x}).Keys| < |tasks.Keys| by { assert (tasks - {x}).Keys == tasks.Keys - {x}; }
      assert |(tasks - {id}).Keys| < |tasks.Keys| by { assert (tasks - {id}).Keys == tasks.Keys - {id}; }
      RemainingSplits(tasks - {x}, id);
      RemainingSplits(tasks - {id}, x);
      assert tasks - {x} - {id} == tasks - {id} - {x};
    }
  }

  lemma AdvanceShrinks(s: State, step: Step)
    requires Inv(s) && Advances(s, step)
    ensures Remaining(Apply(s, step).tasks) < Remaining(s.tasks)
  {
    var s' := Apply(s, step);
    assert TaskOk(s.registry, s.tasks[step.id]);
    RemainingSplits(s.tasks, step.id);
    if !step.Gone? {
      RemainingSplits(s'.tasks, step.id);
      assert s'.tasks - {step.id} == s.tasks - {step.id};
    }
  }

  ghost predicate OnlyAdvances(s: State, steps: seq<Step>)
    requires IsRun(s, steps)
    decreases |steps|
  {
    steps == [] || (Advances(s, steps[0]) && OnlyAdvances(Apply(s, steps[0]), steps[1..]))
  }

  /** Every task there is can still get all its locks and release them, without any of them being cancelled. */
  lemma {:induction false} EverybodyCanFinish(s: State) returns (steps: seq<Step>)
    requires Inv(s)
    ensures IsRun(s, steps) && OnlyAdvances(s, steps) && After(s, steps).tasks == map[]
    decreases Remaining(s.tasks)
  {
    if s.tasks == map[] {
      steps := [];
    } else {
      var step := SomebodyAdvances(s);
      AdvanceShrinks(s, step);
      StepKeepsInv(s, step);
      var rest := EverybodyCanFinish(Apply(s, step));
      steps := [step] + rest;
      assert steps[1..] == rest;
    }
  }

  /** Whatever has happened, no task is doomed: after any run, everybody there is can still finish. */
  lemma AfterAnyRunEverybodyCanFinish(steps: seq<Step>) returns (more: seq<Step>)
    requires IsRun(INITIAL, steps)
    ensures var s := After(INITIAL, steps);
            IsRun(s, more) && OnlyAdvances(s, more) && After(s, more).tasks == map[]
  {
    RunKeepsInv(INITIAL, steps);
    more := EverybodyCanFinish(After(INITIAL, steps));
  }
}
