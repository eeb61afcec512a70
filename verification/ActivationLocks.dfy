/** The registry of activation locks as the program keeps it, one method for each atomic step of the protocol. */
module ActivationLocks {
  import opened Base
  import opened ByteOrder
  import opened ActivationProtocol

  class Locks {
    var byTicker: map<Ticker, MutexId>
    var tasks: map<TaskId, Task>
    var nextMutex: MutexId

    function AsState(): State
      reads this
    {
      State(byTicker, tasks, nextMutex)
    }

    constructor ()
      ensures AsState() == INITIAL
    {
      byTicker, tasks, nextMutex := map[], map[], 0;
    }

    /** Drops the entries nobody has a handle for. */
    method Sweep()
      modifies this`byTicker
      ensures byTicker == Swept(old(AsState()))
    {
      var todo := byTicker.Keys;
      while todo != {}
        invariant todo <= old(byTicker).Keys
        invariant forall t :: t in old(byTicker) ==> (t in byTicker <==> t in todo || Live(tasks, old(byTicker)[t]))
        invariant forall t :: t in byTicker ==> t in old(byTicker) && byTicker[t] == old(byTicker)[t]
        decreases |todo|
      {
        var t :| t in todo;
        todo := todo - {t};
        if !Live(tasks, byTicker[t]) {
          byTicker := byTicker - {t};
        }
      }
    }

    /** The task `id` asks for the locks of `tickers`, each once and in ascending order. */
    method Begin(id: TaskId, tickers: seq<Ticker>)
      requires Enabled(AsState(), Start(id, tickers)) && Inv(AsState())
      modifies this`tasks
      ensures Inv(AsState()) && AsState() == Apply(old(AsState()), Start(id, tickers))
      ensures Ascending(tasks[id].want) && Elements(tasks[id].want) == Elements(tickers) && tasks[id].held == []
    {
      StepKeepsInv(AsState(), Start(id, tickers));
      tasks := tasks[id := Task(SortedUnique(tickers), [], None, false)];
    }

    /** The lock of the next ticker of the task `id`: the registered one if it is alive, else a new one. */
    method LockFor(id: TaskId) returns (lock: MutexId)
      requires Enabled(AsState(), LookUp(id)) && Inv(AsState())
      modifies this
      ensures Inv(AsState()) && AsState() == Apply(old(AsState()), LookUp(id))
      ensures tasks[id].waiting == Some(lock)
      ensures forall t :: t in byTicker ==> Live(tasks, byTicker[t])
    {
      StepKeepsInv(AsState(), LookUp(id));
      LookUpLeavesNoDeadEntry(AsState(), id);
      var ticker := tasks[id].want[|tasks[id].held|];
      Sweep();
      if ticker in byTicker {
        lock := byTicker[ticker];
      } else {
        lock := nextMutex;
        nextMutex := nextMutex + 1;
        byTicker := byTicker[ticker := lock];
      }
      tasks := tasks[id := tasks[id].(waiting := Some(lock))];
    }

    /** The wait of the task `id` ends if nobody holds the lock. */
    method TryAcquire(id: TaskId) returns (acquired: bool)
      requires id in tasks && tasks[id].waiting.Some? && Inv(AsState())
      modifies this`tasks
      ensures Inv(AsState())
      ensures acquired == Enabled(old(AsState()), ActivationProtocol.Acquire(id))
      ensures AsState() == if acquired then Apply(old(AsState()), ActivationProtocol.Acquire(id)) else old(AsState())
    {
      acquired := !Locked(tasks, tasks[id].waiting.value);
      if acquired {
        StepKeepsInv(AsState(), ActivationProtocol.Acquire(id));
        var t := tasks[id];
        tasks := tasks[id := t.(held := t.held + [t.waiting.value], waiting := None)];
      }
    }

    /** Everything the task `id` holds or waits for is let go of, one lock after the other. */
    method DropTask(id: TaskId)
      requires id in tasks && !tasks[id].dropping && Inv(AsState())
      modifies this`tasks
      ensures Inv(AsState()) && tasks == old(tasks) - {id}
    {
      assert TaskOk(byTicker, tasks[id]);
      StepKeepsInv(AsState(), Drop(id));
      tasks := tasks[id := Task(tasks[id].want[..|tasks[id].held|], tasks[id].held, None, true)];
      while tasks[id].held != []
        invariant id in tasks && tasks[id].dropping && Inv(AsState())
        invariant tasks - {id} == old(tasks) - {id}
        decreases |tasks[id].held|
      {
        assert TaskOk(byTicker, tasks[id]);
        StepKeepsInv(AsState(), Release(id));
        tasks := tasks[id := tasks[id].(want := tasks[id].want[1..], held := tasks[id].held[1..])];
      }
      StepKeepsInv(AsState(), Gone(id));
      tasks := tasks - {id};
    }
  }
}
