/** The pool of thread_ex.c takes the steps of the interleaving. */
module PoolRefinement {
  import opened TaskPool
  import opened PoolInterleaving

  /** The tasks that have passed the check and are not in the chain yet. */
  ghost function Carried(s: State<Task>): set<Task> {
    set k | 0 <= k < |s.adders| && (s.adders[k].Passed? || s.adders[k].Entered?) :: s.adders[k].task
  }

  /** The chain and the count of the pool are those of the state, and what is on its way to the
      chain has no successor. */
  ghost predicate Matches(pool: Pool, s: State<Task>)
    reads pool, pool.Queue, Carried(s)
  {
    && pool.Chain() && pool.Queue == s.queue && pool.curQueueSize == s.size
    && forall k :: 0 <= k < |s.adders| && (s.adders[k].Passed? || s.adders[k].Entered?) ==>
         s.adders[k].task.next == null
  }

  /** One step of a thread, run on the pool: chain and count are those of the outcome. adder is the
      one that takes the step, when it is not a worker's. refused tells how the size check went. */
  method Perform(pool: Pool, ghost s: State<Task>, step: Step<Task>, adder: Adder<Task>) returns (refused: bool)
    requires Invariant(s) && Matches(pool, s) && Enabled(s, step)
    requires step.Check? ==> step.task.next == null
    requires step.Link? ==> adder == s.adders[step.i]
    modifies pool, pool.Queue
    ensures Matches(pool, Apply(s, step))
    ensures step.Check? ==> (refused <==> Apply(s, step) == s)
  {
    refused := false;
    match step {
      case Check(i, task) =>
        refused := pool.Full();
        assert Apply(s, step) != s ==> Apply(s, step).adders[i] == Passed(task);
      case Link(_) =>
        pool.Link(adder.task);
      case Count(_) =>
        pool.Count();
      case Pop(_) =>
        var _ := pool.Pop();
      case CountOff(_) =>
        pool.CountOff();
      case _ =>
    }
  }
}
