/** Runs of the pool in which tasks are taken, and what the lock does not hold up. */
module PoolRuns {
  import opened TaskPool
  import opened PoolInterleaving

  /** A size check never waits, whoever has the lock; the lock is there for whoever asks when it is
      free; and who has it goes on. */
  lemma AdderGoesOn<T>(s: State<T>, i: nat, task: T)
    requires i < |s.adders|
    ensures s.adders[i] == Outside && task !in s.queue
            && (forall k :: 0 <= k < |s.adders| ==> s.adders[k] != Passed(task) && s.adders[k] != Entered(task))
            ==> Enabled(s, Check(i, task))
    ensures s.adders[i].Passed? && s.lock == Nobody ==> Enabled(s, Lock(i))
    ensures s.adders[i].Entered? ==> Enabled(s, Link(i))
    ensures s.adders[i].Linked? ==> Enabled(s, Count(i))
    ensures s.adders[i].Counted? ==> Enabled(s, Unlock(i))
  {
  }

  lemma WorkerGoesOn<T>(s: State<T>, j: nat)
    requires j < |s.workers|
    ensures s.workers[j].Waiting? && s.lock == Nobody ==> Enabled(s, WorkerLock(j))
    ensures s.workers[j].Inside? ==> Enabled(s, WorkerUnlock(j))
    ensures s.workers[j].Inside? && s.queue != [] ==> Enabled(s, Pop(j))
    ensures s.workers[j].Popped? ==> Enabled(s, CountOff(j))
  {
  }

  /** A worker takes one task. */
  function Taking<T>(j: nat): seq<Step<T>> {
    [WorkerLock(j), Pop(j), CountOff(j), WorkerUnlock(j)]
  }

  lemma TakeOne<T>(s: State<T>, j: nat)
    requires s.lock.Nobody? && j < |s.workers| && s.workers[j].Waiting? && s.queue != []
    ensures Run(s, Taking(j))
    ensures After(s, Taking(j))
            == s.(queue := s.queue[1..], size := s.size - 1, taken := s.taken + [s.queue[0]])
  {
    var s2 := Apply(Apply(s, WorkerLock(j)), Pop(j));
    TwoSteps(s, WorkerLock(j), Pop(j));
    TwoSteps(s2, CountOff(j), WorkerUnlock(j));
    RunConcat(s, [WorkerLock(j), Pop(j)], [CountOff(j), WorkerUnlock(j)]);
    assert [WorkerLock(j), Pop(j)] + [CountOff(j), WorkerUnlock(j)] == Taking<T>(j);
    assert After(s, Taking(j)).workers == s.workers;
  }

  lemma TwoSteps<T>(s: State<T>, a: Step<T>, b: Step<T>)
    requires Enabled(s, a) && Enabled(Apply(s, a), b)
    ensures Run(s, [a, b]) && After(s, [a, b]) == Apply(Apply(s, a), b)
  {
    assert [a, b][1..] == [b] && [b][1..] == [];
    assert Run(Apply(Apply(s, a), b), []) && Run(Apply(s, a), [b]);
    assert After(Apply(s, a), [b]) == Apply(Apply(s, a), b);
  }

  /** A worker takes everything there is, in order. */
  lemma {:induction false} TakeAll<T>(s: State<T>, j: nat) returns (steps: seq<Step<T>>)
    requires s.lock.Nobody? && j < |s.workers| && s.workers[j].Waiting?
    ensures Run(s, steps)
    ensures After(s, steps) == s.(queue := [], size := s.size - |s.queue|, taken := s.taken + s.queue)
    decreases |s.queue|
  {
    steps := [];
    if s.queue == [] {
      assert s.taken + s.queue == s.taken;
    } else {
      TakeOne(s, j);
      var rest := TakeAll(After(s, Taking(j)), j);
      RunConcat(s, Taking(j), rest);
      steps := Taking(j) + rest;
      assert (s.taken + [s.queue[0]]) + s.queue[1..] == s.taken + s.queue;
    }
  }

  lemma {:induction false} WorkersStay(s: State<nat>, steps: seq<Step<nat>>)
    requires Run(s, steps)
    ensures |After(s, steps).workers| == |s.workers|
    decreases |steps|
  {
    if steps == [] {
    } else {
      WorkersStay(Apply(s, steps[0]), steps[1..]);
    }
  }

  /** Nobody is under way, the queue is empty, and count different tasks went through it. */
  ghost predicate Drained(s: State<nat>, count: nat) {
    && s.lock.Nobody? && s.queue == [] && s.size == 0 && |s.taken| == count && s.taken == s.arrived
    && forall i, j :: 0 <= i < j < count ==> s.taken[i] != s.taken[j]
  }

  /** For every number of adders, a run that overfills the queue and then empties it. */
  lemma FilledAndDrained(n: nat, m: nat)
    requires n > 0 && m > 0
    ensures exists steps :: Run(Init(n, m), steps) && Drained(After(Init(n, m), steps), 200 + n)
  {
    var fill := BoundRun(n, m);
    PoolSafety(n, m, fill);
    var s := After(Init(n, m), fill);
    WorkersStay(Init(n, m), fill);
    InitInvariant<nat>(n, m);
    RunInvariant(Init(n, m), fill);
    var drain := TakeAll(s, 0);
    RunConcat(Init(n, m), fill, drain);
    assert Drained(After(Init(n, m), fill + drain), 200 + n);
  }
}
