/** Any number of threads in ms_pool_add_task, and workers that take the head of the queue and
    count it off under the lock. The size is compared with the maximum before the lock is taken. */
module PoolInterleaving {
  import opened TaskPool

  /** Where an adder stands in ms_pool_add_task. */
  datatype Adder<T> =
    | Outside
    | Passed(task: T)     // the size check let it through
    | Entered(task: T)    // holds the lock
    | Linked(task: T)     // holds the lock; the task is in the chain but not counted
    | Counted             // holds the lock; all that is left is to give it back

  /** Where a worker stands. The workers are not in this repository: all that is assumed is that
      they touch the queue under the lock, and count off what they take before they give it back. */
  datatype Worker =
    | Waiting
    | Inside                   // holds the lock
    | Popped                   // holds the lock; the task is out of the chain but still counted

  datatype Holder = Nobody | ByAdder(i: nat) | ByWorker(j: nat)

  /** arrived and taken are histories: every task linked, and every task a worker got, in order. */
  datatype State<T> = State(
    queue: seq<T>, size: int, lock: Holder,
    adders: seq<Adder<T>>, workers: seq<Worker>,
    arrived: seq<T>, taken: seq<T>)

  datatype Step<T> =
    | Check(i: nat, task: T)
    | Lock(i: nat) | Link(i: nat) | Count(i: nat) | Unlock(i: nat)
    | WorkerLock(j: nat) | Pop(j: nat) | CountOff(j: nat) | WorkerUnlock(j: nat)

  /** The adder has a task that is not in the chain yet. */
  ghost predicate Carries<T>(a: Adder<T>, task: T) {
    (a.Passed? || a.Entered?) && a.task == task
  }

  /** A task that is neither in the queue nor on its way there: its next field could not be null,
      or would not stay so. */
  ghost predicate Idle<T>(s: State<T>, task: T) {
    task !in s.queue && forall k :: 0 <= k < |s.adders| ==> !Carries(s.adders[k], task)
  }

  ghost predicate Enabled<T>(s: State<T>, step: Step<T>) {
    match step
    case Check(i, task) => i < |s.adders| && s.adders[i].Outside? && Idle(s, task)
    case Lock(i) => i < |s.adders| && s.adders[i].Passed? && s.lock.Nobody?
    case Link(i) => i < |s.adders| && s.adders[i].Entered?
    case Count(i) => i < |s.adders| && s.adders[i].Linked?
    case Unlock(i) => i < |s.adders| && s.adders[i].Counted?
    case WorkerLock(j) => j < |s.workers| && s.workers[j].Waiting? && s.lock.Nobody?
    case Pop(j) => j < |s.workers| && s.workers[j].Inside? && s.queue != []
    case CountOff(j) => j < |s.workers| && s.workers[j].Popped?
    case WorkerUnlock(j) => j < |s.workers| && s.workers[j].Inside?
  }

  ghost function Apply<T>(s: State<T>, step: Step<T>): State<T>
    requires Enabled(s, step)
  {
    match step
    case Check(i, task) =>
      if s.size > MAX_THREAD_POOL_TASK then s else s.(adders := s.adders[i := Passed(task)])
    case Lock(i) => s.(lock := ByAdder(i), adders := s.adders[i := Entered(s.adders[i].task)])
    case Link(i) =>
      var task := s.adders[i].task;
      s.(queue := s.queue + [task], arrived := s.arrived + [task], adders := s.adders[i := Linked(task)])
    case Count(i) => s.(size := s.size + 1, adders := s.adders[i := Counted])
    case Unlock(i) => s.(lock := Nobody, adders := s.adders[i := Outside])
    case WorkerLock(j) => s.(lock := ByWorker(j), workers := s.workers[j := Inside])
    case Pop(j) => s.(queue := s.queue[1..], taken := s.taken + [s.queue[0]], workers := s.workers[j := Popped])
    case CountOff(j) => s.(size := s.size - 1, workers := s.workers[j := Inside])
    case WorkerUnlock(j) => s.(lock := Nobody, workers := s.workers[j := Waiting])
  }

  function Init<T>(n: nat, m: nat): State<T> {
    State([], 0, Nobody, seq(n, _ => Outside), seq(m, _ => Waiting), [], [])
  }

  ghost predicate Run<T>(s: State<T>, steps: seq<Step<T>>)
    decreases |steps|
  {
    steps == [] || (Enabled(s, steps[0]) && Run(Apply(s, steps[0]), steps[1..]))
  }

  ghost function After<T>(s: State<T>, steps: seq<Step<T>>): State<T>
    requires Run(s, steps)
    decreases |steps|
  {
    if steps == [] then s else After(Apply(s, steps[0]), steps[1..])
  }

  /** Adders that have passed the check and are not counted yet. */
  function Pending<T>(adders: seq<Adder<T>>): nat {
    if adders == [] then 0
    else (if adders[0].Outside? || adders[0].Counted? then 0 else 1) + Pending(adders[1..])
  }

  predicate InSection<T>(a: Adder<T>) {
    a.Entered? || a.Linked? || a.Counted?
  }

  /** One holder at a time, and the others are outside the section. */
  ghost predicate Exclusive<T>(s: State<T>) {
    && (forall i :: 0 <= i < |s.adders| ==> (InSection(s.adders[i]) <==> s.lock == ByAdder(i)))
    && (forall j :: 0 <= j < |s.workers| ==> (!s.workers[j].Waiting? <==> s.lock == ByWorker(j)))
    && (s.lock.ByAdder? ==> s.lock.i < |s.adders|)
    && (s.lock.ByWorker? ==> s.lock.j < |s.workers|)
  }

  /** What the chain is ahead of the count: only while the holder is between the two updates. */
  function Uncounted<T>(s: State<T>): int {
    match s.lock
    case Nobody => 0
    case ByAdder(i) => if i < |s.adders| && s.adders[i].Linked? then 1 else 0
    case ByWorker(j) => if j < |s.workers| && s.workers[j].Popped? then -1 else 0
  }

  /** No task is in the queue twice, on its way there twice, or both: so the walk along the chain
      ends. */
  ghost predicate Separate<T>(s: State<T>) {
    && (forall j, k :: 0 <= j < k < |s.queue| ==> s.queue[j] != s.queue[k])
    && (forall k :: 0 <= k < |s.adders| && (s.adders[k].Passed? || s.adders[k].Entered?) ==>
          s.adders[k].task !in s.queue)
    && (forall j, k :: 0 <= j < k < |s.adders| && (s.adders[j].Passed? || s.adders[j].Entered?) ==>
          !Carries(s.adders[k], s.adders[j].task))
  }

  ghost predicate Invariant<T>(s: State<T>) {
    && Exclusive(s)
    && Separate(s)
    && |s.queue| == s.size + Uncounted(s)
    && s.arrived == s.taken + s.queue
    && s.size + Pending(s.adders) <= MAX_THREAD_POOL_TASK + |s.adders|
  }

  lemma {:induction false} PendingUpdate<T>(adders: seq<Adder<T>>, i: nat, a: Adder<T>)
    requires i < |adders|
    ensures Pending(adders[i := a])
            == Pending(adders) - Pending([adders[i]]) + Pending([a])
    ensures Pending(adders) <= |adders| - 1 + Pending([adders[i]])
  {
    assert [a][1..] == [] && [adders[i]][1..] == [];
    if i == 0 {
      assert adders[i := a][1..] == adders[1..];
      if adders[1..] != [] {
        assert [adders[1]][1..] == [];
        PendingUpdate(adders[1..], 0, adders[1]);
      }
    } else {
      PendingUpdate(adders[1..], i - 1, a);
      assert adders[i := a][1..] == adders[1..][i - 1 := a];
    }
  }

  lemma {:induction false} PendingNone<T>(adders: seq<Adder<T>>)
    requires forall i :: 0 <= i < |adders| ==> adders[i].Outside?
    ensures Pending(adders) == 0
  {
    if adders == [] {
    } else {
      PendingNone(adders[1..]);
    }
  }

  lemma StepExclusive<T>(s: State<T>, step: Step<T>)
    requires Exclusive(s) && Enabled(s, step)
    ensures Exclusive(Apply(s, step))
  {
  }

  lemma StepSeparate<T>(s: State<T>, step: Step<T>)
    requires Separate(s) && Enabled(s, step)
    ensures Separate(Apply(s, step))
  {
  }

  lemma StepBound<T>(s: State<T>, step: Step<T>)
    requires s.size + Pending(s.adders) <= MAX_THREAD_POOL_TASK + |s.adders| && Enabled(s, step)
    ensures var s' := Apply(s, step);
            |s'.adders| == |s.adders| && s'.size + Pending(s'.adders) <= MAX_THREAD_POOL_TASK + |s.adders|
  {
    if step.Check? || step.Lock? || step.Link? || step.Count? || step.Unlock? {
      PendingUpdate(s.adders, step.i, Apply(s, step).adders[step.i]);
    }
  }

  lemma StepOrder<T>(s: State<T>, step: Step<T>)
    requires s.arrived == s.taken + s.queue && Enabled(s, step)
    ensures Apply(s, step).arrived == Apply(s, step).taken + Apply(s, step).queue
  {
    if step.Link? {
      assert (s.taken + s.queue) + [s.adders[step.i].task] == s.taken + (s.queue + [s.adders[step.i].task]);
    }
    if step.Pop? {
      assert s.taken + s.queue == (s.taken + [s.queue[0]]) + s.queue[1..];
    }
  }

  lemma StepInvariant<T>(s: State<T>, step: Step<T>)
    requires Invariant(s) && Enabled(s, step)
    ensures Invariant(Apply(s, step))
    ensures |Apply(s, step).adders| == |s.adders|
  {
    StepExclusive(s, step);
    StepSeparate(s, step);
    StepBound(s, step);
    StepOrder(s, step);
  }

  lemma {:induction false} RunInvariant<T>(s: State<T>, steps: seq<Step<T>>)
    requires Invariant(s) && Run(s, steps)
    ensures Invariant(After(s, steps))
    ensures |After(s, steps).adders| == |s.adders|
    decreases |steps|
  {
    if steps == [] {
    } else {
      StepInvariant(s, steps[0]);
      RunInvariant(Apply(s, steps[0]), steps[1..]);
    }
  }

  /** In every state n adders and m workers can reach: the size is at most n above the maximum,
      the chain is as long as the size says while the lock is free and holds no task twice, and
      the tasks that were taken are the ones that arrived first, in order. */
  lemma PoolSafety<T>(n: nat, m: nat, steps: seq<Step<T>>)
    requires Run(Init(n, m), steps)
    ensures var s := After(Init(n, m), steps);
            && s.size + Pending(s.adders) <= 200 + n
            && (s.lock.Nobody? ==> |s.queue| == s.size)
            && (forall j, k :: 0 <= j < k < |s.queue| ==> s.queue[j] != s.queue[k])
            && s.arrived == s.taken + s.queue
  {
    InitInvariant<T>(n, m);
    RunInvariant(Init(n, m), steps);
  }

  lemma InitInvariant<T>(n: nat, m: nat)
    ensures Invariant<T>(Init(n, m))
  {
    PendingNone(Init<T>(n, m).adders);
  }

  // ----- the bound is reached -----------------------------------------------------

  lemma {:induction false} RunConcat<T>(s: State<T>, a: seq<Step<T>>, b: seq<Step<T>>)
    requires Run(s, a) && Run(After(s, a), b)
    ensures Run(s, a + b) && After(s, a + b) == After(After(s, a), b)
    decreases |a|
  {
    if a == [] {
      assert a + b == b;
    } else {
      RunConcat(Apply(s, a[0]), a[1..], b);
      assert (a + b)[1..] == a[1..] + b;
    }
  }

  /** n adders of which those from k on have passed the check, with size tasks in the queue. Tasks
      are numbered: those in the queue below size, and the ones to come upwards from the maximum. */
  ghost predicate Stage(s: State<nat>, n: nat, k: nat, size: nat) {
    && k <= n == |s.adders|
    && s.lock.Nobody? && s.size == size && s.taken == []
    && (forall t :: t in s.queue ==> t < size)
    && forall i :: 0 <= i < n ==> s.adders[i] == if i < k then Outside else Passed(MAX_THREAD_POOL_TASK + i)
  }

  /** The way through the section for adder i. */
  function Section<T>(i: nat): seq<Step<T>> {
    [Lock(i), Link(i), Count(i), Unlock(i)]
  }

  lemma SectionRun(s: State<nat>, i: nat)
    requires i < |s.adders| && s.adders[i].Passed? && s.lock.Nobody?
    ensures Run(s, Section(i))
    ensures var t := After(s, Section(i));
            && t.lock.Nobody? && t.size == s.size + 1 && t.adders == s.adders[i := Outside]
            && t.queue == s.queue + [s.adders[i].task] && t.taken == s.taken
  {
    var s1 := Apply(s, Lock(i));
    var s2 := Apply(s1, Link(i));
    var s3 := Apply(s2, Count(i));
    var s4 := Apply(s3, Unlock(i));
    var steps: seq<Step<nat>> := Section(i);
    assert Run(s4, []) && After(s4, []) == s4;
    assert steps[1..][1..][1..][1..] == [];
    assert steps[1..][1..][1..][0] == Unlock(i);
    assert Run(s3, steps[1..][1..][1..]) && After(s3, steps[1..][1..][1..]) == s4;
    assert Run(s2, steps[1..][1..]) && After(s2, steps[1..][1..]) == s4;
    assert Run(s1, steps[1..]) && After(s1, steps[1..]) == s4;
    assert s4.adders == s.adders[i := Outside];
  }

  /** One adder alone fills the queue up to the maximum. */
  lemma {:induction false} Fill(s: State<nat>, n: nat, goal: nat) returns (steps: seq<Step<nat>>)
    requires n > 0 && s.size >= 0 && Stage(s, n, n, s.size)
    requires s.size <= goal <= MAX_THREAD_POOL_TASK
    ensures Run(s, steps) && Stage(After(s, steps), n, n, goal)
    decreases goal - s.size
  {
    steps := [];
    if s.size < goal {
      var s1 := Apply(s, Check(0, s.size));
      SectionRun(s1, 0);
      var s2 := After(s1, Section(0));
      assert s2.adders == s.adders;
      var rest := Fill(s2, n, goal);
      RunConcat(s1, Section(0), rest);
      steps := [Check(0, s.size)] + (Section(0) + rest);
      assert steps[1..] == Section(0) + rest;
    }
  }

  /** Adders k-1 down to 0 pass the check one after the other, then all n go through the section. */
  lemma {:induction false} PassAll(s: State<nat>, n: nat, k: nat) returns (steps: seq<Step<nat>>)
    requires Stage(s, n, k, MAX_THREAD_POOL_TASK)
    ensures Run(s, steps) && Stage(After(s, steps), n, 0, MAX_THREAD_POOL_TASK)
    decreases k
  {
    steps := [];
    if k == 0 {
    } else {
      var step: Step<nat> := Check(k - 1, MAX_THREAD_POOL_TASK + k - 1);
      var rest := PassAll(Apply(s, step), n, k - 1);
      steps := [step] + rest;
      assert steps[1..] == rest;
    }
  }

  lemma {:induction false} EnterAll(s: State<nat>, n: nat, k: nat) returns (steps: seq<Step<nat>>)
    requires Stage(s, n, k, MAX_THREAD_POOL_TASK + k)
    ensures Run(s, steps) && Stage(After(s, steps), n, n, MAX_THREAD_POOL_TASK + n)
    decreases n - k
  {
    steps := [];
    if k >= n {
    } else {
      SectionRun(s, k);
      var rest := EnterAll(After(s, Section(k)), n, k + 1);
      RunConcat(s, Section(k), rest);
      steps := Section(k) + rest;
    }
  }

  /** A run that fills the queue, lets everybody pass the check, and then lets everybody in. */
  lemma BoundRun(n: nat, m: nat) returns (steps: seq<Step<nat>>)
    requires n > 0
    ensures Run(Init(n, m), steps) && Stage(After(Init(n, m), steps), n, n, MAX_THREAD_POOL_TASK + n)
  {
    var s0: State<nat> := Init(n, m);
    var a := Fill(s0, n, MAX_THREAD_POOL_TASK);
    var s1 := After(s0, a);
    var b := PassAll(s1, n, n);
    var s2 := After(s1, b);
    var c := EnterAll(s2, n, 0);
    RunConcat(s1, b, c);
    RunConcat(s0, a, b + c);
    steps := a + (b + c);
  }

  /** The lock is free, no adder is under way, and extra tasks more than the maximum are waiting,
      all different. */
  ghost predicate Overshot(s: State<nat>, extra: nat) {
    && s.lock.Nobody? && (forall a :: a in s.adders ==> a.Outside?)
    && |s.queue| == s.size == 200 + extra
    && forall j, k :: 0 <= j < k < |s.queue| ==> s.queue[j] != s.queue[k]
  }

  /** The bound cannot be lowered: any number n of adders can overshoot by n. */
  lemma BoundReached(n: nat, m: nat)
    requires n > 0
    ensures exists steps :: Run(Init(n, m), steps) && Overshot(After(Init(n, m), steps), n)
  {
    var steps := BoundRun(n, m);
    PoolSafety(n, m, steps);
    assert Overshot(After(Init(n, m), steps), n);
  }
}
