/** Threads running __ms_malloc, __ms_realloc and __ms_free against one tracker. The list
    operations run under the mutex and are atomic steps; the allocator is called outside it, so
    every call is two steps with anything in between, and an address that was given back may be
    handed out again at once. */
module LeakAccounting {
  import opened CText
  import opened LeakRecords

  const NULL: Address := 0

  /** Where a thread stands inside a call. */
  datatype Thread =
    | Idle
    | Allocated(p: Address)                      // malloc has returned, add_mem_info is due
    | Reallocated(from: Address, to: Address)    // realloc has moved, replace_mem_info is due
    | Removed(p: Address)                        // remove_mem_info has run, free is due

  /** lost counts the blocks that have no record because a step failed. It is a history: nothing in
      the program looks at it. */
  datatype State = State(tracked: seq<MemInfo>, live: set<Address>, threads: seq<Thread>, lost: multiset<Address>)

  datatype Step =
    | Malloc(t: nat, p: Address)
    | Add(t: nat, record: MemInfo, allocOk: bool)
    | ReallocInPlace(t: nat, p: Address)
    | ReallocMove(t: nat, p: Address, to: Address)
    | Replace(t: nat, file: string, line: int)
    | Remove(t: nat, p: Address)
    | Free(t: nat)

  /** Blocks a call in progress answers for: allocated, but no longer or not yet on record. */
  predicate Holds(th: Thread, a: Address) {
    match th
    case Idle => false
    case Allocated(p) => p == a
    case Reallocated(_, to) => to == a
    case Removed(p) => p == a
  }

  /** Addresses a call in progress has given back to the allocator, but not to the accounts. */
  predicate Outdates(th: Thread, a: Address) {
    th.Reallocated? && th.from == a && a != NULL
  }

  /** A call in progress that has no record to hand over: realloc was given the null pointer. */
  predicate Orphan(th: Thread) {
    th.Reallocated? && th.from == NULL
  }

  ghost function Held(ths: seq<Thread>, a: Address): nat {
    if ths == [] then 0 else (if Holds(ths[0], a) then 1 else 0) + Held(ths[1..], a)
  }

  ghost function Stale(ths: seq<Thread>, a: Address): nat {
    if ths == [] then 0 else (if Outdates(ths[0], a) then 1 else 0) + Stale(ths[1..], a)
  }

  function Orphans(ths: seq<Thread>): nat {
    if ths == [] then 0 else (if Orphan(ths[0]) then 1 else 0) + Orphans(ths[1..])
  }

  /** The block belongs to the program: some call returned it, and no call is giving it back. */
  ghost predicate Owned(s: State, p: Address) {
    p in s.live && Held(s.threads, p) == 0
  }

  ghost predicate Enabled(s: State, step: Step) {
    && step.t < |s.threads|
    && var th := s.threads[step.t];
    match step
    case Malloc(_, p) => th.Idle? && p != NULL && p !in s.live
    case Add(_, record, _) => th.Allocated? && record.address == th.p
    case ReallocInPlace(_, p) => th.Idle? && Owned(s, p)
    case ReallocMove(_, p, to) => th.Idle? && (p == NULL || Owned(s, p)) && to != NULL && to !in s.live
    case Replace(_, _, _) => th.Reallocated?
    case Remove(_, p) => th.Idle? && Owned(s, p)
    case Free(_) => th.Removed?
  }

  /** A record, in the fields of a node. */
  function Stored(record: MemInfo): (r: MemInfo)
    ensures r.file <= record.file && |r.file| == if |record.file| < 32 then |record.file| else 31
    ensures r == record.(file := r.file)
  {
    record.(file := Clip(record.file, FILE_SIZE))
  }

  ghost function Apply(s: State, step: Step): State
    requires Enabled(s, step)
  {
    var th := s.threads[step.t];
    match step
    case Malloc(t, p) =>
      s.(live := s.live + {p}, threads := s.threads[t := Allocated(p)])
    case Add(t, record, allocOk) =>
      s.(tracked := if allocOk then s.tracked + [Stored(record)] else s.tracked,
         lost := if allocOk then s.lost else s.lost + multiset{record.address}, threads := s.threads[t := Idle])
    case ReallocInPlace(_, _) => s
    case ReallocMove(t, p, to) =>
      s.(live := s.live - {p} + {to}, threads := s.threads[t := Reallocated(p, to)])
    case Replace(t, file, line) =>
      s.(tracked := ReplaceFirst(s.tracked, th.from, th.to, file, line),
         lost := if Absent(s.tracked, th.from) then s.lost - multiset{th.from} + multiset{th.to} else s.lost,
         threads := s.threads[t := Idle])
    case Remove(t, p) =>
      s.(tracked := RemoveFirst(s.tracked, p),
         lost := if Absent(s.tracked, p) then s.lost - multiset{p} else s.lost, threads := s.threads[t := Removed(p)])
    case Free(t) =>
      s.(live := s.live - {th.p}, threads := s.threads[t := Idle])
  }

  function Init(n: nat): State {
    State([], {}, seq(n, _ => Idle), multiset{})
  }

  /** steps can be taken one after the other from s, and end in the state After(s, steps). */
  ghost predicate Run(s: State, steps: seq<Step>)
    decreases |steps|
  {
    steps == [] || (Enabled(s, steps[0]) && Run(Apply(s, steps[0]), steps[1..]))
  }

  ghost function After(s: State, steps: seq<Step>): State
    requires Run(s, steps)
    decreases |steps|
  {
    if steps == [] then s else After(Apply(s, steps[0]), steps[1..])
  }

  ghost predicate Quiescent(s: State) {
    forall i :: 0 <= i < |s.threads| ==> s.threads[i] == Idle
  }

  function Live(s: State, a: Address): nat {
    if a in s.live then 1 else 0
  }

  /** tracked + held + lost == live + stale at one address, and no block is answered for twice. */
  ghost predicate BalancedAt(s: State, a: Address) {
    && Occurrences(s.tracked, a) + Held(s.threads, a) + s.lost[a] == Live(s, a) + Stale(s.threads, a)
    && Held(s.threads, a) <= Live(s, a)
  }

  /** The accounts balance: an equation of multisets of addresses. The null pointer is in none. */
  ghost predicate Balanced(s: State) {
    && (forall a :: BalancedAt(s, a))
    && NULL !in s.live && Stale(s.threads, NULL) == 0
  }

  /** A step that costs a record: no node could be had for it, or realloc was given no block. */
  predicate Costs(step: Step) {
    || (step.Add? && !step.allocOk)
    || (step.ReallocMove? && step.p == NULL)
  }

  function Costly(steps: seq<Step>): nat {
    if steps == [] then 0 else (if Costs(steps[0]) then 1 else 0) + Costly(steps[1..])
  }

  // ----- sums over the threads -----------------------------------------------

  lemma {:induction false} SumsUpdate(ths: seq<Thread>, t: nat, th: Thread, a: Address)
    requires t < |ths|
    ensures Held(ths[t := th], a)
            == Held(ths, a) - (if Holds(ths[t], a) then 1 else 0) + (if Holds(th, a) then 1 else 0)
    ensures Stale(ths[t := th], a)
            == Stale(ths, a) - (if Outdates(ths[t], a) then 1 else 0) + (if Outdates(th, a) then 1 else 0)
    ensures Holds(ths[t], a) ==> Held(ths, a) > 0
    ensures Outdates(ths[t], a) ==> Stale(ths, a) > 0
  {
    if t == 0 {
      assert ths[t := th][1..] == ths[1..];
    } else {
      SumsUpdate(ths[1..], t - 1, th, a);
      assert ths[t := th][1..] == ths[1..][t - 1 := th];
    }
  }

  lemma {:induction false} OrphansUpdate(ths: seq<Thread>, t: nat, th: Thread)
    requires t < |ths|
    ensures Orphans(ths[t := th])
            == Orphans(ths) - (if Orphan(ths[t]) then 1 else 0) + (if Orphan(th) then 1 else 0)
  {
    if t == 0 {
      assert ths[t := th][1..] == ths[1..];
    } else {
      OrphansUpdate(ths[1..], t - 1, th);
      assert ths[t := th][1..] == ths[1..][t - 1 := th];
    }
  }

  lemma {:induction false} SumsQuiescent(ths: seq<Thread>, a: Address)
    requires forall i :: 0 <= i < |ths| ==> ths[i] == Idle
    ensures Held(ths, a) == 0 && Stale(ths, a) == 0 && Orphans(ths) == 0
  {
    if ths == [] {
    } else {
      SumsQuiescent(ths[1..], a);
    }
  }

  // ----- what every step keeps ------------------------------------------------

  /** The address remove_mem_info or replace_mem_info looks for. */
  function Sought(s: State, step: Step): Address
    requires step.t < |s.threads| && (step.Remove? || (step.Replace? && s.threads[step.t].Reallocated?))
  {
    if step.Remove? then step.p else s.threads[step.t].from
  }

  /** remove_mem_info and replace_mem_info search in vain only for a block whose record was lost,
      and for the null pointer. */
  lemma FindsRecord(s: State, step: Step)
    requires Balanced(s) && Enabled(s, step) && (step.Remove? || step.Replace?)
    ensures Absent(s.tracked, Sought(s, step)) ==> Sought(s, step) == NULL || s.lost[Sought(s, step)] > 0
    ensures Sought(s, step) == NULL ==> step.Replace? && Absent(s.tracked, NULL) && s.lost[NULL] == 0
  {
    var a := Sought(s, step);
    SumsUpdate(s.threads, step.t, Idle, a);
    OccurrencesAbsent(s.tracked, a);
    assert BalancedAt(s, a);
  }

  /** What the list operation of a step does to the records of one address. */
  lemma StepRecords(s: State, step: Step, a: Address)
    requires Balanced(s) && Enabled(s, step)
    ensures var s' := Apply(s, step);
            Occurrences(s'.tracked, a) + s'.lost[a]
            == Occurrences(s.tracked, a) + s.lost[a]
               + (if step.Add? && step.record.address == a then 1 else 0)
               - (if step.Remove? && step.p == a then 1 else 0)
               - (if step.Replace? && s.threads[step.t].from == a && a != NULL then 1 else 0)
               + (if step.Replace? && s.threads[step.t].to == a then 1 else 0)
  {
    if step.Remove? || step.Replace? {
      FindsRecord(s, step);
      OccurrencesAbsent(s.tracked, Sought(s, step));
    }
    match step {
      case Add(_, record, _) => OccurrencesAppend(s.tracked, Stored(record), a);
      case Replace(t, file, line) =>
        OccurrencesReplaceFirst(s.tracked, s.threads[t].from, s.threads[t].to, file, line, a);
      case Remove(_, p) => OccurrencesRemoveFirst(s.tracked, p, a);
      case _ =>
    }
  }

  lemma StepBalancedAt(s: State, step: Step, a: Address)
    requires Balanced(s) && Enabled(s, step)
    ensures BalancedAt(Apply(s, step), a)
    ensures a == NULL ==> a !in Apply(s, step).live && Stale(Apply(s, step).threads, a) == 0
  {
    assert BalancedAt(s, a);
    StepRecords(s, step, a);
    if !step.ReallocInPlace? { SumsUpdate(s.threads, step.t, Apply(s, step).threads[step.t], a); }
  }

  /** Every step of every thread keeps the balance, the failing ones too. */
  lemma StepBalanced(s: State, step: Step)
    requires Balanced(s) && Enabled(s, step)
    ensures Balanced(Apply(s, step))
  {
    forall a ensures BalancedAt(Apply(s, step), a) { StepBalancedAt(s, step, a); }
    StepBalancedAt(s, step, NULL);
  }

  /** A step pays for at most one lost record, and only if it costs one; a call that was given the
      null pointer pays when it returns. */
  lemma StepCost(s: State, step: Step)
    requires Balanced(s) && Enabled(s, step)
    ensures var s' := Apply(s, step);
            |s'.lost| + Orphans(s'.threads) <= |s.lost| + Orphans(s.threads) + if Costs(step) then 1 else 0
  {
    var s' := Apply(s, step);
    if step.Remove? || step.Replace? { FindsRecord(s, step); }
    if !step.ReallocInPlace? { OrphansUpdate(s.threads, step.t, s'.threads[step.t]); }
  }

  lemma {:induction false} RunBalanced(s: State, steps: seq<Step>)
    requires Balanced(s) && Run(s, steps)
    ensures Balanced(After(s, steps))
    ensures |After(s, steps).lost| + Orphans(After(s, steps).threads)
            <= |s.lost| + Orphans(s.threads) + Costly(steps)
    decreases |steps|
  {
    if steps == [] {
    } else {
      StepBalanced(s, steps[0]);
      StepCost(s, steps[0]);
      RunBalanced(Apply(s, steps[0]), steps[1..]);
    }
  }

  lemma InitBalanced(n: nat)
    ensures Balanced(Init(n)) && Orphans(Init(n).threads) == 0
  {
    SumsQuiescent(Init(n).threads, NULL);
    forall a ensures BalancedAt(Init(n), a) && Stale(Init(n).threads, a) == 0 {
      SumsQuiescent(Init(n).threads, a);
    }
  }

  // ----- the leak report --------------------------------------------------------

  /** Whatever n threads did, in whatever order and with whatever failures: once no call is in
      progress, every live block is on record once or lost once, nothing else is either, and no
      more blocks are lost than steps failed. */
  lemma QuiescentExact(n: nat, steps: seq<Step>)
    requires Run(Init(n), steps) && Quiescent(After(Init(n), steps))
    ensures var s := After(Init(n), steps);
            && (forall a :: Occurrences(s.tracked, a) + s.lost[a] == if a in s.live then 1 else 0)
            && |s.tracked| + |s.lost| == |s.live|
            && |s.lost| <= Costly(steps)
  {
    var s := After(Init(n), steps);
    InitBalanced(n);
    RunBalanced(Init(n), steps);
    forall a ensures Occurrences(s.tracked, a) + s.lost[a] == if a in s.live then 1 else 0 {
      SumsQuiescent(s.threads, a);
      assert BalancedAt(s, a);
    }
    TrackedAndLost(s.tracked, s.lost, s.live);
  }

  /** Records and lost addresses that make up a set are together as many as the set. */
  lemma {:induction false} TrackedAndLost(tracked: seq<MemInfo>, lost: multiset<Address>, live: set<Address>)
    requires forall a :: Occurrences(tracked, a) + lost[a] == if a in live then 1 else 0
    ensures |tracked| + |lost| == |live|
    decreases |lost|
  {
    if |lost| == 0 {
      assert lost == multiset{};
      OccurrencesOnce(tracked, live);
    } else {
      var a :| a in lost;
      var lost', live' := lost - multiset{a}, live - {a};
      forall b ensures Occurrences(tracked, b) + lost'[b] == if b in live' then 1 else 0 {
        assert Occurrences(tracked, b) + lost[b] == if b in live then 1 else 0;
      }
      assert Occurrences(tracked, a) + lost[a] == 1;
      TrackedAndLost(tracked, lost', live');
    }
  }

  /** So when nothing failed, the records are exactly the live blocks, each once. */
  lemma QuiescentComplete(n: nat, steps: seq<Step>)
    requires Run(Init(n), steps) && Quiescent(After(Init(n), steps))
    requires forall i :: 0 <= i < |steps| ==>
               (steps[i].Add? ==> steps[i].allocOk) && (steps[i].ReallocMove? ==> steps[i].p != 0)
    ensures var s := After(Init(n), steps);
            && (forall a :: Occurrences(s.tracked, a) == if a in s.live then 1 else 0)
            && |s.tracked| == |s.live|
  {
    QuiescentExact(n, steps);
    NothingCostly(steps);
    assert After(Init(n), steps).lost == multiset{};
  }

  /** What counts as a failure: a record without a node, and realloc of the null pointer. */
  lemma {:induction false} CostlyLast(steps: seq<Step>, step: Step)
    ensures Costly(steps + [step])
            == Costly(steps) + if (step.Add? && !step.allocOk) || (step.ReallocMove? && step.p == 0) then 1 else 0
  {
    if steps == [] {
      assert [] + [step] == [step] && [step][1..] == [];
    } else {
      CostlyLast(steps[1..], step);
      assert (steps + [step])[1..] == steps[1..] + [step];
    }
  }

  lemma {:induction false} NothingCostly(steps: seq<Step>)
    requires forall i :: 0 <= i < |steps| ==> !Costs(steps[i])
    ensures Costly(steps) == 0
  {
    if steps == [] {
    } else {
      NothingCostly(steps[1..]);
    }
  }

  // ----- where the code falls short -----------------------------------------------

  /** However the threads are interleaved: the end of a moving __ms_realloc loses a record exactly
      when the call was given no block, because then there is no record to replace. */
  lemma ReallocKeepsAccounts(s: State, t: nat, file: string, line: int)
    requires Balanced(s) && Enabled(s, Replace(t, file, line))
    ensures |Apply(s, Replace(t, file, line)).lost|
            == |s.lost| + if s.threads[t].from == NULL then 1 else 0
  {
    FindsRecord(s, Replace(t, file, line));
  }

  /** And the end of an __ms_malloc loses one exactly when add got no node: then there is no record
      more of the block than there was, and else one more. */
  lemma MallocKeepsAccounts(s: State, t: nat, record: MemInfo, allocOk: bool)
    requires Balanced(s) && Enabled(s, Add(t, record, allocOk))
    ensures var s' := Apply(s, Add(t, record, allocOk));
            && |s'.lost| == |s.lost| + (if allocOk then 0 else 1)
            && Occurrences(s'.tracked, record.address)
               == Occurrences(s.tracked, record.address) + if allocOk then 1 else 0
  {
    OccurrencesAppend(s.tracked, Stored(record), record.address);
  }

  /** A call for which no node could be had, run on an empty tracker: the block it returns is live,
      and not on record. */
  lemma MallocWithoutNode(record: MemInfo)
    requires record.address != 0
    ensures var steps := [Malloc(0, record.address), Add(0, record, false)];
            && Run(Init(1), steps)
            && After(Init(1), steps) == State([], {record.address}, [Idle], multiset{record.address})
  {
    TwoSteps(Init(1), Malloc(0, record.address), Add(0, record, false));
    assert Init(1).threads[0 := Idle] == [Idle];
  }

  lemma TwoSteps(s: State, a: Step, b: Step)
    requires Enabled(s, a) && Enabled(Apply(s, a), b)
    ensures Run(s, [a, b]) && After(s, [a, b]) == Apply(Apply(s, a), b)
  {
    assert [a, b][1..] == [b] && [b][1..] == [];
    assert Run(Apply(Apply(s, a), b), []) && Run(Apply(s, a), [b]);
    assert After(Apply(s, a), [b]) == Apply(Apply(s, a), b);
  }

  /** A call that was given the null pointer, run on an empty tracker: the block it returns is live,
      and not on record. */
  lemma ReallocOfNull(to: Address, file: string, line: int)
    requires to != 0
    ensures var steps := [ReallocMove(0, 0, to), Replace(0, file, line)];
            && Run(Init(1), steps)
            && After(Init(1), steps) == State([], {to}, [Idle], multiset{to})
  {
    TwoSteps(Init(1), ReallocMove(0, NULL, to), Replace(0, file, line));
    assert Init(1).threads[0 := Idle] == [Idle];
  }
}
