/** Runs of the machine: what it does not forbid. No thread has to wait for another; calls overlap as
    they like; and an address given back is handed out again at once. */
module LeakRuns {
  import opened LeakRecords
  import opened LeakAccounting

  // ----- nothing stands in the way of a call --------------------------------------------

  /** A call in progress can go on, whatever the other threads do. */
  lemma CallGoesOn(s: State, t: nat, record: MemInfo, allocOk: bool, file: string, line: int)
    requires t < |s.threads|
    ensures s.threads[t] == Allocated(record.address) ==> Enabled(s, Add(t, record, allocOk))
    ensures s.threads[t].Reallocated? ==> Enabled(s, Replace(t, file, line))
    ensures s.threads[t].Removed? ==> Enabled(s, Free(t))
  {
  }

  lemma {:induction false} HeldByNone(ths: seq<Thread>, p: Address)
    requires forall k :: 0 <= k < |ths| ==>
               ths[k] != Allocated(p) && ths[k] != Removed(p) && !(ths[k].Reallocated? && ths[k].to == p)
    ensures Held(ths, p) == 0
  {
    if ths == [] {
    } else {
      HeldByNone(ths[1..], p);
    }
  }

  /** A thread between calls can start any call, whatever the other threads do: the allocator may
      hand out any address that is not live, and a block can be resized or given back unless another
      call has it. */
  lemma CallStarts(s: State, t: nat, p: Address, to: Address)
    requires t < |s.threads| && s.threads[t] == Idle && to != 0 && to !in s.live
    ensures Enabled(s, Malloc(t, to)) && Enabled(s, ReallocMove(t, 0, to))
    ensures p in s.live
            && (forall k :: 0 <= k < |s.threads| ==>
                  s.threads[k] != Allocated(p) && s.threads[k] != Removed(p)
                  && !(s.threads[k].Reallocated? && s.threads[k].to == p))
            ==> Enabled(s, ReallocInPlace(t, p)) && Enabled(s, ReallocMove(t, p, to)) && Enabled(s, Remove(t, p))
  {
    if forall k :: 0 <= k < |s.threads| ==>
         s.threads[k] != Allocated(p) && s.threads[k] != Removed(p)
         && !(s.threads[k].Reallocated? && s.threads[k].to == p)
    {
      HeldByNone(s.threads, p);
    }
  }

  // ----- runs, step by step -----------------------------------------------------------------

  /** steps lead from s to t. */
  ghost predicate Leads(s: State, steps: seq<Step>, t: State) {
    Run(s, steps) && After(s, steps) == t
  }

  lemma LeadsRest(s: State, a: seq<Step>, t: State)
    requires a != [] && Leads(s, a, t)
    ensures Enabled(s, a[0]) && Leads(Apply(s, a[0]), a[1..], t)
  {
  }

  lemma LeadsFirst(s: State, step: Step, rest: seq<Step>, u: State)
    requires Enabled(s, step) && Leads(Apply(s, step), rest, u)
    ensures Leads(s, [step] + rest, u)
  {
    assert ([step] + rest)[1..] == rest;
  }

  lemma {:induction false} LeadsConcat(s: State, a: seq<Step>, t: State, b: seq<Step>, u: State)
    requires Leads(s, a, t) && Leads(t, b, u)
    ensures Leads(s, a + b, u)
    decreases |a|
  {
    if a == [] {
      assert a + b == b;
    } else {
      LeadsRest(s, a, t);
      LeadsConcat(Apply(s, a[0]), a[1..], t, b, u);
      LeadsFirst(s, a[0], a[1..] + b, u);
      assert a + b == [a[0]] + (a[1..] + b);
    }
  }

  lemma LeadsOne(s: State, step: Step)
    requires Enabled(s, step)
    ensures Leads(s, [step], Apply(s, step))
  {
    assert [step][1..] == [];
  }

  lemma LeadsMore(s: State, a: seq<Step>, t: State, step: Step)
    requires Leads(s, a, t) && Enabled(t, step)
    ensures Leads(s, a + [step], Apply(t, step))
  {
    LeadsOne(t, step);
    LeadsConcat(s, a, t, [step], Apply(t, step));
  }

  // ----- all threads at once ------------------------------------------------------------------

  ghost predicate Distinct<T>(s: seq<T>) {
    forall i, j :: 0 <= i < j < |s| ==> s[i] != s[j]
  }

  /** Thread i gets the block blocks[i], for the first k threads. */
  function Mallocs(blocks: seq<Address>, k: nat): (steps: seq<Step>)
    requires k <= |blocks|
    ensures |steps| == k && forall i :: 0 <= i < k ==> steps[i] == Malloc(i, blocks[i])
  {
    seq(k, i requires 0 <= i < k => Malloc(i, blocks[i]))
  }

  /** The first k threads have got a block, and none has put it on record. */
  ghost function Getting(blocks: seq<Address>, k: nat): State
    requires k <= |blocks|
  {
    State([], set p | p in blocks[..k],
          seq(|blocks|, i requires 0 <= i < |blocks| => if i < k then Allocated(blocks[i]) else Idle), multiset{})
  }

  lemma {:induction false} MallocsLead(blocks: seq<Address>, k: nat)
    requires k <= |blocks| && Distinct(blocks) && 0 !in blocks
    ensures Leads(Init(|blocks|), Mallocs(blocks, k), Getting(blocks, k))
  {
    if k == 0 {
      assert Init(|blocks|) == Getting(blocks, 0);
      assert Mallocs(blocks, 0) == [];
    } else {
      var s, step := Getting(blocks, k - 1), Malloc(k - 1, blocks[k - 1]);
      MallocsLead(blocks, k - 1);
      LeadsMore(Init(|blocks|), Mallocs(blocks, k - 1), s, step);
      assert Mallocs(blocks, k) == Mallocs(blocks, k - 1) + [step];
      GettingNext(blocks, k);
    }
  }

  lemma GettingNext(blocks: seq<Address>, k: nat)
    requires 0 < k <= |blocks| && Distinct(blocks) && 0 !in blocks
    ensures Enabled(Getting(blocks, k - 1), Malloc(k - 1, blocks[k - 1]))
    ensures Apply(Getting(blocks, k - 1), Malloc(k - 1, blocks[k - 1])) == Getting(blocks, k)
  {
    var s, t := Getting(blocks, k - 1), Getting(blocks, k);
    assert blocks[..k] == blocks[..k - 1] + [blocks[k - 1]];
    assert s.live + {blocks[k - 1]} == t.live;
    assert s.threads[k - 1 := Allocated(blocks[k - 1])] == t.threads;
    assert blocks[k - 1] !in blocks[..k - 1];
  }

  /** Any number of threads can stand between malloc and add_mem_info at once, with any different
      blocks. */
  lemma AllAtOnce(blocks: seq<Address>)
    requires Distinct(blocks) && 0 !in blocks
    ensures var steps := Mallocs(blocks, |blocks|);
            && Run(Init(|blocks|), steps)
            && var s := After(Init(|blocks|), steps);
               && |s.threads| == |blocks| && s.tracked == []
               && forall i :: 0 <= i < |blocks| ==> s.threads[i] == Allocated(blocks[i]) && blocks[i] in s.live
  {
    MallocsLead(blocks, |blocks|);
    assert blocks[..|blocks|] == blocks;
  }

  /** order names every thread once. */
  ghost predicate Order(order: seq<nat>, n: nat) {
    && |order| == n && Distinct(order)
    && (forall j :: 0 <= j < n ==> order[j] < n) && forall i :: 0 <= i < n ==> i in order
  }

  function Adds(order: seq<nat>, records: seq<MemInfo>, k: nat): (steps: seq<Step>)
    requires k <= |order| && forall j :: 0 <= j < |order| ==> order[j] < |records|
    ensures |steps| == k && forall j :: 0 <= j < k ==> steps[j] == Add(order[j], records[order[j]], true)
  {
    seq(k, j requires 0 <= j < k => Add(order[j], records[order[j]], true))
  }

  /** The first k threads of the order have put their blocks on record. */
  ghost function Recording(blocks: seq<Address>, records: seq<MemInfo>, order: seq<nat>, k: nat): State
    requires |records| == |blocks| && Order(order, |blocks|) && k <= |order|
  {
    State(seq(k, j requires 0 <= j < k => Stored(records[order[j]])), set p | p in blocks,
          seq(|blocks|, i requires 0 <= i < |blocks| => if i in order[..k] then Idle else Allocated(blocks[i])),
          multiset{})
  }

  lemma RecordingNext(blocks: seq<Address>, records: seq<MemInfo>, order: seq<nat>, k: nat)
    requires |records| == |blocks| && Order(order, |blocks|) && 0 < k <= |order|
    requires forall i :: 0 <= i < |blocks| ==> records[i].address == blocks[i]
    ensures var s, step := Recording(blocks, records, order, k - 1), Add(order[k - 1], records[order[k - 1]], true);
            Enabled(s, step) && Apply(s, step) == Recording(blocks, records, order, k)
  {
    var s, t, i := Recording(blocks, records, order, k - 1), Recording(blocks, records, order, k), order[k - 1];
    assert order[..k] == order[..k - 1] + [i];
    assert i !in order[..k - 1];
    assert s.tracked + [Stored(records[i])] == t.tracked;
    assert s.threads[i := Idle] == t.threads;
  }

  lemma {:induction false} AddsLead(blocks: seq<Address>, records: seq<MemInfo>, order: seq<nat>, k: nat)
    requires |records| == |blocks| && Order(order, |blocks|) && k <= |order|
    requires forall i :: 0 <= i < |blocks| ==> records[i].address == blocks[i]
    ensures Leads(Recording(blocks, records, order, 0), Adds(order, records, k), Recording(blocks, records, order, k))
  {
    if k == 0 {
      assert Adds(order, records, 0) == [];
    } else {
      var step := Add(order[k - 1], records[order[k - 1]], true);
      AddsLead(blocks, records, order, k - 1);
      RecordingNext(blocks, records, order, k);
      LeadsMore(Recording(blocks, records, order, 0), Adds(order, records, k - 1),
                Recording(blocks, records, order, k - 1), step);
      assert Adds(order, records, k) == Adds(order, records, k - 1) + [step];
    }
  }

  /** The threads that got a block can put it on record in any order, and the list has that order. */
  lemma AnyOrder(blocks: seq<Address>, records: seq<MemInfo>, order: seq<nat>)
    requires Distinct(blocks) && 0 !in blocks && |records| == |blocks| && Order(order, |blocks|)
    requires forall i :: 0 <= i < |blocks| ==> records[i].address == blocks[i]
    ensures var (n, steps) := (|blocks|, Mallocs(blocks, |blocks|) + Adds(order, records, |blocks|));
            && Run(Init(n), steps)
            && var s := After(Init(n), steps);
               && Quiescent(s) && |s.tracked| == n && s.live == (set p | p in blocks) && s.lost == multiset{}
               && forall j :: 0 <= j < n ==> s.tracked[j].address == blocks[order[j]]
  {
    var n := |blocks|;
    MallocsLead(blocks, n);
    AddsLead(blocks, records, order, n);
    assert blocks[..n] == blocks && order[..n] == order;
    assert Getting(blocks, n).threads == Recording(blocks, records, order, 0).threads;
    assert Recording(blocks, records, order, 0).tracked == [];
    LeadsConcat(Init(n), Mallocs(blocks, n), Getting(blocks, n), Adds(order, records, n),
                Recording(blocks, records, order, n));
  }

  // ----- addresses that come back at once ---------------------------------------------------------

  /** Two threads, of which the blocks and records are these, and no block is lost. */
  function Pair(tracked: seq<MemInfo>, live: set<Address>, a: Thread, b: Thread): State {
    State(tracked, live, [a, b], multiset{})
  }

  /** One more of the steps r. */
  lemma Take(s: State, r: seq<Step>, k: nat, t: State, u: State)
    requires k < |r| && Leads(s, r[..k], t) && Enabled(t, r[k]) && Apply(t, r[k]) == u
    ensures Leads(s, r[..k + 1], u)
  {
    LeadsMore(s, r[..k], t, r[k]);
    assert r[..k + 1] == r[..k] + [r[k]];
  }

  lemma TakeNone(s: State, r: seq<Step>)
    ensures Leads(s, r[..0], s)
  {
  }

  lemma PairStarts(p: Address, a: MemInfo)
    requires p != 0 && a.address == p
    ensures Leads(Init(2), [Malloc(0, p), Add(0, a, true)], Pair([Stored(a)], {p}, Idle, Idle))
  {
    var s0, s1, s2 := Init(2), Pair([], {p}, Allocated(p), Idle), Pair([Stored(a)], {p}, Idle, Idle);
    var r := [Malloc(0, p), Add(0, a, true)];
    assert s0.threads == [Idle, Idle];
    TakeNone(s0, r);
    Take(s0, r, 0, s0, s1);
    Take(s0, r, 1, s1, s2);
    assert r[..2] == r;
  }

  /** Thread 0 moves its block from p to q; before it can say so, thread 1 is given p and puts it on
      record; then two records have the address p, and the first of them is handed over. */
  lemma AddressMoves(p: Address, q: Address, a: MemInfo, b: MemInfo, file: string, line: int)
    requires p != 0 && q != 0 && p != q && a.address == b.address == p
    ensures var steps := [Malloc(0, p), Add(0, a, true)]
                         + [ReallocMove(0, p, q), Malloc(1, p), Add(1, b, true), Replace(0, file, line)];
            && Run(Init(2), steps)
            && var s := After(Init(2), steps);
               && s.live == {p, q} && s.threads == [Idle, Idle] && s.lost == multiset{} && |s.tracked| == 2
               && s.tracked[0].address == q && s.tracked[0].line == line && s.tracked[1] == Stored(b)
  {
    PairStarts(p, a);
    var s0 := Pair([Stored(a)], {p}, Idle, Idle);
    var s1 := Pair([Stored(a)], {q}, Reallocated(p, q), Idle);
    var s2 := Pair([Stored(a)], {p, q}, Reallocated(p, q), Allocated(p));
    var s3 := Pair([Stored(a), Stored(b)], {p, q}, Reallocated(p, q), Idle);
    var r := [ReallocMove(0, p, q), Malloc(1, p), Add(1, b, true), Replace(0, file, line)];
    CallStarts(s0, 0, p, q);
    TakeNone(s0, r);
    assert {p} - {p} + {q} == {q} && {q} + {p} == {p, q};
    Take(s0, r, 0, s0, s1);
    Take(s0, r, 1, s1, s2);
    Take(s0, r, 2, s2, s3);
    HandedOver(p, q, a, b, file, line);
    Take(s0, r, 3, s3, Apply(s3, r[3]));
    assert r[..4] == r;
    LeadsConcat(Init(2), [Malloc(0, p), Add(0, a, true)], s0, r, Apply(s3, r[3]));
  }

  lemma HandedOver(p: Address, q: Address, a: MemInfo, b: MemInfo, file: string, line: int)
    requires a.address == b.address == p
    ensures var t := [Stored(a), Stored(b)];
            && !Absent(t, p)
            && ReplaceFirst(t, p, q, file, line)
               == [Stored(a).(address := q, file := Stored(a.(file := file)).file, line := line), Stored(b)]
  {
    var t := [Stored(a), Stored(b)];
    assert t[0].address == p;
  }

  lemma FreedByOther(p: Address, q: Address, a: MemInfo)
    requires p != 0 && q != 0 && p != q && a.address == p
    ensures Leads(Pair([Stored(a)], {p}, Idle, Idle),
                  [ReallocInPlace(1, p), Remove(1, p), Malloc(0, q), Free(1)], Pair([], {q}, Allocated(q), Idle))
  {
    var r := [ReallocInPlace(1, p), Remove(1, p), Malloc(0, q), Free(1)];
    var s0 := Pair([Stored(a)], {p}, Idle, Idle);
    var s2 := Pair([], {p}, Idle, Removed(p));
    var s3 := Pair([], {p, q}, Allocated(q), Removed(p));
    CallStarts(s0, 1, p, q);
    assert !Absent(s0.tracked, p) by { assert s0.tracked[0].address == p; }
    assert {p, q} - {p} == {q};
    TakeNone(s0, r);
    Take(s0, r, 0, s0, s0);
    Take(s0, r, 1, s0, s2);
    Take(s0, r, 2, s2, s3);
    Take(s0, r, 3, s3, Pair([], {q}, Allocated(q), Idle));
    assert r[..4] == r;
  }

  lemma RecordedFirst(p: Address, q: Address, b: MemInfo, c: MemInfo)
    requires p != 0 && q != 0 && p != q && b.address == p && c.address == q
    ensures Leads(Pair([], {q}, Allocated(q), Idle), [Malloc(1, p), Add(1, b, true), Add(0, c, true)],
                  Pair([Stored(b), Stored(c)], {p, q}, Idle, Idle))
  {
    var r := [Malloc(1, p), Add(1, b, true), Add(0, c, true)];
    var s0 := Pair([], {q}, Allocated(q), Idle);
    var s1 := Pair([], {p, q}, Allocated(q), Allocated(p));
    var s2 := Pair([Stored(b)], {p, q}, Allocated(q), Idle);
    assert {q} + {p} == {p, q};
    TakeNone(s0, r);
    Take(s0, r, 0, s0, s1);
    Take(s0, r, 1, s1, s2);
    Take(s0, r, 2, s2, Pair([Stored(b), Stored(c)], {p, q}, Idle, Idle));
    assert r[..3] == r;
  }

  /** Thread 1 resizes and frees the block of thread 0, which gets another one meanwhile; when p is
      free, it is handed out again and put on record before the block of thread 0. */
  lemma AddressReturns(p: Address, q: Address, a: MemInfo, b: MemInfo, c: MemInfo)
    requires p != 0 && q != 0 && p != q && a.address == b.address == p && c.address == q
    ensures var steps := [Malloc(0, p), Add(0, a, true)]
                         + ([ReallocInPlace(1, p), Remove(1, p), Malloc(0, q), Free(1)]
                            + [Malloc(1, p), Add(1, b, true), Add(0, c, true)]);
            && Run(Init(2), steps)
            && After(Init(2), steps) == State([Stored(b), Stored(c)], {p, q}, [Idle, Idle], multiset{})
  {
    var s0, s1, s2 := Pair([Stored(a)], {p}, Idle, Idle), Pair([], {q}, Allocated(q), Idle),
                      Pair([Stored(b), Stored(c)], {p, q}, Idle, Idle);
    var r1, r2 := [ReallocInPlace(1, p), Remove(1, p), Malloc(0, q), Free(1)],
                  [Malloc(1, p), Add(1, b, true), Add(0, c, true)];
    PairStarts(p, a);
    FreedByOther(p, q, a);
    RecordedFirst(p, q, b, c);
    LeadsConcat(s0, r1, s1, r2, s2);
    LeadsConcat(Init(2), [Malloc(0, p), Add(0, a, true)], s0, r1 + r2, s2);
  }

  // ----- every run can be brought to an end -------------------------------------------------------

  /** The step that ends the call a thread is in. */
  function Last(t: nat, th: Thread): Step
    requires th != Idle
  {
    match th
    case Allocated(p) => Add(t, MemInfo(p, 0, 0, "", ""), true)
    case Reallocated(_, _) => Replace(t, "", 0)
    case Removed(_) => Free(t)
  }

  lemma {:induction false} Ending(s: State, k: nat) returns (steps: seq<Step>)
    requires k <= |s.threads| && forall i :: 0 <= i < k ==> s.threads[i] == Idle
    ensures Run(s, steps) && Quiescent(After(s, steps))
    decreases |s.threads| - k
  {
    steps := [];
    if k < |s.threads| && s.threads[k] == Idle {
      steps := Ending(s, k + 1);
    } else if k < |s.threads| {
      var step := Last(k, s.threads[k]);
      var rest := Ending(Apply(s, step), k + 1);
      steps := [step] + rest;
      assert steps[1..] == rest;
    }
  }

  /** From every state the calls in progress can all return. */
  lemma CanEnd(s: State)
    ensures exists steps :: Run(s, steps) && Quiescent(After(s, steps))
  {
    var steps := Ending(s, 0);
  }
}
