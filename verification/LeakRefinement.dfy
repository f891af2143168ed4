/** The list of memory.c takes the steps of the accounting. */
module LeakRefinement {
  import opened LeakList
  import opened LeakAccounting

  /** One step of a thread, run on the list: the records are those of the step's outcome. For the
      record of an Add step the caller's size, line and file and the clock are free. */
  method Perform(tracker: Tracker, ghost s: State, step: Step, th: Thread)
    requires tracker.Valid() && tracker.Records == s.tracked
    requires Enabled(s, step) && th == s.threads[step.t]
    modifies tracker, tracker.Nodes
    ensures tracker.Valid() && tracker.Records == Apply(s, step).tracked
    ensures forall i :: 0 <= i < |tracker.Nodes| ==> tracker.Nodes[i] in old(tracker.Nodes) || fresh(tracker.Nodes[i])
  {
    match step {
      case Add(_, record, allocOk) =>
        tracker.AddMemInfo(record.address, record.size, record.file, record.line, record.time, allocOk);
      case Replace(_, file, line) =>
        tracker.ReplaceMemInfo(th.from, th.to, file, line);
      case Remove(_, p) =>
        tracker.RemoveMemInfo(p);
      case _ =>
    }
  }

  /** Where the thread of each step stands when the step is taken. */
  ghost function Callers(s: State, steps: seq<Step>): (ths: seq<Thread>)
    requires Run(s, steps)
    ensures |ths| == |steps|
    decreases |steps|
  {
    if steps == [] then [] else [s.threads[steps[0].t]] + Callers(Apply(s, steps[0]), steps[1..])
  }

  /** A whole run. */
  method PerformAll(tracker: Tracker, ghost s: State, steps: seq<Step>, ths: seq<Thread>)
    requires tracker.Valid() && tracker.Records == s.tracked
    requires Run(s, steps) && ths == Callers(s, steps)
    modifies tracker, tracker.Nodes
    ensures tracker.Valid() && tracker.Records == After(s, steps).tracked
    ensures forall i :: 0 <= i < |tracker.Nodes| ==> tracker.Nodes[i] in old(tracker.Nodes) || fresh(tracker.Nodes[i])
    decreases |steps|
  {
    if steps != [] {
      Perform(tracker, s, steps[0], ths[0]);
      PerformAll(tracker, Apply(s, steps[0]), steps[1..], ths[1..]);
    }
  }

  /** A program of n threads on an empty tracker: between calls, mem_get_cur_list counts the live
      blocks that were not lost. */
  method CountLive(ghost n: nat, steps: seq<Step>, ths: seq<Thread>) returns (count: nat)
    requires Run(Init(n), steps) && ths == Callers(Init(n), steps) && Quiescent(After(Init(n), steps))
    ensures count == |After(Init(n), steps).live| - |After(Init(n), steps).lost|
    ensures count + Costly(steps) >= |After(Init(n), steps).live| >= count
  {
    var tracker := new Tracker();
    PerformAll(tracker, Init(n), steps, ths);
    QuiescentExact(n, steps);
    count := tracker.GetCurList();
  }
}
