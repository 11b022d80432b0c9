// The multi-thread engine. Every thread it creates is joined before the
// next one starts, and SRTF and RR run on the calling thread, so it is
// modelled as the sequential program those threads and mutex sections
// serialise to. Its one piece of shared state is the process-wide
// `global_time` that first-come-first-served advances.

module MultiThread {
  import opened Tasks
  import opened Slices
  import opened NonPreemptive
  import opened RoundRobin
  import opened ShortestRemaining
  import SingleThread

  /** The process-wide state of the multi-thread engine: `global_time`,
      zero at start-up and never reset, so a second first-come-first-served
      run in the same process would continue from where the first ended. */
  class Scheduler {
    var globalTime: int

    constructor ()
      ensures globalTime == 0
    {
      globalTime := 0;
    }

    /** The thread body `run_task_fcfs` for task `i`, inside its mutex
        section: waiting and response are the shared clock on entry, the
        clock advances by the burst, and turnaround is the clock after it.
        Nothing else in the array changes. */
    method RunTaskFcfs(a: array<Task>, i: nat)
      requires i < a.Length
      modifies this, a
      ensures a[..] == old(a[..])[i := Serve(old(a[i]), old(globalTime))]
      ensures globalTime == old(globalTime) + old(a[i]).burst
    {
      a[i] := a[i].(waiting := globalTime);
      a[i] := a[i].(response := a[i].waiting);
      globalTime := globalTime + a[i].burst;
      a[i] := a[i].(turnaround := globalTime);
    }

    /** `fcfs_multithread`: one thread per task, each joined before the next
        is created, so the tasks run strictly in index order. The schedule is
        first-come-first-served from the shared clock's value at the call,
        and the shared clock ends advanced by the sum of the bursts. */
    method FcfsMultithread(a: array<Task>)
      modifies this, a
      ensures a[..] == FcfsTimes(old(a[..]), old(globalTime))
      ensures globalTime == old(globalTime) + SumBursts(old(a[..]))
    {
      ghost var s, g := a[..], globalTime;
      for i := 0 to a.Length
        invariant globalTime == g + Before(s, i)
        invariant forall k :: 0 <= k < i ==> a[k] == Serve(s[k], g + Before(s, k))
        invariant forall k :: i <= k < a.Length ==> a[k] == s[k]
      {
        TotalSnoc(s, i, Burst);
        RunTaskFcfs(a, i);
      }
      assert s[..a.Length] == s;
    }

    /** `sjf_multithread`: the same unstable exchange sort by burst, then
        `fcfs_multithread` over the sorted order. */
    method SjfMultithread(a: array<Task>)
      modifies this, a
      ensures a[..] == FcfsTimes(ExchangeSort(old(a[..])), old(globalTime))
      ensures globalTime == old(globalTime) + SumBursts(old(a[..]))
    {
      ExchangeSortSorts(a[..]);
      SingleThread.SortByBurst(a);
      FcfsMultithread(a);
    }
  }

  /** Started on a fresh process, the multi-thread first-come-first-served
      and shortest-job-first schedules are the single-thread ones with only
      `start_time` left unwritten; from any other shared clock value they
      are those schedules shifted by that value. */
  lemma MultithreadMatchesSingle(s: seq<Task>, clock: int)
    ensures |FcfsTimes(s, clock)| == |StampStart(FcfsTimes(s, 0))| == |s|
    ensures forall i :: 0 <= i < |s| ==>
      var single := StampStart(FcfsTimes(s, 0))[i];
      FcfsTimes(s, clock)[i] ==
        single.(start := s[i].start, waiting := single.waiting + clock,
                response := single.response + clock, turnaround := single.turnaround + clock)
  {
    FcfsShift(s, clock);
  }

  /** `srtf_multithread` is a copy of the single-thread `srtf` (the extra
      `check` flag it sets is never read), with its own local clock
      starting at 0: its schedule is the single-thread one. */
  method SrtfMultithread(a: array<Task>)
    requires Fresh(a[..]) && Ready(a[..])
    modifies a
    ensures a[..] == SrtfRun(old(a[..]), 0).tasks
  {
    var time := SingleThread.Srtf(a);
  }

  /** One slice of `rr_multithread` for a task with work left: the response
      time is fixed under the mutex on its first slice, the slice is
      `min(remaining, quantum)`, and, under the mutex again, the clock
      advances by it, the remaining time drops by it, and a task that
      reaches zero records turnaround and waiting. */
  method SliceLocked(task: Task, quantum: int, time: int) returns (t: Task, clock: int)
    requires quantum > 0 && task.remaining > 0
    ensures t == Dispatch(task, Slice(task, quantum), time)
    ensures clock == time + Slice(task, quantum)
    ensures 0 <= t.remaining < task.remaining
    ensures t.remaining == 0 <==> task.remaining <= quantum
  {
    t, clock := task, time;
    if t.firstResponse == 0 {
      t := t.(response := clock, firstResponse := 1);
    }
    var slice := if t.remaining > quantum then quantum else t.remaining;
    clock := clock + slice;
    t := t.(remaining := t.remaining - slice);
    if t.remaining == 0 {
      t := t.(turnaround := clock);
      t := t.(waiting := clock - t.burst);
    }
  }

  /** One pass of the `rr_multithread` outer loop over the tasks in index
      order, counting down `remaining_tasks` for each task that finishes. */
  method RrPassMultithread(a: array<Task>, quantum: int, clock: int, count: int)
    returns (time: int, remainingTasks: int)
    requires quantum > 0 && NonNegative(a[..]) && count == Total(a[..], Unfinished)
    modifies a
    ensures Schedule(a[..], time) == RrPass(old(a[..]), clock, 0, quantum)
    ensures NonNegative(a[..]) && remainingTasks == Total(a[..], Unfinished)
  {
    time, remainingTasks := clock, count;
    for i := 0 to a.Length
      invariant NonNegative(a[..])
      invariant remainingTasks == Total(a[..], Unfinished)
      invariant RrPass(a[..], time, i, quantum) == RrPass(old(a[..]), clock, 0, quantum)
    {
      if a[i].remaining > 0 {
        ghost var s1, c := a[..], time;
        RrPassStep(s1, c, i, quantum);
        var t;
        t, time := SliceLocked(a[i], quantum, time);
        a[i] := t;
        if t.remaining == 0 {
          remainingTasks := remainingTasks - 1;
        }
        assert a[..] == s1[i := Dispatch(s1[i], Slice(s1[i], quantum), c)];
      }
    }
  }

  /** `rr_multithread`: passes until `remaining_tasks` reaches zero, with a
      local clock starting at 0, so its schedule is the single-thread one. */
  method RrMultithread(a: array<Task>, quantum: int)
    requires quantum > 0 && Fresh(a[..])
    modifies a
    ensures a[..] == RrRun(old(a[..]), 0, quantum).tasks
  {
    var time := 0;
    var remainingTasks := a.Length;
    AllUnfinished(a[..]);
    while remainingTasks > 0
      invariant NonNegative(a[..])
      invariant remainingTasks == Total(a[..], Unfinished)
      invariant RrRun(a[..], time, quantum) == RrRun(old(a[..]), 0, quantum)
      decreases Total(a[..], Remaining)
    {
      RrRunStep(a[..], time, quantum);
      time, remainingTasks := RrPassMultithread(a, quantum, time, remainingTasks);
    }
    TotalNonNegative(a[..], Unfinished);
  }
}
