// Specification of round-robin: repeated passes over the tasks in index
// order, each unfinished task getting one slice of at most `quantum` units.

module RoundRobin {
  import opened Tasks
  import opened Slices

  /** The slice a task with work left is granted: `min(remaining, quantum)`. */
  function Slice(t: Task, quantum: int): int
  {
    if t.remaining > quantum then quantum else t.remaining
  }

  /** Remaining times are never negative. */
  predicate NonNegative(s: seq<Task>)
  {
    forall i :: 0 <= i < |s| ==> s[i].remaining >= 0
  }

  /** The rest of one pass (the inner `for` loop) from index `i`. */
  function RrPass(s: seq<Task>, clock: int, i: nat, quantum: int): Schedule
    requires i <= |s|
    decreases |s| - i
  {
    if i == |s| then Schedule(s, clock)
    else if s[i].remaining > 0 then
      RrPass(s[i := Dispatch(s[i], Slice(s[i], quantum), clock)], clock + Slice(s[i], quantum), i + 1, quantum)
    else RrPass(s, clock, i + 1, quantum)
  }

  /** One step of the inner loop on a task with work left: the pass goes on
      from the next index with that task's slice granted, remaining times
      stay non-negative, and the `remaining_tasks` count drops by one
      exactly when the slice finishes the task. */
  lemma RrPassStep(s: seq<Task>, clock: int, i: nat, quantum: int)
    requires i < |s| && quantum > 0 && NonNegative(s) && s[i].remaining > 0
    ensures var s' := s[i := Dispatch(s[i], Slice(s[i], quantum), clock)];
      RrPass(s, clock, i, quantum) == RrPass(s', clock + Slice(s[i], quantum), i + 1, quantum) &&
      NonNegative(s') &&
      Total(s', Unfinished) == Total(s, Unfinished) - (if s[i].remaining <= quantum then 1 else 0)
  {
    var t := Dispatch(s[i], Slice(s[i], quantum), clock);
    TotalUpdate(s, i, t, Unfinished);
  }

  /** Time taken by the slices of the tasks in `[i, j)` during one pass. */
  function PassTime(s: seq<Task>, i: nat, j: nat, quantum: int): int
    requires i <= j <= |s|
    decreases j - i
  {
    if i == j then 0
    else (if s[i].remaining > 0 then Slice(s[i], quantum) else 0) + PassTime(s, i + 1, j, quantum)
  }

  lemma {:induction false} PassTimeFrame(s: seq<Task>, u: seq<Task>, i: nat, quantum: int)
    requires i <= |s| == |u|
    requires forall k :: i <= k < |s| ==> s[k] == u[k]
    ensures forall j :: i <= j <= |s| ==> PassTime(s, i, j, quantum) == PassTime(u, i, j, quantum)
    decreases |s| - i
  {
    if i < |s| {
      PassTimeFrame(s, u, i + 1, quantum);
    }
  }

  /** One pass in closed form: the tasks before `i` are untouched; every
      task from `i` on with work left is dispatched once, in index order,
      at the clock plus the slices granted before it in this pass; the
      clock ends advanced by all the slices of the pass. */
  lemma {:induction false} RrPassEffect(s: seq<Task>, clock: int, i: nat, quantum: int)
    requires i <= |s|
    ensures |RrPass(s, clock, i, quantum).tasks| == |s|
    ensures RrPass(s, clock, i, quantum).clock == clock + PassTime(s, i, |s|, quantum)
    ensures forall j :: 0 <= j < i ==> RrPass(s, clock, i, quantum).tasks[j] == s[j]
    ensures forall j :: i <= j < |s| ==>
      RrPass(s, clock, i, quantum).tasks[j] ==
        if s[j].remaining > 0
        then Dispatch(s[j], Slice(s[j], quantum), clock + PassTime(s, i, j, quantum))
        else s[j]
    decreases |s| - i
  {
    if i < |s| {
      var s' := if s[i].remaining > 0 then s[i := Dispatch(s[i], Slice(s[i], quantum), clock)] else s;
      var c' := if s[i].remaining > 0 then clock + Slice(s[i], quantum) else clock;
      RrPassEffect(s', c', i + 1, quantum);
      PassTimeFrame(s', s, i + 1, quantum);
    }
  }

  /** What one full pass grants: every task with work left gets exactly one
      slice of `min(remaining, quantum)`, never an empty one; a task with
      at most `quantum` left (an exact multiple of the quantum included)
      finishes in that slice, at the clock after it; finished tasks are
      skipped. */
  lemma RrPassSlices(s: seq<Task>, clock: int, quantum: int)
    requires quantum > 0
    ensures |RrPass(s, clock, 0, quantum).tasks| == |s|
    ensures forall j :: 0 <= j < |s| && s[j].remaining <= 0 ==> RrPass(s, clock, 0, quantum).tasks[j] == s[j]
    ensures forall j :: 0 <= j < |s| && s[j].remaining > 0 ==>
      1 <= Slice(s[j], quantum) <= quantum && Slice(s[j], quantum) <= s[j].remaining &&
      RrPass(s, clock, 0, quantum).tasks[j].remaining == s[j].remaining - Slice(s[j], quantum)
    ensures forall j :: 0 <= j < |s| && 0 < s[j].remaining <= quantum ==>
      RrPass(s, clock, 0, quantum).tasks[j].remaining == 0 &&
      RrPass(s, clock, 0, quantum).tasks[j].turnaround == clock + PassTime(s, 0, j + 1, quantum)
  {
    RrPassEffect(s, clock, 0, quantum);
    forall j | 0 <= j < |s| ensures PassTime(s, 0, j + 1, quantum) ==
      PassTime(s, 0, j, quantum) + (if s[j].remaining > 0 then Slice(s[j], quantum) else 0)
    {
      PassTimeSnoc(s, 0, j, quantum);
    }
  }

  lemma {:induction false} PassTimeSnoc(s: seq<Task>, i: nat, j: nat, quantum: int)
    requires i <= j < |s|
    ensures PassTime(s, i, j + 1, quantum) ==
      PassTime(s, i, j, quantum) + (if s[j].remaining > 0 then Slice(s[j], quantum) else 0)
    decreases j - i
  {
    if i < j {
      PassTimeSnoc(s, i + 1, j, quantum);
    }
  }

  /** A pass trades work for clock one to one, and makes progress when some
      task from `i` on has work left. */
  lemma {:induction false} RrPassWork(s: seq<Task>, clock: int, i: nat, quantum: int)
    requires i <= |s| && quantum > 0 && NonNegative(s)
    ensures NonNegative(RrPass(s, clock, i, quantum).tasks)
    ensures RrPass(s, clock, i, quantum).clock >= clock
    ensures Total(RrPass(s, clock, i, quantum).tasks, Remaining) ==
      Total(s, Remaining) - (RrPass(s, clock, i, quantum).clock - clock)
    ensures (exists j :: i <= j < |s| && s[j].remaining > 0) ==> RrPass(s, clock, i, quantum).clock > clock
    decreases |s| - i
  {
    if i < |s| {
      if s[i].remaining > 0 {
        var q := Slice(s[i], quantum);
        TotalUpdate(s, i, Dispatch(s[i], q, clock), Remaining);
        RrPassWork(s[i := Dispatch(s[i], q, clock)], clock + q, i + 1, quantum);
      } else {
        RrPassWork(s, clock, i + 1, quantum);
      }
    }
  }

  /** Some task has work left whenever the `remaining_tasks` count is not
      zero. */
  lemma SomeUnfinished(s: seq<Task>)
    requires Total(s, Unfinished) != 0
    ensures exists j :: 0 <= j < |s| && s[j].remaining > 0
  {
    TotalZeroIff(s, Unfinished);
  }

  /** The whole loop from state (`s`, `clock`): full passes while
      `remaining_tasks` (the number of tasks with work left) is positive. */
  function RrRun(s: seq<Task>, clock: int, quantum: int): Schedule
    requires quantum > 0 && NonNegative(s)
    decreases Total(s, Remaining)
  {
    if Total(s, Unfinished) == 0 then Schedule(s, clock)
    else
      SomeUnfinished(s);
      RrPassWork(s, clock, 0, quantum);
      TotalNonNegative(s, Remaining);
      var p := RrPass(s, clock, 0, quantum);
      TotalNonNegative(p.tasks, Remaining);
      RrRun(p.tasks, p.clock, quantum)
  }

  /** One iteration of the outer loop: while some task has work left, a
      full pass strictly reduces the outstanding work, and the loop goes on
      from the state the pass leaves. */
  lemma RrRunStep(s: seq<Task>, clock: int, quantum: int)
    requires quantum > 0 && NonNegative(s) && Total(s, Unfinished) != 0
    ensures NonNegative(RrPass(s, clock, 0, quantum).tasks)
    ensures 0 <= Total(RrPass(s, clock, 0, quantum).tasks, Remaining) < Total(s, Remaining)
    ensures RrRun(s, clock, quantum) ==
      RrRun(RrPass(s, clock, 0, quantum).tasks, RrPass(s, clock, 0, quantum).clock, quantum)
  {
    SomeUnfinished(s);
    RrPassWork(s, clock, 0, quantum);
    TotalNonNegative(RrPass(s, clock, 0, quantum).tasks, Remaining);
  }

  /** The clock advances by exactly the outstanding work and every task
      ends finished. */
  lemma {:induction false} RrClockAdvancesByWork(s: seq<Task>, clock: int, quantum: int)
    requires quantum > 0 && NonNegative(s)
    ensures RrRun(s, clock, quantum).clock == clock + Total(s, Remaining)
    ensures forall i :: 0 <= i < |RrRun(s, clock, quantum).tasks| ==> RrRun(s, clock, quantum).tasks[i].remaining == 0
    decreases Total(s, Remaining)
  {
    if Total(s, Unfinished) == 0 {
      TotalZeroIff(s, Unfinished);
      forall i | 0 <= i < |s| ensures Remaining(s[i]) == 0 {
        assert Unfinished(s[i]) == 0;
      }
      TotalZeroIff(s, Remaining);
    } else {
      SomeUnfinished(s);
      RrPassWork(s, clock, 0, quantum);
      TotalNonNegative(s, Remaining);
      var p := RrPass(s, clock, 0, quantum);
      TotalNonNegative(p.tasks, Remaining);
      RrClockAdvancesByWork(p.tasks, p.clock, quantum);
    }
  }

  lemma {:induction false} RrPassKeepsProgress(orig: seq<Task>, s: seq<Task>, clock: int, i: nat, quantum: int)
    requires i <= |s| && quantum > 0 && Progress(orig, s, clock)
    ensures Progress(orig, RrPass(s, clock, i, quantum).tasks, RrPass(s, clock, i, quantum).clock)
    decreases |s| - i
  {
    if i < |s| {
      if s[i].remaining > 0 {
        var q := Slice(s[i], quantum);
        DispatchKeepsProgress(orig, s, clock, i, q);
        RrPassKeepsProgress(orig, s[i := Dispatch(s[i], q, clock)], clock + q, i + 1, quantum);
      } else {
        RrPassKeepsProgress(orig, s, clock, i + 1, quantum);
      }
    }
  }

  /** The loop keeps the bookkeeping invariant. */
  lemma {:induction false} RrKeepsProgress(orig: seq<Task>, s: seq<Task>, clock: int, quantum: int)
    requires quantum > 0 && NonNegative(s) && Progress(orig, s, clock)
    ensures Progress(orig, RrRun(s, clock, quantum).tasks, RrRun(s, clock, quantum).clock)
    decreases Total(s, Remaining)
  {
    if Total(s, Unfinished) != 0 {
      SomeUnfinished(s);
      RrPassWork(s, clock, 0, quantum);
      TotalNonNegative(s, Remaining);
      var p := RrPass(s, clock, 0, quantum);
      TotalNonNegative(p.tasks, Remaining);
      RrPassKeepsProgress(orig, s, clock, 0, quantum);
      RrKeepsProgress(orig, p.tasks, p.clock, quantum);
    }
  }

  /** Round-robin on loaded tasks with bursts of at least 1 and a positive
      quantum ends with every task finished, the clock at the sum of the
      bursts, no task dropped or reordered, and per task: `turnaround ==
      waiting + burst`, a response fixed at a clock that leaves room for the
      whole burst before completion (so `response < turnaround`), and a
      completion no later than the final clock. */
  lemma RrCompletes(s: seq<Task>, quantum: int)
    requires Fresh(s) && quantum > 0
    ensures NonNegative(s)
    ensures |RrRun(s, 0, quantum).tasks| == |s|
    ensures RrRun(s, 0, quantum).clock == SumBursts(s)
    ensures forall i :: 0 <= i < |s| ==>
      var t := RrRun(s, 0, quantum).tasks[i];
      t.tid == s[i].tid && t.burst == s[i].burst && t.start == s[i].start &&
      t.remaining == 0 && t.firstResponse == 1 &&
      t.turnaround == t.waiting + t.burst &&
      0 <= t.response && t.response + t.burst <= t.turnaround <= RrRun(s, 0, quantum).clock
  {
    ProgressStarts(s);
    RrKeepsProgress(s, s, 0, quantum);
    RrClockAdvancesByWork(s, 0, quantum);
    var r := RrRun(s, 0, quantum);
    ProgressFinishes(s, r.tasks, r.clock);
    forall i | 0 <= i < |s| ensures r.tasks[i].firstResponse == 1 {
      assert Tracks(s[i], r.tasks[i], r.clock);
    }
  }

  /** A finished task is skipped by every later pass. */
  lemma {:induction false} RrFinishedFrozen(s: seq<Task>, clock: int, quantum: int, j: nat)
    requires quantum > 0 && NonNegative(s) && j < |s| && s[j].remaining == 0
    ensures |RrRun(s, clock, quantum).tasks| == |s|
    ensures RrRun(s, clock, quantum).tasks[j] == s[j]
    decreases Total(s, Remaining)
  {
    if Total(s, Unfinished) != 0 {
      SomeUnfinished(s);
      RrPassWork(s, clock, 0, quantum);
      RrPassEffect(s, clock, 0, quantum);
      TotalNonNegative(s, Remaining);
      var p := RrPass(s, clock, 0, quantum);
      TotalNonNegative(p.tasks, Remaining);
      RrFinishedFrozen(p.tasks, p.clock, quantum, j);
    }
  }

  /** A task that has run before keeps its response time to the end. */
  lemma {:induction false} RrResponseFixed(s: seq<Task>, clock: int, quantum: int, j: nat)
    requires quantum > 0 && NonNegative(s) && j < |s| && s[j].firstResponse != 0
    ensures |RrRun(s, clock, quantum).tasks| == |s|
    ensures RrRun(s, clock, quantum).tasks[j].response == s[j].response
    ensures RrRun(s, clock, quantum).tasks[j].firstResponse == s[j].firstResponse
    decreases Total(s, Remaining)
  {
    if Total(s, Unfinished) != 0 {
      SomeUnfinished(s);
      RrPassWork(s, clock, 0, quantum);
      RrPassEffect(s, clock, 0, quantum);
      TotalNonNegative(s, Remaining);
      var p := RrPass(s, clock, 0, quantum);
      TotalNonNegative(p.tasks, Remaining);
      RrResponseFixed(p.tasks, p.clock, quantum, j);
    }
  }

  /** A task with work left that has never run gets its response time in
      the coming pass: the clock when its slice starts. Later passes never
      overwrite it. */
  lemma RrResponseAtFirstSlice(s: seq<Task>, clock: int, quantum: int, j: nat)
    requires quantum > 0 && NonNegative(s) && j < |s|
    requires s[j].remaining > 0 && s[j].firstResponse == 0
    ensures |RrRun(s, clock, quantum).tasks| == |s|
    ensures RrRun(s, clock, quantum).tasks[j].response == clock + PassTime(s, 0, j, quantum)
  {
    TotalZeroIff(s, Unfinished);
    assert Unfinished(s[j]) != 0;
    RrPassWork(s, clock, 0, quantum);
    RrPassEffect(s, clock, 0, quantum);
    var p := RrPass(s, clock, 0, quantum);
    RrResponseFixed(p.tasks, p.clock, quantum, j);
  }

  /** A task with at most one quantum left finishes in the coming pass, at
      the clock after its slice, and keeps that turnaround and waiting time
      to the end. */
  lemma RrCompletionAtLastSlice(s: seq<Task>, clock: int, quantum: int, j: nat)
    requires quantum > 0 && NonNegative(s) && j < |s|
    requires 0 < s[j].remaining <= quantum
    ensures |RrRun(s, clock, quantum).tasks| == |s|
    ensures RrRun(s, clock, quantum).tasks[j].turnaround == clock + PassTime(s, 0, j + 1, quantum)
    ensures RrRun(s, clock, quantum).tasks[j].waiting ==
      clock + PassTime(s, 0, j + 1, quantum) - s[j].burst
  {
    TotalZeroIff(s, Unfinished);
    assert Unfinished(s[j]) != 0;
    RrPassWork(s, clock, 0, quantum);
    RrPassEffect(s, clock, 0, quantum);
    PassTimeSnoc(s, 0, j, quantum);
    var p := RrPass(s, clock, 0, quantum);
    RrFinishedFrozen(p.tasks, p.clock, quantum, j);
  }
}
