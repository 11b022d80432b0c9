// The single-thread engine: the four policies as in-place loops over the
// task array, each proved against its specification function, and the
// integer totals behind the reported averages.

module SingleThread {
  import opened Tasks
  import opened Slices
  import opened NonPreemptive
  import opened ShortestRemaining
  import opened RoundRobin

  /** First-come-first-served in array order. The source keeps the clock in
      a local; it is returned here so that its final value can be stated. */
  method Fcfs(a: array<Task>) returns (time: int)
    modifies a
    ensures time == SumBursts(old(a[..]))
    ensures a[..] == StampStart(FcfsTimes(old(a[..]), 0))
  {
    ghost var s := a[..];
    time := 0;
    for i := 0 to a.Length
      invariant time == Before(s, i)
      invariant forall k :: 0 <= k < i ==> a[k] == Serve(s[k], Before(s, k)).(start := Before(s, k))
      invariant forall k :: i <= k < a.Length ==> a[k] == s[k]
    {
      TotalSnoc(s, i, Burst);
      a[i] := a[i].(start := time);
      a[i] := a[i].(waiting := time);
      time := time + a[i].burst;
      a[i] := a[i].(turnaround := time);
      a[i] := a[i].(response := a[i].waiting);
    }
    assert s[..a.Length] == s;
  }

  /** The exchange sort of sjf, in place: for every `i < j`, row by row,
      swap the two records whenever `a[i].burst > a[j].burst`. */
  method SortByBurst(a: array<Task>)
    modifies a
    ensures a[..] == ExchangeSort(old(a[..]))
  {
    ghost var sorted := ExchangeSort(a[..]);
    var i := 0;
    while i < a.Length - 1
      invariant 0 <= i
      invariant ExchangeFrom(a[..], i) == sorted
    {
      var j := i + 1;
      while j < a.Length
        invariant i < j <= a.Length
        invariant ExchangeFrom(ExchangeRow(a[..], i, j), i + 1) == sorted
      {
        if a[i].burst > a[j].burst {
          ghost var before := a[..];
          var temp := a[i];
          a[i] := a[j];
          a[j] := temp;
          assert a[..] == Swap(before, i, j);
        }
        j := j + 1;
      }
      i := i + 1;
    }
  }

  /** Shortest-job-first: the exchange sort by burst, then
      first-come-first-served over the new order. */
  method Sjf(a: array<Task>) returns (time: int)
    modifies a
    ensures time == SumBursts(old(a[..]))
    ensures a[..] == StampStart(FcfsTimes(ExchangeSort(old(a[..])), 0))
  {
    ExchangeSortSorts(a[..]);
    SortByBurst(a);
    time := Fcfs(a);
  }

  /** The selection scan of srtf: the first task of strictly smallest
      positive remaining time below the sentinel, or -1. */
  method SelectShortest(a: array<Task>) returns (shortest: int)
    ensures shortest == Pick(a[..])
  {
    var minBurst := Sentinel;
    shortest := -1;
    for i := 0 to a.Length
      invariant -1 <= shortest < a.Length
      invariant Scan(a[..], i, minBurst, shortest) == Pick(a[..])
    {
      if a[i].remaining > 0 && a[i].remaining < minBurst {
        minBurst := a[i].remaining;
        shortest := i;
      }
    }
  }

  /** Shortest-remaining-time-first, one tick per iteration, until
      `complete` reaches the number of tasks. */
  method Srtf(a: array<Task>) returns (time: int)
    requires Fresh(a[..]) && Ready(a[..])  // every burst in 1 .. Sentinel - 1
    modifies a
    ensures Schedule(a[..], time) == SrtfRun(old(a[..]), 0)
  {
    time := 0;
    var complete := 0;
    NoneFinished(a[..]);
    while complete != a.Length
      invariant Ready(a[..])
      invariant complete == Total(a[..], Finished)
      invariant SrtfRun(a[..], time) == SrtfRun(old(a[..]), 0)
      decreases Total(a[..], Remaining)
    {
      var shortest := SelectShortest(a);
      PickIsShortest(a[..]);
      AllFinishedIff(a[..]);
      if shortest == -1 {
        // The idle tick of the source: some task is unfinished, and with
        // every remaining time below the sentinel it is eligible.
        assert false;
      }
      ghost var before := a[..];
      var t := a[shortest];
      if t.firstResponse == 0 {
        t := t.(response := time, firstResponse := 1);
      }
      t := t.(remaining := t.remaining - 1);
      time := time + 1;
      if t.remaining == 0 {
        complete := complete + 1;
        t := t.(turnaround := time);
        t := t.(waiting := time - t.burst);
      }
      assert t == Dispatch(before[shortest], 1, time - 1);
      a[shortest] := t;
      assert a[..] == Tick(before, shortest, time - 1);
      TotalUpdate(before, shortest, a[shortest], Finished);
      TotalUpdate(before, shortest, a[shortest], Remaining);
      TotalNonNegative(a[..], Remaining);
    }
    AllFinishedIff(a[..]);
    PickIsShortest(a[..]);
  }

  /** The body of the round-robin inner loop for one task with work left:
      fix the response time on its first slice, then run it for
      `min(remaining, quantum)` and, if that finishes it, record its
      turnaround and waiting times. */
  method GrantSlice(task: Task, quantum: int, time: int) returns (t: Task, clock: int)
    requires quantum > 0 && task.remaining > 0
    ensures t == Dispatch(task, Slice(task, quantum), time)
    ensures clock == time + Slice(task, quantum)
    ensures 0 <= t.remaining < task.remaining
    ensures t.remaining == 0 <==> task.remaining <= quantum
  {
    t, clock := task, time;
    if t.firstResponse == 0 {
      t := t.(response := clock, firstResponse := 1);
    }
    if t.remaining > quantum {
      clock := clock + quantum;
      t := t.(remaining := t.remaining - quantum);
    } else {
      clock := clock + t.remaining;
      t := t.(remaining := 0);
      t := t.(turnaround := clock);
      t := t.(waiting := clock - t.burst);
    }
  }

  /** One pass of the round-robin outer loop: the inner `for` over the
      tasks in index order, granting a slice to each task with work left and
      counting down `remaining_tasks` for each task that finishes. */
  method RrPassInPlace(a: array<Task>, quantum: int, clock: int, count: int) returns (time: int, remainingTasks: int)
    requires quantum > 0 && NonNegative(a[..]) && count == Total(a[..], Unfinished)
    modifies a
    ensures Schedule(a[..], time) == RrPass(old(a[..]), clock, 0, quantum)
    ensures NonNegative(a[..]) && remainingTasks == Total(a[..], Unfinished)
  {
    time, remainingTasks := clock, count;
    for i := 0 to a.Length
      invariant NonNegative(a[..])
      invariant remainingTasks == Total(a[..], Unfinished)
      invariant RrPass(a[..], time, i, quantum) == RrPass(old(a[..]), clock, 0, quantum)
    {
      if a[i].remaining > 0 {
        ghost var s1, c := a[..], time;
        RrPassStep(s1, c, i, quantum);
        var t;
        t, time := GrantSlice(a[i], quantum, time);
        a[i] := t;
        if t.remaining == 0 {
          remainingTasks := remainingTasks - 1;
        }
        assert a[..] == s1[i := Dispatch(s1[i], Slice(s1[i], quantum), c)];
      }
    }
  }

  /** Round-robin: full passes in index order while `remaining_tasks` is
      positive, each unfinished task getting `min(remaining, quantum)`. */
  method Rr(a: array<Task>, quantum: int) returns (time: int)
    requires quantum > 0 && Fresh(a[..])
    modifies a
    ensures Schedule(a[..], time) == RrRun(old(a[..]), 0, quantum)
  {
    time := 0;
    var remainingTasks := a.Length;
    AllUnfinished(a[..]);
    while remainingTasks > 0
      invariant NonNegative(a[..])
      invariant remainingTasks == Total(a[..], Unfinished)
      invariant RrRun(a[..], time, quantum) == RrRun(old(a[..]), 0, quantum)
      decreases Total(a[..], Remaining)
    {
      RrRunStep(a[..], time, quantum);
      time, remainingTasks := RrPassInPlace(a, quantum, time, remainingTasks);
    }
    TotalNonNegative(a[..], Unfinished);
  }

  /** The integer totals that `calculate_average_times` divides by the
      number of tasks (the division is in floating point and not modelled). */
  method TotalTimes(a: array<Task>) returns (totalWaiting: int, totalTurnaround: int, totalResponse: int)
    ensures totalWaiting == Total(a[..], Waiting)
    ensures totalTurnaround == Total(a[..], Turnaround)
    ensures totalResponse == Total(a[..], Response)
  {
    totalWaiting, totalTurnaround, totalResponse := 0, 0, 0;
    for i := 0 to a.Length
      invariant totalWaiting == Total(a[..i], Waiting)
      invariant totalTurnaround == Total(a[..i], Turnaround)
      invariant totalResponse == Total(a[..i], Response)
    {
      TotalSnoc(a[..], i, Waiting);
      TotalSnoc(a[..], i, Turnaround);
      TotalSnoc(a[..], i, Response);
      assert a[..][..i + 1] == a[..i + 1] && a[..][..i] == a[..i];
      totalWaiting := totalWaiting + a[i].waiting;
      totalTurnaround := totalTurnaround + a[i].turnaround;
      totalResponse := totalResponse + a[i].response;
    }
    assert a[..a.Length] == a[..];
  }
}
