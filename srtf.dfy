// Specification of shortest-remaining-time-first: one-unit ticks, each
// given to the lowest-indexed task of minimal positive remaining time.

module ShortestRemaining {
  import opened Tasks
  import opened Slices

  /** Initial `min_burst` of the selection scan: a task is only eligible
      while its remaining time is below it. */
  const Sentinel := 999

  /** The selection scan from index `i`, with the best remaining time seen so
      far `minBurst` and its index `shortest` (-1 for none). */
  function Scan(s: seq<Task>, i: nat, minBurst: int, shortest: int): (k: int)
    requires i <= |s| && -1 <= shortest < |s|
    ensures -1 <= k < |s|
    decreases |s| - i
  {
    if i == |s| then shortest
    else if s[i].remaining > 0 && s[i].remaining < minBurst then Scan(s, i + 1, s[i].remaining, i)
    else Scan(s, i + 1, minBurst, shortest)
  }

  /** The task chosen for the next tick, or -1 when no task is eligible. */
  function Pick(s: seq<Task>): (k: int)
    ensures -1 <= k < |s|
  {
    Scan(s, 0, Sentinel, -1)
  }

  predicate Eligible(t: Task)
  {
    0 < t.remaining < Sentinel
  }

  predicate NoneEligible(s: seq<Task>, n: nat)
    requires n <= |s|
  {
    forall j :: 0 <= j < n ==> !Eligible(s[j])
  }

  /** `k` is the selection rule's choice among the first `n` tasks: eligible,
      strictly shorter than every earlier task with work left, and no longer
      than any later one. */
  predicate ShortestAmong(s: seq<Task>, n: nat, k: int)
    requires n <= |s|
  {
    0 <= k < n && Eligible(s[k]) &&
    (forall j :: 0 <= j < k && s[j].remaining > 0 ==> s[k].remaining < s[j].remaining) &&
    (forall j :: k < j < n && s[j].remaining > 0 ==> s[k].remaining <= s[j].remaining)
  }

  lemma {:induction false} ScanFinds(s: seq<Task>, i: nat, minBurst: int, shortest: int)
    requires i <= |s| && -1 <= shortest < |s|
    requires shortest == -1 ==> minBurst == Sentinel && NoneEligible(s, i)
    requires shortest != -1 ==> ShortestAmong(s, i, shortest) && minBurst == s[shortest].remaining
    ensures Scan(s, i, minBurst, shortest) == -1 ==> NoneEligible(s, |s|)
    ensures Scan(s, i, minBurst, shortest) != -1 ==> ShortestAmong(s, |s|, Scan(s, i, minBurst, shortest))
    decreases |s| - i
  {
    if i < |s| {
      if s[i].remaining > 0 && s[i].remaining < minBurst {
        ScanFinds(s, i + 1, s[i].remaining, i);
      } else {
        ScanFinds(s, i + 1, minBurst, shortest);
      }
    }
  }

  /** The selection rule: the scan returns -1 exactly when no task is
      eligible, and otherwise the one task that is the shortest among all
      (lowest index among the minimal positive remaining times). */
  lemma PickIsShortest(s: seq<Task>)
    ensures -1 <= Pick(s) < |s|
    ensures Pick(s) == -1 <==> NoneEligible(s, |s|)
    ensures Pick(s) != -1 ==> ShortestAmong(s, |s|, Pick(s))
    ensures forall k :: ShortestAmong(s, |s|, k) ==> k == Pick(s)
  {
    ScanFinds(s, 0, Sentinel, -1);
  }

  /** Every remaining time lies in the range the loop can finish from. */
  predicate Ready(s: seq<Task>)
  {
    forall i :: 0 <= i < |s| ==> 0 <= s[i].remaining < Sentinel
  }

  /** One tick given to task `k`. */
  function Tick(s: seq<Task>, k: nat, clock: int): seq<Task>
    requires k < |s|
  {
    s[k := Dispatch(s[k], 1, clock)]
  }

  /** The whole loop from state (`s`, `clock`): tick until nothing is
      eligible. */
  function SrtfRun(s: seq<Task>, clock: int): Schedule
    requires Ready(s)
    decreases Total(s, Remaining)
  {
    PickIsShortest(s);
    var k := Pick(s);
    if k == -1 then Schedule(s, clock)
    else
      TotalUpdate(s, k, Dispatch(s[k], 1, clock), Remaining);
      TotalNonNegative(Tick(s, k, clock), Remaining);
      SrtfRun(Tick(s, k, clock), clock + 1)
  }

  /** A tick changes only the chosen task: its remaining time drops by one;
      its response time is kept when it has run before and is the clock
      before the tick otherwise; on reaching zero it finishes at the clock
      after the tick. */
  lemma TickChangesOnlyChosen(s: seq<Task>, clock: int)
    requires Ready(s) && Pick(s) != -1
    ensures 0 <= Pick(s) < |s|
    ensures forall j :: 0 <= j < |s| && j != Pick(s) ==> Tick(s, Pick(s), clock)[j] == s[j]
    ensures Tick(s, Pick(s), clock)[Pick(s)].remaining == s[Pick(s)].remaining - 1
    ensures Tick(s, Pick(s), clock)[Pick(s)].response ==
      if s[Pick(s)].firstResponse == 0 then clock else s[Pick(s)].response
    ensures Tick(s, Pick(s), clock)[Pick(s)].remaining == 0 ==>
      Tick(s, Pick(s), clock)[Pick(s)].turnaround == clock + 1 &&
      Tick(s, Pick(s), clock)[Pick(s)].waiting == clock + 1 - s[Pick(s)].burst
    ensures Ready(Tick(s, Pick(s), clock))
    ensures SrtfRun(s, clock) == SrtfRun(Tick(s, Pick(s), clock), clock + 1)
  {
    PickIsShortest(s);
  }

  /** The clock advances by exactly the outstanding work: no idle ticks. */
  lemma {:induction false} SrtfClockAdvancesByWork(s: seq<Task>, clock: int)
    requires Ready(s)
    ensures SrtfRun(s, clock).clock == clock + Total(s, Remaining)
    ensures forall i :: 0 <= i < |SrtfRun(s, clock).tasks| ==> SrtfRun(s, clock).tasks[i].remaining == 0
    decreases Total(s, Remaining)
  {
    PickIsShortest(s);
    var k := Pick(s);
    if k == -1 {
      forall i | 0 <= i < |s| ensures Remaining(s[i]) == 0 { }
      TotalZeroIff(s, Remaining);
    } else {
      TotalUpdate(s, k, Dispatch(s[k], 1, clock), Remaining);
      TotalNonNegative(Tick(s, k, clock), Remaining);
      SrtfClockAdvancesByWork(Tick(s, k, clock), clock + 1);
    }
  }

  /** The loop keeps the bookkeeping invariant. */
  lemma {:induction false} SrtfKeepsProgress(orig: seq<Task>, s: seq<Task>, clock: int)
    requires Ready(s) && Progress(orig, s, clock)
    ensures Progress(orig, SrtfRun(s, clock).tasks, SrtfRun(s, clock).clock)
    decreases Total(s, Remaining)
  {
    PickIsShortest(s);
    var k := Pick(s);
    if k != -1 {
      TotalUpdate(s, k, Dispatch(s[k], 1, clock), Remaining);
      TotalNonNegative(Tick(s, k, clock), Remaining);
      DispatchKeepsProgress(orig, s, clock, k, 1);
      SrtfKeepsProgress(orig, Tick(s, k, clock), clock + 1);
    }
  }

  /** Shortest-remaining-time-first on loaded tasks with bursts in 1..998
      ends with every task finished, the clock at the sum of the bursts, no
      task dropped or reordered, and per task: `turnaround == waiting +
      burst`, a response fixed at a clock that leaves room for the whole
      burst before completion (so `response < turnaround`), and a completion
      no later than the final clock. */
  lemma SrtfCompletes(s: seq<Task>)
    requires Fresh(s) && forall i :: 0 <= i < |s| ==> s[i].burst < Sentinel
    ensures Ready(s)
    ensures |SrtfRun(s, 0).tasks| == |s|
    ensures SrtfRun(s, 0).clock == SumBursts(s)
    ensures forall i :: 0 <= i < |s| ==>
      var t := SrtfRun(s, 0).tasks[i];
      t.tid == s[i].tid && t.burst == s[i].burst && t.start == s[i].start &&
      t.remaining == 0 && t.firstResponse == 1 &&
      t.turnaround == t.waiting + t.burst &&
      0 <= t.response && t.response + t.burst <= t.turnaround <= SrtfRun(s, 0).clock
  {
    ProgressStarts(s);
    SrtfKeepsProgress(s, s, 0);
    SrtfClockAdvancesByWork(s, 0);
    var r := SrtfRun(s, 0);
    ProgressFinishes(s, r.tasks, r.clock);
    forall i | 0 <= i < |s| ensures r.tasks[i].firstResponse == 1 {
      assert Tracks(s[i], r.tasks[i], r.clock);
    }
  }

  /** A task that has run before keeps its response time to the end. */
  lemma {:induction false} SrtfResponseFixed(s: seq<Task>, clock: int, i: nat)
    requires Ready(s) && i < |s| && s[i].firstResponse != 0
    ensures |SrtfRun(s, clock).tasks| == |s|
    ensures SrtfRun(s, clock).tasks[i].response == s[i].response
    ensures SrtfRun(s, clock).tasks[i].firstResponse == s[i].firstResponse
    decreases Total(s, Remaining)
  {
    PickIsShortest(s);
    var k := Pick(s);
    if k != -1 {
      TotalUpdate(s, k, Dispatch(s[k], 1, clock), Remaining);
      TotalNonNegative(Tick(s, k, clock), Remaining);
      SrtfResponseFixed(Tick(s, k, clock), clock + 1, i);
    }
  }

  /** A finished task is never touched again. */
  lemma {:induction false} SrtfFinishedFrozen(s: seq<Task>, clock: int, i: nat)
    requires Ready(s) && i < |s| && s[i].remaining == 0
    ensures |SrtfRun(s, clock).tasks| == |s|
    ensures SrtfRun(s, clock).tasks[i] == s[i]
    decreases Total(s, Remaining)
  {
    PickIsShortest(s);
    var k := Pick(s);
    if k != -1 {
      TotalUpdate(s, k, Dispatch(s[k], 1, clock), Remaining);
      TotalNonNegative(Tick(s, k, clock), Remaining);
      SrtfFinishedFrozen(Tick(s, k, clock), clock + 1, i);
    }
  }

  /** The response time of the chosen task, on its first dispatch, is the
      clock before that tick, and nothing later overwrites it. */
  lemma SrtfResponseAtFirstDispatch(s: seq<Task>, clock: int)
    requires Ready(s) && Pick(s) != -1 && s[Pick(s)].firstResponse == 0
    ensures 0 <= Pick(s) < |SrtfRun(s, clock).tasks|
    ensures SrtfRun(s, clock).tasks[Pick(s)].response == clock
  {
    PickIsShortest(s);
    var k := Pick(s);
    var s' := Tick(s, k, clock);
    TotalUpdate(s, k, Dispatch(s[k], 1, clock), Remaining);
    TotalNonNegative(s', Remaining);
    SrtfResponseFixed(s', clock + 1, k);
  }

  /** A task's last tick fixes its turnaround to the clock after the tick
      and its waiting time to turnaround minus burst, for good. */
  lemma SrtfCompletionAtLastTick(s: seq<Task>, clock: int)
    requires Ready(s) && Pick(s) != -1 && s[Pick(s)].remaining == 1
    ensures 0 <= Pick(s) < |SrtfRun(s, clock).tasks|
    ensures SrtfRun(s, clock).tasks[Pick(s)].turnaround == clock + 1
    ensures SrtfRun(s, clock).tasks[Pick(s)].waiting == clock + 1 - s[Pick(s)].burst
  {
    PickIsShortest(s);
    var k := Pick(s);
    var s' := Tick(s, k, clock);
    TotalUpdate(s, k, Dispatch(s[k], 1, clock), Remaining);
    TotalNonNegative(s', Remaining);
    SrtfFinishedFrozen(s', clock + 1, k);
  }
}
