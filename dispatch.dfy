// What the two preemptive policies share: granting a task a slice of the
// processor, and the bookkeeping invariant that every granted slice keeps.

module Slices {
  import opened Tasks

  /** A simulation state: the task list and the simulated clock. */
  datatype Schedule = Schedule(tasks: seq<Task>, clock: int)

  /** Run `t` for `slice` units starting at `clock`. The first dispatch fixes
      the response time to the clock before the slice; reaching zero
      remaining time fixes turnaround to the clock after the slice and
      waiting to turnaround minus burst. */
  function Dispatch(t: Task, slice: int, clock: int): Task
  {
    var t1 := if t.firstResponse == 0 then t.(response := clock, firstResponse := 1) else t;
    var t2 := t1.(remaining := t1.remaining - slice);
    if t2.remaining == 0 then t2.(turnaround := clock + slice, waiting := clock + slice - t2.burst)
    else t2
  }

  /** Every task as the loader left it, with at least one unit of work: the
      preemptive loops only terminate on such input. */
  predicate Fresh(s: seq<Task>)
  {
    forall i :: 0 <= i < |s| ==> Loaded(s[i]) && s[i].burst >= 1
  }

  /** How a task `t` at `clock` relates to the loaded task `o` it started as:
      identity and burst are kept; `0 <= remaining <= burst`; an untouched
      task is exactly as loaded; a dispatched one has its response fixed at
      a clock value that leaves room for the work already done; a finished
      one has `waiting == turnaround - burst` and a turnaround that leaves
      room for the whole burst after the response. */
  ghost predicate Tracks(o: Task, t: Task, clock: int)
  {
    t.tid == o.tid && t.burst == o.burst && t.start == o.start &&
    0 <= t.remaining <= t.burst &&
    (t.remaining == t.burst ==> t == o) &&
    (t.remaining < t.burst ==>
       t.firstResponse == 1 && 0 <= t.response && t.response + Consumed(t) <= clock) &&
    (t.remaining == 0 ==>
       t.waiting == t.turnaround - t.burst && t.response + t.burst <= t.turnaround <= clock)
  }

  /** The invariant of both preemptive loops: every task tracks its loaded
      original, and the clock equals the work done so far (no idle time). */
  ghost predicate Progress(orig: seq<Task>, s: seq<Task>, clock: int)
  {
    Fresh(orig) && |s| == |orig| &&
    (forall i :: 0 <= i < |s| ==> Tracks(orig[i], s[i], clock)) &&
    clock == Total(s, Consumed)
  }

  lemma ProgressStarts(orig: seq<Task>)
    requires Fresh(orig)
    ensures Progress(orig, orig, 0)
  {
    forall i | 0 <= i < |orig| ensures Consumed(orig[i]) == 0 { }
    TotalZeroIff(orig, Consumed);
  }

  /** Granting a task `slice` units of its remaining work, at the current
      clock, keeps the invariant with the clock advanced by `slice`. */
  lemma DispatchKeepsProgress(orig: seq<Task>, s: seq<Task>, clock: int, k: nat, slice: int)
    requires Progress(orig, s, clock)
    requires k < |s| && 0 < slice <= s[k].remaining
    ensures Progress(orig, s[k := Dispatch(s[k], slice, clock)], clock + slice)
  {
    var t := Dispatch(s[k], slice, clock);
    forall i | 0 <= i < |s| ensures Consumed(s[i]) >= 0 {
      assert Tracks(orig[i], s[i], clock);
    }
    TotalNonNegative(s, Consumed);
    assert Tracks(orig[k], t, clock + slice);
    TotalUpdate(s, k, t, Consumed);
  }

  /** Once every task has finished, the clock equals the sum of the
      loaded bursts. */
  lemma ProgressFinishes(orig: seq<Task>, s: seq<Task>, clock: int)
    requires Progress(orig, s, clock)
    requires forall i :: 0 <= i < |s| ==> s[i].remaining == 0
    ensures clock == SumBursts(orig)
  {
    forall i | 0 <= i < |s| ensures Consumed(s[i]) == Burst(s[i]) && Burst(s[i]) == Burst(orig[i]) {
      assert Tracks(orig[i], s[i], clock);
    }
    TotalSameTerms(s, Consumed, Burst);
    TotalPointwise(s, orig, Burst);
  }
}
