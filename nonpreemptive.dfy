// Specification of the two non-preemptive policies: first-come-first-served
// over the array order, and shortest-job-first as the source's in-place
// exchange sort by burst followed by first-come-first-served.

module NonPreemptive {
  import opened Tasks

  /** Clock value at which first-come-first-served dispatches `s[i]`:
      the bursts of every task before it. */
  function Before(s: seq<Task>, i: nat): int
    requires i <= |s|
  {
    SumBursts(s[..i])
  }

  /** A task run to completion in one go from `clock`. */
  function Serve(t: Task, clock: int): Task
  {
    t.(waiting := clock, response := clock, turnaround := clock + t.burst)
  }

  /** First-come-first-served over `s` with the clock starting at `clock`.
      The remaining time is not touched by this policy. */
  function FcfsTimes(s: seq<Task>, clock: int): seq<Task>
  {
    seq(|s|, i requires 0 <= i < |s| => Serve(s[i], clock + Before(s, i)))
  }

  /** The single-thread engine also records `start_time`, equal to the
      waiting time it has just set. */
  function StampStart(s: seq<Task>): seq<Task>
  {
    seq(|s|, i requires 0 <= i < |s| => s[i].(start := s[i].waiting))
  }

  /** What first-come-first-served promises per task: waiting and response
      are the clock at dispatch, the sum of all earlier bursts; turnaround is
      waiting plus burst; every other field, the task's identity included,
      is kept. */
  lemma FcfsMetrics(s: seq<Task>, clock: int, i: nat)
    requires i < |s|
    ensures |FcfsTimes(s, clock)| == |s|
    ensures FcfsTimes(s, clock)[i].waiting == FcfsTimes(s, clock)[i].response == clock + SumBursts(s[..i])
    ensures FcfsTimes(s, clock)[i].turnaround == FcfsTimes(s, clock)[i].waiting + s[i].burst
    ensures FcfsTimes(s, clock)[i].(waiting := s[i].waiting, response := s[i].response,
                               turnaround := s[i].turnaround) == s[i]
  {
  }

  /** Tasks run back to back: each task is dispatched exactly when its
      predecessor completes, and the last one completes when the clock has
      advanced by the sum of all bursts. */
  lemma FcfsBackToBack(s: seq<Task>, clock: int)
    ensures forall i :: 0 < i < |s| ==>
      FcfsTimes(s, clock)[i].waiting == FcfsTimes(s, clock)[i - 1].turnaround
    ensures |s| > 0 ==> FcfsTimes(s, clock)[|s| - 1].turnaround == clock + SumBursts(s)
  {
    forall i | 0 < i <= |s| ensures Before(s, i) == Before(s, i - 1) + s[i - 1].burst {
      TotalSnoc(s, i - 1, Burst);
    }
    assert s[..|s|] == s;
  }

  /** The multi-thread engine starts from the shared clock rather than zero:
      every metric is the same schedule shifted by that starting value. */
  lemma FcfsShift(s: seq<Task>, clock: int)
    ensures |FcfsTimes(s, clock)| == |FcfsTimes(s, 0)| == |s|
    ensures forall i :: 0 <= i < |s| ==>
      FcfsTimes(s, clock)[i] == FcfsTimes(s, 0)[i].(waiting := FcfsTimes(s, 0)[i].waiting + clock,
                                          response := FcfsTimes(s, 0)[i].response + clock,
                                          turnaround := FcfsTimes(s, 0)[i].turnaround + clock)
  {
  }

  // ---------------------------------------------------------------------
  // The exchange sort of sjf (swap s[i] and s[j] whenever s[i].burst >
  // s[j].burst, for every i < j in row-major order).

  function Swap(s: seq<Task>, i: nat, j: nat): seq<Task>
    requires i < |s| && j < |s|
  {
    s[i := s[j]][j := s[i]]
  }

  lemma SwapKeepsSum(s: seq<Task>, i: nat, j: nat)
    requires i < j < |s|
    ensures SumBursts(Swap(s, i, j)) == SumBursts(s)
  {
    TotalUpdate(s, i, s[j], Burst);
    TotalUpdate(s[i := s[j]], j, s[i], Burst);
  }

  /** The inner loop for row `i`, from column `j` on. */
  function ExchangeRow(s: seq<Task>, i: nat, j: nat): (r: seq<Task>)
    requires i < j <= |s|
    ensures |r| == |s|
    decreases |s| - j
  {
    if j == |s| then s
    else ExchangeRow(if s[i].burst > s[j].burst then Swap(s, i, j) else s, i, j + 1)
  }

  /** The outer loop from row `i` on (it stops before the last element). */
  function ExchangeFrom(s: seq<Task>, i: nat): seq<Task>
    decreases |s| - i
  {
    if i + 1 >= |s| then s else ExchangeFrom(ExchangeRow(s, i, i + 1), i + 1)
  }

  function ExchangeSort(s: seq<Task>): seq<Task>
  {
    ExchangeFrom(s, 0)
  }

  predicate SortedByBurst(s: seq<Task>)
  {
    forall p, q :: 0 <= p < q < |s| ==> s[p].burst <= s[q].burst
  }

  /** Rows before `i` are final: each of them is no longer than anything
      after it. */
  predicate SettledBefore(s: seq<Task>, i: nat)
  {
    forall p, q :: 0 <= p < q < |s| && p < i ==> s[p].burst <= s[q].burst
  }

  lemma {:induction false} ExchangeRowPermutes(s: seq<Task>, i: nat, j: nat)
    requires i < j <= |s|
    ensures |ExchangeRow(s, i, j)| == |s|
    ensures multiset(ExchangeRow(s, i, j)) == multiset(s)
    ensures SumBursts(ExchangeRow(s, i, j)) == SumBursts(s)
    ensures ExchangeRow(s, i, j)[..i] == s[..i]
    decreases |s| - j
  {
    if j < |s| {
      var s' := if s[i].burst > s[j].burst then Swap(s, i, j) else s;
      if s[i].burst > s[j].burst {
        assert s' == s[i := s[j]][j := s[i]];
        assert s'[..i] == s[..i];
        SwapKeepsSum(s, i, j);
      }
      ExchangeRowPermutes(s', i, j + 1);
    }
  }

  /** A lower bound on the bursts from `i` on survives the row. */
  lemma {:induction false} ExchangeRowKeepsBound(s: seq<Task>, i: nat, j: nat, b: int)
    requires i < j <= |s|
    requires forall k :: i <= k < |s| ==> b <= s[k].burst
    ensures |ExchangeRow(s, i, j)| == |s|
    ensures forall k :: i <= k < |s| ==> b <= ExchangeRow(s, i, j)[k].burst
    decreases |s| - j
  {
    if j < |s| {
      var s' := if s[i].burst > s[j].burst then Swap(s, i, j) else s;
      ExchangeRowKeepsBound(s', i, j + 1, b);
    }
  }

  /** After row `i` the task at `i` is no longer than any task after it. */
  lemma {:induction false} ExchangeRowPutsMinimum(s: seq<Task>, i: nat, j: nat)
    requires i < j <= |s|
    requires forall k :: i < k < j ==> s[i].burst <= s[k].burst
    ensures |ExchangeRow(s, i, j)| == |s|
    ensures forall k :: i < k < |s| ==> ExchangeRow(s, i, j)[i].burst <= ExchangeRow(s, i, j)[k].burst
    decreases |s| - j
  {
    if j < |s| {
      var s' := if s[i].burst > s[j].burst then Swap(s, i, j) else s;
      ExchangeRowPutsMinimum(s', i, j + 1);
    }
  }

  lemma {:induction false} ExchangeFromSorts(s: seq<Task>, i: nat)
    requires SettledBefore(s, i)
    ensures |ExchangeFrom(s, i)| == |s|
    ensures multiset(ExchangeFrom(s, i)) == multiset(s)
    ensures SumBursts(ExchangeFrom(s, i)) == SumBursts(s)
    ensures SortedByBurst(ExchangeFrom(s, i))
    decreases |s| - i
  {
    if i + 1 < |s| {
      var r := ExchangeRow(s, i, i + 1);
      ExchangeRowPermutes(s, i, i + 1);
      ExchangeRowPutsMinimum(s, i, i + 1);
      forall p, q | 0 <= p < q < |r| && p < i + 1 ensures r[p].burst <= r[q].burst {
        if p < i {
          assert r[p] == r[..i][p] == s[..i][p] == s[p];
          if q < i {
            assert r[q] == r[..i][q] == s[..i][q] == s[q];
          } else {
            ExchangeRowKeepsBound(s, i, i + 1, s[p].burst);
          }
        }
      }
      ExchangeFromSorts(r, i + 1);
    }
  }

  /** The exchange sort leaves a permutation of its input, whole records
      moving together, ordered by non-decreasing burst. */
  lemma ExchangeSortSorts(s: seq<Task>)
    ensures |ExchangeSort(s)| == |s|
    ensures multiset(ExchangeSort(s)) == multiset(s)
    ensures SumBursts(ExchangeSort(s)) == SumBursts(s)
    ensures SortedByBurst(ExchangeSort(s))
  {
    ExchangeFromSorts(s, 0);
  }

  /** The exchange sort is not stable: of two tasks with burst 5 followed by
      one with burst 3, the second 5 ends up before the first. */
  lemma ExchangeSortIsUnstable(a: Task, b: Task, c: Task)
    requires a.burst == 5 && b.burst == 5 && c.burst == 3
    ensures ExchangeSort([a, b, c]) == [c, b, a]
  {
    var s := [a, b, c];
    assert ExchangeRow(s, 0, 3) == s;
    assert ExchangeRow(s, 0, 1) == ExchangeRow(s, 0, 2);
    assert Swap(s, 0, 2) == [c, b, a];
    assert ExchangeRow(s, 0, 2) == ExchangeRow([c, b, a], 0, 3) == [c, b, a];
    assert ExchangeRow([c, b, a], 1, 2) == ExchangeRow([c, b, a], 1, 3) == [c, b, a];
    assert ExchangeFrom([c, b, a], 2) == [c, b, a];
    assert ExchangeFrom([c, b, a], 1) == ExchangeFrom([c, b, a], 2);
    assert ExchangeFrom(s, 0) == ExchangeFrom([c, b, a], 1);
  }
}
