// The task record shared by both scheduler variants, the loader's initial
// state, and integer totals over a task list.

module Tasks {

  /** One schedulable job. The C struct is copied by value (the SJF exchange
      moves whole records), so it is a datatype here. `firstResponse` is the
      C int flag (0 = never dispatched). `start` exists only in the
      single-thread struct; the multi-thread engine never writes it. The
      `name` and `priority` fields are read by no policy and are omitted. */
  datatype Task = Task(
    tid: int,
    burst: int,
    remaining: int,
    firstResponse: int,
    waiting: int,
    turnaround: int,
    response: int,
    start: int)

  /** The state the loader leaves a task in: remaining time equal to the
      burst, never dispatched. The metric fields are left as they were
      (uninitialised in C), so they are unconstrained here. */
  predicate Loaded(t: Task)
  {
    t.remaining == t.burst && t.firstResponse == 0
  }

  function Burst(t: Task): int { t.burst }
  function Remaining(t: Task): int { t.remaining }
  function Waiting(t: Task): int { t.waiting }
  function Turnaround(t: Task): int { t.turnaround }
  function Response(t: Task): int { t.response }
  /** Work already done on a task. */
  function Consumed(t: Task): int { t.burst - t.remaining }
  /** 1 for a task whose remaining time is zero (counted by `complete`). */
  function Finished(t: Task): int { if t.remaining == 0 then 1 else 0 }
  /** 1 for a task that still has work (counted by `remaining_tasks`). */
  function Unfinished(t: Task): int { if t.remaining > 0 then 1 else 0 }

  /** Sum of `f` over a task list, peeling off the last element, which is the
      order in which the source's accumulating loops run. */
  function Total(s: seq<Task>, f: Task -> int): int
  {
    if s == [] then 0 else Total(s[..|s| - 1], f) + f(s[|s| - 1])
  }

  function SumBursts(s: seq<Task>): int { Total(s, Burst) }

  /** Extending a prefix by one element adds that element. */
  lemma TotalSnoc(s: seq<Task>, i: nat, f: Task -> int)
    requires i < |s|
    ensures Total(s[..i + 1], f) == Total(s[..i], f) + f(s[i])
  {
    assert s[..i + 1][..i] == s[..i];
  }

  /** Replacing one element changes the total by the difference. */
  lemma {:induction false} TotalUpdate(s: seq<Task>, k: nat, t: Task, f: Task -> int)
    requires k < |s|
    ensures Total(s[k := t], f) == Total(s, f) - f(s[k]) + f(t)
  {
    var n := |s| - 1;
    if k < n {
      assert s[k := t][..n] == s[..n][k := t];
      TotalUpdate(s[..n], k, t, f);
    } else {
      assert s[k := t][..n] == s[..n];
    }
  }

  /** Totals agree on lists that agree pointwise under `f`. */
  lemma {:induction false} TotalPointwise(s: seq<Task>, u: seq<Task>, f: Task -> int)
    requires |s| == |u|
    requires forall i :: 0 <= i < |s| ==> f(s[i]) == f(u[i])
    ensures Total(s, f) == Total(u, f)
  {
    if s != [] {
      var n := |s| - 1;
      TotalPointwise(s[..n], u[..n], f);
    }
  }

  /** Totals of two functions agree on a list where the functions agree. */
  lemma {:induction false} TotalSameTerms(s: seq<Task>, f: Task -> int, g: Task -> int)
    requires forall i :: 0 <= i < |s| ==> f(s[i]) == g(s[i])
    ensures Total(s, f) == Total(s, g)
  {
    if s != [] {
      var n := |s| - 1;
      assert forall i :: 0 <= i < n ==> s[..n][i] == s[i];
      TotalSameTerms(s[..n], f, g);
    }
  }

  /** A total of non-negative terms is non-negative. */
  lemma {:induction false} TotalNonNegative(s: seq<Task>, f: Task -> int)
    requires forall i :: 0 <= i < |s| ==> f(s[i]) >= 0
    ensures Total(s, f) >= 0
  {
    if s != [] {
      TotalNonNegative(s[..|s| - 1], f);
    }
  }

  /** A total of non-negative terms is zero exactly when every term is. */
  lemma {:induction false} TotalZeroIff(s: seq<Task>, f: Task -> int)
    requires forall i :: 0 <= i < |s| ==> f(s[i]) >= 0
    ensures Total(s, f) == 0 <==> forall i :: 0 <= i < |s| ==> f(s[i]) == 0
  {
    if s != [] {
      var n := |s| - 1;
      TotalZeroIff(s[..n], f);
      TotalNonNegative(s[..n], f);
      if Total(s, f) == 0 {
        forall i | 0 <= i < |s| ensures f(s[i]) == 0 {
          if i < n { assert s[..n][i] == s[i]; }
        }
      }
      if forall i :: 0 <= i < |s| ==> f(s[i]) == 0 {
        assert forall i :: 0 <= i < n ==> f(s[..n][i]) == 0;
      }
    }
  }

  /** `complete == n` holds exactly when every remaining time is zero. */
  lemma {:induction false} AllFinishedIff(s: seq<Task>)
    ensures Total(s, Finished) == |s| <==> forall i :: 0 <= i < |s| ==> s[i].remaining == 0
  {
    if s != [] {
      var n := |s| - 1;
      AllFinishedIff(s[..n]);
      CountAtMostLength(s[..n]);
      if forall i :: 0 <= i < |s| ==> s[i].remaining == 0 {
        assert forall i :: 0 <= i < n ==> s[..n][i].remaining == 0;
      }
      if Total(s, Finished) == |s| {
        forall i | 0 <= i < |s| ensures s[i].remaining == 0 {
          if i < n { assert s[..n][i] == s[i]; }
        }
      }
    }
  }

  /** `remaining_tasks` starts at `n`: every loaded task has work. */
  lemma {:induction false} AllUnfinished(s: seq<Task>)
    requires forall i :: 0 <= i < |s| ==> s[i].remaining > 0
    ensures Total(s, Unfinished) == |s|
  {
    if s != [] {
      var n := |s| - 1;
      assert forall i :: 0 <= i < n ==> s[..n][i] == s[i];
      AllUnfinished(s[..n]);
    }
  }

  /** `complete` starts at 0: no loaded task has finished. */
  lemma {:induction false} NoneFinished(s: seq<Task>)
    requires forall i :: 0 <= i < |s| ==> s[i].remaining > 0
    ensures Total(s, Finished) == 0
  {
    if s != [] {
      var n := |s| - 1;
      assert forall i :: 0 <= i < n ==> s[..n][i] == s[i];
      NoneFinished(s[..n]);
    }
  }

  lemma {:induction false} CountAtMostLength(s: seq<Task>)
    ensures Total(s, Finished) <= |s|
  {
    if s != [] {
      CountAtMostLength(s[..|s| - 1]);
    }
  }

  /** Summing per-task turnaround splits into waiting plus burst whenever
      every task satisfies `turnaround == waiting + burst`. */
  lemma {:induction false} TurnaroundTotalSplits(s: seq<Task>)
    requires forall i :: 0 <= i < |s| ==> s[i].turnaround == s[i].waiting + s[i].burst
    ensures Total(s, Turnaround) == Total(s, Waiting) + SumBursts(s)
  {
    if s != [] {
      var n := |s| - 1;
      assert forall i :: 0 <= i < n ==> s[..n][i] == s[i];
      TurnaroundTotalSplits(s[..n]);
    }
  }
}
