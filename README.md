# CPU-scheduling engine: a verified Dafny model

This project models the batch scheduling engine of the repository. It has four dispatch policies over an array of `Task` records, all driven by a simulated integer clock:

- **first-come-first-served** (`fcfs`) runs the tasks in array order;
- **shortest-job-first** (`sjf`) exchange-sorts the array in place by `burst`, then runs `fcfs`;
- **shortest-remaining-time-first** (`srtf`) gives one-unit ticks to the task with the smallest positive `remaining_time`, the lowest index on ties, with only remaining times below the sentinel 999 eligible;
- **round-robin** (`rr`) makes passes in index order and gives each unfinished task a slice of `min(remaining_time, quantum)`.

Each policy fills in `waiting_time`, `turnaround_time` and `response_time`. The integer totals behind the reported averages are modelled too.

The code has two copies of the engine.

- `single_thread/src/singlethread_scheduler.c` is the reference.
- `multi_thread/src/multithread_scheduler.c` wraps the same algorithms in threads and a mutex. Each thread is joined before the next one is created, and SRTF and RR run on the calling thread. It is therefore modelled as the sequential program it serialises to. Its one shared state is the process-wide `global_time`, which first-come-first-served advances and nothing resets. It is a field of the class `MultiThread.Scheduler`.

Files and modules:

| file | module | contents |
|---|---|---|
| `tasks.dfy` | `Tasks` | the `Task` record; the loader's initial state (`Loaded`); `Total`, a sum over a task list, and its lemmas |
| `dispatch.dfy` | `Slices` | `Dispatch`, which grants a task a slice of the processor; the bookkeeping invariant `Progress` that SRTF and RR keep |
| `nonpreemptive.dfy` | `NonPreemptive` | specification of FCFS (`FcfsTimes`) and of the SJF exchange sort (`ExchangeSort`) |
| `srtf.dfy` | `ShortestRemaining` | the selection scan (`Pick`) and the whole SRTF loop (`SrtfRun`) as functions, with their properties |
| `rr.dfy` | `RoundRobin` | one RR pass (`RrPass`) and the whole loop (`RrRun`) as functions, with their properties |
| `single_thread.dfy` | `SingleThread` | the single-thread engine as in-place loops over `array<Task>`, each proved against the functions above |
| `multi_thread.dfy` | `MultiThread` | the multi-thread engine: the `Scheduler` class holding `global_time`, and the four policies |

`Task` is a datatype, because the C struct is copied by value: the SJF swap moves whole records. The engine methods update array elements in place. Each method's `ensures` ties the final array (and clock) to a specification function of the initial array. The properties the code promises are lemmas about those functions.

## Model

| member | source | states |
|---|---|---|
| Tasks.AllUnfinished | single_thread/src/singlethread_scheduler.c:97 | when every loaded task has work left, the count of unfinished tasks equals the number of tasks (the initial value `remaining_tasks = n`) |
| Tasks.NoneFinished | single_thread/src/singlethread_scheduler.c:63 | when every task has work left, the count of finished tasks is 0 (the initial value `complete = 0`) |
| Tasks.AllFinishedIff | single_thread/src/singlethread_scheduler.c:64 | the finished count equals the number of tasks if and only if every remaining time is zero, so `complete != n` is exactly "some task has work left" |
| Tasks.CountAtMostLength | single_thread/src/singlethread_scheduler.c:85-86 | the number of finished tasks never exceeds the number of tasks |
| Tasks.TotalZeroIff | single_thread/src/singlethread_scheduler.c:99 | a sum of non-negative per-task terms is zero if and only if every term is zero (used for `remaining_tasks > 0` and for termination) |
| Tasks.TotalUpdate | single_thread/src/singlethread_scheduler.c:83-86 | replacing one task changes a total by exactly that task's difference, which is how `complete` and `remaining_tasks` track a one-task update |
| Tasks.TurnaroundTotalSplits | single_thread/src/singlethread_scheduler.c:126-131 | when every task has `turnaround == waiting + burst`, total turnaround equals total waiting plus the sum of the bursts |
| Slices.ProgressStarts | single_thread/src/singlethread_scheduler.c:157-161 | loaded tasks with positive bursts satisfy the preemptive loops' invariant at clock 0 |
| Slices.DispatchKeepsProgress | single_thread/src/singlethread_scheduler.c:102-117 | granting a slice of `1..remaining` units keeps the invariant: identity and burst kept, `0 <= remaining <= burst`, response fixed at first dispatch with room for the work done, `waiting == turnaround - burst` at completion, clock equal to the work done |
| Slices.ProgressFinishes | single_thread/src/singlethread_scheduler.c:64 | once every remaining time is zero, the clock equals the sum of the loaded bursts |
| NonPreemptive.FcfsMetrics | single_thread/src/singlethread_scheduler.c:36-41 | for task i, waiting and response are the starting clock plus the bursts of tasks 0..i-1, turnaround is waiting plus burst, and every other field is kept |
| NonPreemptive.FcfsBackToBack | single_thread/src/singlethread_scheduler.c:38-40 | each task starts exactly when its predecessor completes, and the last completes at the starting clock plus the sum of the bursts |
| NonPreemptive.FcfsShift | multi_thread/src/multithread_scheduler.c:38-46 | first-come-first-served from a clock `c` is the schedule from 0 with every metric shifted by `c` |
| NonPreemptive.SwapKeepsSum | single_thread/src/singlethread_scheduler.c:52-54 | swapping two records keeps the sum of the bursts |
| NonPreemptive.ExchangeRowPermutes | single_thread/src/singlethread_scheduler.c:50-56 | one row of the exchange sort permutes the records, keeps the burst sum and leaves the settled prefix alone |
| NonPreemptive.ExchangeRowKeepsBound | single_thread/src/singlethread_scheduler.c:50-56 | a lower bound on the bursts from row i on survives the row |
| NonPreemptive.ExchangeRowPutsMinimum | single_thread/src/singlethread_scheduler.c:50-56 | after row i, the record at i has a burst no larger than any record after it |
| NonPreemptive.ExchangeFromSorts | single_thread/src/singlethread_scheduler.c:49-57 | the remaining rows of the sort leave a burst-sorted permutation with the same burst sum |
| NonPreemptive.ExchangeSortSorts | single_thread/src/singlethread_scheduler.c:49-57 | the exchange sort leaves a permutation of its input (as a multiset of whole records, `tid` included), sorted by non-decreasing burst |
| NonPreemptive.ExchangeSortIsUnstable | single_thread/src/singlethread_scheduler.c:49-57 | the sort is not stable: bursts `[5, 5, 3]` (tasks a, b, c) end as `[c, b, a]` |
| ShortestRemaining.ScanFinds | single_thread/src/singlethread_scheduler.c:66-71 | the scan ends at -1 only if no task is eligible, and otherwise at the first task of smallest eligible remaining time |
| ShortestRemaining.PickIsShortest | single_thread/src/singlethread_scheduler.c:65-73 | the choice is -1 if and only if no task has `0 < remaining < 999`; otherwise it is eligible, strictly shorter than every earlier task with work, no longer than any later one, and the only such index |
| ShortestRemaining.TickChangesOnlyChosen | single_thread/src/singlethread_scheduler.c:78-89 | a tick decrements only the chosen task's remaining time, by 1; it sets response to the clock before the tick on first dispatch and keeps it otherwise; at zero it sets turnaround to the clock after the tick and waiting to that minus burst; the loop goes on from the ticked state one unit later |
| ShortestRemaining.SrtfClockAdvancesByWork | single_thread/src/singlethread_scheduler.c:64-91 | the loop ends with every remaining time zero and the clock advanced by exactly the outstanding work, so there are no idle ticks |
| ShortestRemaining.SrtfKeepsProgress | single_thread/src/singlethread_scheduler.c:64-91 | the loop keeps the bookkeeping invariant |
| ShortestRemaining.SrtfCompletes | single_thread/src/singlethread_scheduler.c:62-92 | on loaded tasks with bursts in 1..998: every task finishes, the final clock is the sum of the bursts, no task is dropped or reordered, and each has `turnaround == waiting + burst` and `response + burst <= turnaround <= final clock` |
| ShortestRemaining.SrtfResponseFixed | single_thread/src/singlethread_scheduler.c:78-81 | a task that has run keeps its response time to the end |
| ShortestRemaining.SrtfFinishedFrozen | single_thread/src/singlethread_scheduler.c:67 | a finished task is never touched again |
| ShortestRemaining.SrtfResponseAtFirstDispatch | single_thread/src/singlethread_scheduler.c:78-81 | the final response time of a task first chosen at clock c is c |
| ShortestRemaining.SrtfCompletionAtLastTick | single_thread/src/singlethread_scheduler.c:83-89 | a task chosen with one unit left ends with turnaround c + 1 and waiting c + 1 - burst |
| RoundRobin.RrPassStep | single_thread/src/singlethread_scheduler.c:101-118 | one inner-loop step grants `min(remaining, quantum)`, keeps remaining times non-negative, and lowers the unfinished count by one exactly when the task had at most a quantum left |
| RoundRobin.PassTimeFrame | single_thread/src/singlethread_scheduler.c:100 | the time a pass spends on tasks i.. depends only on those tasks |
| RoundRobin.RrPassEffect | single_thread/src/singlethread_scheduler.c:100-120 | one pass in closed form: earlier tasks untouched, and each task with work dispatched once, in index order, at the clock plus the slices granted before it |
| RoundRobin.RrPassSlices | single_thread/src/singlethread_scheduler.c:100-120 | in one pass each task with work gets exactly one slice of `min(remaining, quantum)` (between 1 and quantum, never empty); a task with at most a quantum left, an exact quantum included, finishes at the clock after its slice; finished tasks are skipped |
| RoundRobin.PassTimeSnoc | single_thread/src/singlethread_scheduler.c:107-113 | the clock after task j's slice is the clock before it plus that slice |
| RoundRobin.RrPassWork | single_thread/src/singlethread_scheduler.c:100-120 | a pass trades outstanding work for clock one for one and advances the clock when some task has work |
| RoundRobin.SomeUnfinished | single_thread/src/singlethread_scheduler.c:99 | a positive `remaining_tasks` count means some task has work left |
| RoundRobin.RrRunStep | single_thread/src/singlethread_scheduler.c:99-121 | while some task has work, a pass strictly lowers the outstanding work and the loop continues from the pass's state |
| RoundRobin.RrClockAdvancesByWork | single_thread/src/singlethread_scheduler.c:99-121 | the loop ends with every remaining time zero and the clock advanced by exactly the outstanding work |
| RoundRobin.RrPassKeepsProgress | single_thread/src/singlethread_scheduler.c:100-120 | a pass keeps the bookkeeping invariant |
| RoundRobin.RrKeepsProgress | single_thread/src/singlethread_scheduler.c:99-121 | the loop keeps the bookkeeping invariant |
| RoundRobin.RrCompletes | single_thread/src/singlethread_scheduler.c:95-122 | on loaded tasks with bursts of at least 1 and a positive quantum: every task finishes, the final clock is the sum of the bursts, no task is dropped or reordered, and each has `turnaround == waiting + burst` and `response + burst <= turnaround <= final clock` |
| RoundRobin.RrFinishedFrozen | single_thread/src/singlethread_scheduler.c:101 | a finished task is skipped by every later pass |
| RoundRobin.RrResponseFixed | single_thread/src/singlethread_scheduler.c:102-105 | a task that has run keeps its response time to the end |
| RoundRobin.RrResponseAtFirstSlice | single_thread/src/singlethread_scheduler.c:102-105 | a task that has never run ends with response equal to the clock at which its slice in the coming pass starts |
| RoundRobin.RrCompletionAtLastSlice | single_thread/src/singlethread_scheduler.c:111-117 | a task with at most a quantum left ends with turnaround equal to the clock after its slice in the coming pass, and waiting equal to that minus burst |
| SingleThread.Fcfs | single_thread/src/singlethread_scheduler.c:34-44 | the in-place loop leaves exactly the FCFS schedule with `start_time` equal to waiting, and its clock ends at the sum of the bursts |
| SingleThread.SortByBurst | single_thread/src/singlethread_scheduler.c:49-57 | the in-place nested loops with the record swap leave exactly `ExchangeSort` of the input |
| SingleThread.Sjf | single_thread/src/singlethread_scheduler.c:47-59 | the array ends as FCFS over the exchange-sorted input, and the clock ends at the sum of the bursts |
| SingleThread.SelectShortest | single_thread/src/singlethread_scheduler.c:65-71 | the scan loop returns the selection rule's choice |
| SingleThread.Srtf | single_thread/src/singlethread_scheduler.c:62-92 | on loaded tasks with bursts in 1..998, the tick loop leaves exactly the tasks and clock of `SrtfRun` from clock 0 |
| SingleThread.GrantSlice | single_thread/src/singlethread_scheduler.c:102-117 | one RR slice for a task with work: the task `Dispatch` gives for `min(remaining, quantum)` units, the clock advanced by that slice, and the task finished if and only if it had at most a quantum left |
| SingleThread.RrPassInPlace | single_thread/src/singlethread_scheduler.c:100-120 | the inner loop leaves exactly the tasks and clock of `RrPass`, keeping `remaining_tasks` equal to the number of tasks with work left |
| SingleThread.Rr | single_thread/src/singlethread_scheduler.c:95-122 | on loaded tasks with bursts of at least 1 and a positive quantum, the passes leave exactly the tasks and clock of `RrRun` from clock 0 |
| SingleThread.TotalTimes | single_thread/src/singlethread_scheduler.c:126-132 | the three accumulators are the sums of waiting, turnaround and response over all tasks |
| MultiThread.Scheduler.constructor | multi_thread/src/multithread_scheduler.c:23 | `global_time` starts at 0 |
| MultiThread.Scheduler.RunTaskFcfs | multi_thread/src/multithread_scheduler.c:32-51 | waiting and response become `global_time` on entry, `global_time` grows by the burst, turnaround becomes its new value, and no other task changes |
| MultiThread.Scheduler.FcfsMultithread | multi_thread/src/multithread_scheduler.c:54-61 | tasks run strictly in index order: the array ends as FCFS from the entry value of `global_time`, which ends advanced by the sum of the bursts |
| MultiThread.Scheduler.SjfMultithread | multi_thread/src/multithread_scheduler.c:64-75 | the array ends as FCFS from the entry `global_time` over the exchange-sorted input, and `global_time` advances by the sum of the bursts |
| MultiThread.MultithreadMatchesSingle | multi_thread/src/multithread_scheduler.c:23-46 | multi-thread FCFS from shared clock c equals single-thread `fcfs` with c added to every metric and `start_time` not written; with c = 0 only `start_time` differs |
| MultiThread.SrtfMultithread | multi_thread/src/multithread_scheduler.c:77-118 | the multi-thread SRTF leaves exactly the tasks of single-thread `SrtfRun` from clock 0 |
| MultiThread.SliceLocked | multi_thread/src/multithread_scheduler.c:128-151 | one multi-thread RR slice: response fixed on first slice, `slice = min(remaining, quantum)`, clock and remaining moved by it, and completion recorded; the same task as `Dispatch` gives |
| MultiThread.RrPassMultithread | multi_thread/src/multithread_scheduler.c:127-155 | one pass leaves exactly the tasks and clock of `RrPass`, keeping `remaining_tasks` equal to the number of tasks with work left |
| MultiThread.RrMultithread | multi_thread/src/multithread_scheduler.c:122-157 | with its own clock starting at 0, the multi-thread RR leaves exactly the tasks of single-thread `RrRun` |

Where the written specification and the code disagree, the model follows the code.

- **SJF is not stable.** The specification calls the sort stable. The code's exchange sort swaps `tasks[i]` with any later shorter task, so equal bursts can be reordered (`ExchangeSortIsUnstable`).
- **FCFS and SJF leave `remaining_time` alone.** The specification says every task ends with `remaining = 0` under every policy. `fcfs` never writes `remaining_time`, so `FcfsTimes` keeps it (`FcfsMetrics`).
- **Burst 0 does not terminate SRTF and RR.** The specification accepts `burst >= 0`. A task with burst 0 never counts toward `complete` or `remaining_tasks`, so the loops spin forever. SRTF also spins on a burst of 999 or more, which the sentinel makes ineligible. The methods therefore require bursts of at least 1 (`Fresh`), and SRTF requires bursts below 999 (`Ready`).
- **No error kinds.** The specification names configuration, precondition and capacity errors. The code checks none of them: a non-positive quantum is passed through, and the loader writes past `MAX_TASKS`. The model states the conditions the loops need as preconditions (`quantum > 0`, the burst bounds above) and models no error values.

## Left out

- `main` in both files: argument handling, file reading with `fscanf`, the `MAX_TASKS` array bound the reading loop does not check, and the policy-name dispatch. This is I/O glue. The loader's effect is the `Loaded` state the methods take as a precondition.
- `run`, `printf` and `usleep`: output and pacing only, with no effect on any task field.
- `pthread_create`, `pthread_join`, `pthread_exit` and the mutex calls. Every thread is joined before the next is created, so the model is the sequential program.
- `assign_tid` and its atomic counter: it only numbers tasks; no policy reads `tid`.
- The `name` and `priority` fields: no policy reads them.
- The floating-point averages of `calculate_average_times`: only the integer totals are modelled (`TotalTimes`). The multi-thread copy of that function is identical.
- 32-bit `int` overflow of the clock and totals: integers are unbounded. The burst bounds keep SRTF's clock below 999 times the number of tasks.
- The idle branch of `srtf` (`shortest == -1` followed by `time++`) is unreachable under the preconditions: some task has work and every remaining time is below 999. The model has an `assert false` there instead of an idle tick.
- The `check` flag in `srtf_multithread` is set and never read, so it is not modelled. Apart from it and the trace line, that function is the single-thread loop, and `SrtfMultithread` calls `SingleThread.Srtf`.
- SrtfMultithread: its local clock is discarded by the source, so the contract states the final tasks only.
- RrMultithread: its local clock is discarded by the source, so the contract states the final tasks only.
