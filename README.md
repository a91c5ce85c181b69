# Deadlock analysis engine — a Dafny model

This project models the analysis engine of a browser-based deadlock
simulator (`script.js`). The engine works on P processes and R resource types. Its inputs are:

- an `available` vector;
- `allocation` and `max` tables, each P × R;
- `need = max - allocation`, derived from them.

It answers three questions:

- **Banker's safety check** (`runBankersAlgorithm`): is there an order in
  which every process can obtain its remaining need, run and release its
  allocation? It returns a safe sequence and a per-step trace.
- **Deadlock detection** (`checkDeadlock`): which processes never finish
  when the same work/finish loop is run to a fixed point?
- **Wait-for graph** (`analyzeWaitForGraph`, `detectCycleDFS`): process i
  waits for process j when i still needs some resource type that j holds.
  A fresh depth-first search from every process reports the processes from
  which a cycle can be reached.

The process and resource counts are checked (`validateInput`) when the
tables are generated. The tables themselves are checked (`validateMatrices`)
before each analysis, and `need` is derived from them cell by cell.

The model keeps the source's imperative form:

- `work`, `finish`, `visited` and `recStack` are local `array`s updated in
  place.
- The adjacency lists of the wait-for graph are an `array<seq<nat>>` that is
  appended to.
- The loops and the recursion are those of the source.

Every analysis method is proved against reference definitions in
`fixed_point.dfy` and `wait_for.dfy`. Validation and need derivation are
proved against `Consistent`, `FirstFailure` and `IsNeed`; the helpers against
`Fits` and `Unfinished`. The analysis references are:

- `ScanFrom` is one ascending pass over the processes. It records the
  order in which they finish.
- `Schedule` repeats passes until one finishes nobody.
- `Work` is `available` plus the allocation rows of the finished processes.
- `TraceOf` is the Banker's step record of a finish order: one step per
  process, with its work before, need, allocation and work after.
- `CycleReachable` holds when there is a walk from a node that revisits a
  node.

Both matrix analyses are proved to compute `Schedule(s, [])`. Because of that,
they agree: the state is safe exactly when nobody is deadlocked.

Beyond the source's own promises, the model proves a confluence theorem. With
non-negative allocation (which validation guarantees), the ascending-index scan
finishes process i exactly when i finishes in *some* valid execution order.
So "safe" means that a safe sequence exists, and "deadlocked" means that the
process finishes in no order at all.

The two kinds of analysis answer different questions. `Scenarios` proves, on
concrete states, that they disagree in both directions:

- One process can be deadlocked while the wait-for graph has no edge.
- Two processes can form a wait-for cycle while the state is safe.

The program's own messages claim more than that. When the graph has no cycle
it prints "No cycle detected in wait-for graph. System is safe."
(script.js:401-406); `Scenarios.DeadlockWithoutCycle` refutes the second
sentence. Its detection explanation says that a safe state has no circular
wait (script.js:256), which `Scenarios.CycleWithoutDeadlock` refutes, and
that deadlocked processes wait for resources held by each other
(script.js:264), which `Scenarios.DeadlockWithoutCycle` refutes. The model
follows the code, not the messages.

The cycle list holds no duplicates: the loop at script.js:379-386 pushes each
start index at most once, in ascending order, and `FindCycleProcesses` proves
the list strictly increasing.

Files:

- `matrices.dfy`: the `Snapshot` the analyses read, and vector and index-list helpers.
- `validation.dfy`: input and table validation, and need derivation.
- `fixed_point.dfy`: the shared work/finish fixed point, its reference functions and theorems, and the array primitives.
- `bankers.dfy`: the Banker's algorithm and its trace.
- `detection.dfy`: deadlock detection.
- `wait_for.dfy`: building the wait-for graph and cycle detection by DFS.
- `engine.dfy`: the analysis runner (validate, derive need, dispatch).
- `scenarios.dfy`: concrete states where the analyses disagree.

## Model

| member | source | states |
|---|---|---|
| Validation.ValidateInput | script.js:66-78 | accepted exactly when both counts lie in 1..20; non-positive counts are reported before counts over 20 |
| Validation.ValidateMatrices | script.js:80-105 | passes exactly when available is non-negative and every cell has 0 ≤ allocation ≤ max and max ≥ 0; a negative available entry is reported first; otherwise the failure is the first failing cell's error in row-major order, and "exceeds maximum" names that cell's process |
| Validation.FirstFailureUnique | script.js:80-105 | at most one error is the first failure of a state, so the check order determines the reported error |
| Validation.ComputeNeed | script.js:171-176 | need has the shape of allocation and allocation[i][j] + need[i][j] = max[i][j] in every cell |
| Validation.NeedWithinMaximum | script.js:91-102 | on tables that pass validation every need entry lies in 0..max[i][j] |
| FixedPoint.WorkIsColumnSum | script.js:307-309 | after any finish order, work[j] is available[j] plus the allocation in column j of the finished processes |
| FixedPoint.WorkGrows | script.js:307-309 | with non-negative allocation, finishing a superset of processes leaves at least as much work of every type |
| FixedPoint.ScanExtends | script.js:287-315 | one pass only appends: the result extends its input and lists distinct processes below P |
| FixedPoint.Schedule | script.js:285-317 | the fixed point lists distinct processes below P and extends the order it starts from |
| FixedPoint.ScheduleStep | script.js:217-237 | a pass does not change where the iteration ends, and a pass that finishes nobody is the end |
| FixedPoint.ScanFeasible | script.js:288-313 | a pass keeps the order a valid execution order: each process's need fit the work its predecessors left |
| FixedPoint.ScheduleFeasible | script.js:285-317 | the fixed point is a valid execution order |
| FixedPoint.ScanStable | script.js:217-237 | when a pass finishes nobody, every unfinished process it scanned has a need that does not fit the work |
| FixedPoint.ScheduleClosed | script.js:216-237 | at the fixed point every unfinished process's need does not fit the work |
| FixedPoint.ScanComplete | script.js:285 | once every process finished, a pass finishes nobody |
| FixedPoint.PrefixWithinClosed | script.js:216-237 | with non-negative allocation, every process of a valid execution order lies within any closed order |
| FixedPoint.FinishedIffCanFinish | script.js:217-243 | with non-negative allocation, the scan finishes process i exactly when i finishes in some valid execution order |
| FixedPoint.ScheduleDecidesSafety | script.js:285-322 | with non-negative allocation, the scan finishes all P processes exactly when a safe sequence exists |
| FixedPoint.FinishProcess | script.js:228-233 | finishing process i sets finish[i] and adds allocation[i] to work; the arrays then summarise the order extended by i |
| FixedPoint.CanRun | script.js:221-227 | reports possible exactly when need[i][j] ≤ work[j] for every j |
| FixedPoint.Release | script.js:231-233 | work becomes old work plus the allocation row, entry by entry |
| Bankers.TraceOf | script.js:297-304 | the trace of a finish order has exactly one step per process run |
| Bankers.TraceAppend | script.js:296-305 | running one more process appends one step with its index, the work before, its need and allocation rows, and the work after |
| Bankers.TraceStepAt | script.js:297-304 | step k records the k-th process run after the k processes before it |
| Bankers.TraceChains | script.js:297-311 | the first step starts from available; each step records its process's need and allocation; workAfter = work + allocation; each step's work is the previous step's workAfter |
| Bankers.TraceStepsFit | script.js:289-311 | in every step need fits work; with non-negative allocation work never decreases |
| Bankers.RunBankersAlgorithm | script.js:271-322 | the safe sequence is the fixed point, a valid execution order of distinct processes; the trace is its step record; safe exactly when every process finished |
| Bankers.ScanPass | script.js:286-316 | one pass of the outer loop: the sequence grows exactly as one reference pass, the trace gains one step per finished process, found exactly when something finished |
| Detection.Unfinished | script.js:239-243 | the ascending list of exactly the indices below n not finished |
| Detection.CheckDeadlock | script.js:205-243 | deadlocked is the ascending list of exactly the processes the fixed point leaves unfinished |
| Detection.DetectionPass | script.js:218-236 | one pass of the do-while loop: the order grows exactly as one reference pass, changed exactly when something finished |
| Detection.CollectUnfinished | script.js:239-243 | collects, ascending, exactly the indices whose finish flag is false |
| Detection.DeadlockedAreBlocked | script.js:217-243 | every deadlocked process has a resource type whose need exceeds available plus the allocation of the finished processes |
| Detection.SafeIffNoDeadlock | script.js:239-243 | the Banker's check reports safe exactly when detection reports nobody deadlocked |
| Detection.DeadlockedNeverFinish | script.js:239-243 | with non-negative allocation, a process is reported deadlocked exactly when it finishes in no valid execution order |
| WaitFor.BuildWaitForGraph | script.js:359-376 | j is in graph[i] exactly when i ≠ j and some k has need[i][k] > 0 and allocation[j][k] > 0; each list is ascending, so no self-loops and no duplicates |
| WaitFor.WaitForGraphUnique | script.js:364-376 | the adjacency lists are fixed by the edge relation: two graphs meeting it are equal |
| WaitFor.DetectCycleDFS | script.js:411-427 | true only when a cycle is reachable from the search root; when false, the node is finished, every successor of it finished first, and the recursion-stack flags again mark exactly the path to it |
| WaitFor.Enter | script.js:412-413 | entering a node sets its visited and recursion-stack flags and nothing else |
| WaitFor.Leave | script.js:425-426 | leaving a node clears its recursion-stack flag and nothing else; it joins the finished nodes |
| WaitFor.BackEdgeCycle | script.js:420-421 | an edge to a node on the recursion stack closes a cycle reachable from the root |
| WaitFor.NoCycleFromFinished | script.js:411-427 | no cycle is reachable from a node the search finished without finding one |
| WaitFor.WalkDescends | script.js:415-423 | a walk from a finished node stays among finished nodes, each finished earlier than the one before it |
| WaitFor.SearchFrom | script.js:380-386 | a search with fresh flags reports true exactly when a cycle is reachable from its root |
| WaitFor.FindCycleProcesses | script.js:379-387 | cycleProcesses is the ascending list of exactly the processes that reach a cycle; hasCycle exactly when it is non-empty |
| WaitFor.SomeReachesIffCycle | script.js:379-387 | some process reaches a cycle exactly when the graph has a cycle |
| WaitFor.AnalyzeWaitForGraph | script.js:355-387 | returns the wait-for graph, the ascending list of processes that reach a cycle, and hasCycle exactly when the graph has a cycle |
| Engine.ValidatedSnapshot | script.js:180-183 | tables that passed validation, with need derived from them, give a well-shaped snapshot with non-negative allocation and need |
| Engine.RunAnalysis | script.js:180-202 | rejected exactly when validation fails, with the unique first failure in check order; otherwise the selected analysis runs; safe exactly when a safe sequence exists; deadlocked exactly the processes finishing in no valid order; the wait-for report lists exactly the processes reaching a cycle |
| Scenarios.DeadlockWithoutCycle | script.js:366-368 | one process needing a unit nobody holds, with none free: it is deadlocked, yet the wait-for graph has no edge |
| Scenarios.CycleWithoutDeadlock | script.js:366-368 | two processes each holding a unit the other needs, one unit of each free: the graph has a cycle, yet the safe sequence is [0, 1] |

## Left out

- DOM access is not modelled: the `parseInt` reads of the form fields, error
  and result rendering, and the explanation text. The analyses take their
  tables as parameters instead of globals.
- The index defect at script.js:167 is not modelled: the reading of
  `max_${j}` drops the row index. It belongs to the form-reading glue, and the
  model takes `max` as given.
- Timing is not modelled: `performance.now`, the execution-time metric, and
  the `processesChecked`/`resourcesAnalyzed`/`deadlockedCount` telemetry.
- Persistence and history are not modelled: `localStorage`, configuration,
  dark mode and history.
- Canvas drawing, simulation playback with `setTimeout`, `exportResults` and
  tooltip setup are not modelled. The trace the playback replays is modelled.
- Integers are unbounded. JavaScript numbers lose precision above 2^53, and
  `parseInt(...) || 0` turns unparsable input into 0; neither is modelled.
- Validation.ValidateMatrices: takes P and R from the table lengths and
  requires the tables to be P × R. The source reads P and R from the form,
  and `updateMatrices` builds the tables with those shapes.
- Engine.RunAnalysis: derives need from the validated tables. The source uses
  the need computed at the last `updateMatrices` call, which is the same
  derivation. Only the three algorithms the selector offers are modelled; an
  unknown selector value, which the source's `switch` ignores, is not.
- Bankers.RunBankersAlgorithm: the `simulationState` copy of the trace is
  only read by the playback, so it is not modelled.
- WaitFor.DetectCycleDFS: when it returns true, the flags are left set, as in
  the source. No contract is stated about them, because every caller
  discards them.
