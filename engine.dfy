/** The analysis runner: validates the entered tables, derives need, and
    dispatches to the analysis the user selected. */
module Engine {
  import opened Matrices
  import opened Validation
  import opened FixedPoint
  import opened Bankers
  import opened Detection
  import opened WaitFor

  /** The three analyses the user can select. */
  datatype Algorithm = Banker | DeadlockDetection | WaitForGraph

  /** What a run reports: a validation failure, or the selected analysis's result. */
  datatype Report =
    | Rejected(error: ValidationError)
    | SafetyReport(safe: bool, safeSequence: seq<nat>, trace: seq<Step>)
    | DeadlockReport(deadlocked: seq<nat>)
    | WaitForReport(graph: seq<seq<nat>>, hasCycle: bool, cycleProcesses: seq<nat>)

  /** A state that passed validation, with need derived from it, is a
      well-shaped snapshot with non-negative allocation and need. */
  lemma ValidatedSnapshot(available: seq<int>, allocation: seq<seq<int>>, max: seq<seq<int>>, need: seq<seq<int>>)
    requires Shaped(available, allocation, max) && Consistent(available, allocation, max)
    requires IsNeed(allocation, max, need)
    ensures Snapshot(available, allocation, need).WellShaped()
    ensures Snapshot(available, allocation, need).NonNegativeAllocation()
    ensures forall i, j :: 0 <= i < |need| && 0 <= j < |available| ==> need[i][j] >= 0
  {
    var s := Snapshot(available, allocation, need);
    NeedWithinMaximum(available, allocation, max, need);
    forall i, j | 0 <= i < |allocation| && 0 <= j < |available| ensures allocation[i][j] >= 0 {
      assert CellOk(allocation, max, i, j);
    }
  }

  /** The snapshot the analyses read when `need` is derived from `max`. */
  ghost predicate Derived(available: seq<int>, allocation: seq<seq<int>>, max: seq<seq<int>>, s: Snapshot)
    requires Shaped(available, allocation, max)
  {
    && s.available == available && s.allocation == allocation
    && IsNeed(allocation, max, s.need) && s.WellShaped()
  }

  /** Runs one analysis. A state that fails validation is rejected with the
      first failure; otherwise the safety check reports safe exactly when a
      safe sequence exists, detection reports exactly the processes that
      finish in no valid execution order, and the wait-for analysis reports
      exactly the processes from which its graph reaches a cycle. */
  method RunAnalysis(available: seq<int>, allocation: seq<seq<int>>, max: seq<seq<int>>, algorithm: Algorithm)
    returns (report: Report)
    requires Shaped(available, allocation, max)
    ensures report.Rejected? <==> !Consistent(available, allocation, max)
    ensures report.Rejected? ==> FirstFailure(available, allocation, max, report.error)
    ensures !report.Rejected? ==> match algorithm
      case Banker => report.SafetyReport?
      case DeadlockDetection => report.DeadlockReport?
      case WaitForGraph => report.WaitForReport?
    ensures report.SafetyReport? ==>
      exists s :: && Derived(available, allocation, max, s)
        && report.safeSequence == Schedule(s, [])
        && report.trace == TraceOf(s, report.safeSequence)
        && (report.safe <==> exists q :: IsSafeSequence(s, q))
    ensures report.DeadlockReport? ==>
      exists s :: && Derived(available, allocation, max, s)
        && StrictlyIncreasing(report.deadlocked)
        && forall i :: i in report.deadlocked <==> 0 <= i < |allocation| && !CanFinish(s, i)
    ensures report.WaitForReport? ==>
      exists s :: && Derived(available, allocation, max, s)
        && IsWaitForGraph(s, report.graph) && IsGraph(report.graph)
        && StrictlyIncreasing(report.cycleProcesses)
        && (forall i :: i in report.cycleProcesses <==> 0 <= i < |allocation| && CycleReachable(report.graph, i))
        && (report.hasCycle <==> HasCycle(report.graph))
  {
    var outcome := ValidateMatrices(available, allocation, max);
    if outcome.Fail? {
      return Rejected(outcome.error);
    }
    var need := ComputeNeed(allocation, max);
    ValidatedSnapshot(available, allocation, max, need);
    var s := Snapshot(available, allocation, need);
    assert Derived(available, allocation, max, s);
    match algorithm {
      case Banker =>
        var safe, safeSequence, trace := RunBankersAlgorithm(s);
        ScheduleDecidesSafety(s);
        report := SafetyReport(safe, safeSequence, trace);
      case DeadlockDetection =>
        var deadlocked := CheckDeadlock(s);
        forall i | 0 <= i < |allocation| ensures i in deadlocked <==> !CanFinish(s, i) {
          DeadlockedNeverFinish(s, i);
        }
        report := DeadlockReport(deadlocked);
      case WaitForGraph =>
        var graph, hasCycle, cycleProcesses := AnalyzeWaitForGraph(s);
        report := WaitForReport(graph, hasCycle, cycleProcesses);
    }
  }
}
