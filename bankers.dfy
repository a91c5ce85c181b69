/** The Banker's safety check: runs the shared fixed point, recording the
    order in which processes finish (the safe sequence) and one trace step
    per finished process. */
module Bankers {
  import opened Matrices
  import opened FixedPoint

  /** One trace step: the process run, the work before it ran, its need and
      allocation rows, and the work after it returned its allocation. */
  datatype Step = Step(process: nat, work: seq<int>, need: seq<int>, allocation: seq<int>, workAfter: seq<int>)

  /** The step recorded when process i runs after the processes of `before`. */
  function StepOf(s: Snapshot, before: seq<nat>, i: nat): Step
    requires s.WellShaped() && InRange(before, s.Processes()) && i < s.Processes()
  {
    assert InRange(before + [i], s.Processes());
    Step(i, Work(s, before), s.need[i], s.allocation[i], Work(s, before + [i]))
  }

  /** The trace of a finish order: one step per process, in order. */
  function TraceOf(s: Snapshot, q: seq<nat>): (t: seq<Step>)
    requires s.WellShaped() && InRange(q, s.Processes())
    ensures |t| == |q|
    decreases |q|
  {
    if q == [] then [] else TraceOf(s, Init(q)) + [StepOf(s, Init(q), Last(q))]
  }

  /** Running one more process appends its step to the trace. */
  lemma TraceAppend(s: Snapshot, q: seq<nat>, i: nat)
    requires s.WellShaped() && InRange(q, s.Processes()) && i < s.Processes()
    ensures InRange(q + [i], s.Processes())
    ensures TraceOf(s, q + [i]) ==
              TraceOf(s, q) + [Step(i, Work(s, q), s.need[i], s.allocation[i], Released(Work(s, q), s.allocation[i]))]
  {
    assert InRange(q + [i], s.Processes());
    assert Init(q + [i]) == q;
  }

  /** Step k of a trace describes the k-th process of the order, run after
      the k processes before it. */
  lemma {:induction false} TraceStepAt(s: Snapshot, q: seq<nat>, k: nat)
    requires s.WellShaped() && InRange(q, s.Processes()) && k < |q|
    ensures InRange(q[..k], s.Processes())
    ensures TraceOf(s, q)[k] == StepOf(s, q[..k], q[k])
    decreases |q|
  {
    assert InRange(q[..k], s.Processes());
    if k < |q| - 1 {
      TraceStepAt(s, Init(q), k);
      assert Init(q)[..k] == q[..k];
    } else {
      assert Init(q) == q[..k];
    }
  }

  /** The trace replays the run: the first step starts from `available`, each
      step starts from the work the previous one left, each step's work after
      is its work plus its process's allocation row, and each step records
      that process's need and allocation rows. */
  lemma TraceChains(s: Snapshot, q: seq<nat>)
    requires s.WellShaped() && InRange(q, s.Processes())
    ensures var t := TraceOf(s, q);
      && (|t| > 0 ==> t[0].work == s.available)
      && (forall k :: 0 <= k < |t| ==>
            && t[k].process == q[k]
            && t[k].need == s.need[q[k]]
            && t[k].allocation == s.allocation[q[k]]
            && |t[k].allocation| == |t[k].work|
            && t[k].workAfter == Released(t[k].work, t[k].allocation))
      && (forall k :: 0 < k < |t| ==> t[k].work == t[k - 1].workAfter)
  {
    var t := TraceOf(s, q);
    forall k | 0 <= k < |t|
      ensures t[k].process == q[k] && t[k].need == s.need[q[k]] && t[k].allocation == s.allocation[q[k]]
      ensures |t[k].allocation| == |t[k].work|
      ensures t[k].workAfter == Released(t[k].work, t[k].allocation)
    {
      TraceStepAt(s, q, k);
      assert Init(q[..k] + [q[k]]) == q[..k];
    }
    forall k | 0 < k < |t| ensures t[k].work == t[k - 1].workAfter {
      TraceStepAt(s, q, k);
      TraceStepAt(s, q, k - 1);
      assert q[..k - 1] + [q[k - 1]] == q[..k];
    }
    if |t| > 0 {
      TraceStepAt(s, q, 0);
    }
  }

  /** In the trace of a valid execution order every step's need fits in the
      work before it; with non-negative allocation work never decreases. */
  lemma TraceStepsFit(s: Snapshot, q: seq<nat>)
    requires s.WellShaped() && Feasible(s, q)
    ensures var t := TraceOf(s, q);
      forall k :: 0 <= k < |t| ==> |t[k].need| == |t[k].work| && Fits(t[k].need, t[k].work)
    ensures var t := TraceOf(s, q);
      forall k :: 0 <= k < |t| ==> |t[k].workAfter| == |t[k].work|
    ensures s.NonNegativeAllocation() ==>
      var t := TraceOf(s, q);
      forall k, j :: 0 <= k < |t| && 0 <= j < |t[k].work| ==> t[k].work[j] <= t[k].workAfter[j]
  {
    var t := TraceOf(s, q);
    TraceChains(s, q);
    forall k | 0 <= k < |t| ensures |t[k].need| == |t[k].work| && Fits(t[k].need, t[k].work) {
      TraceStepAt(s, q, k);
    }
  }

  /** The safety check. `safeSequence` is the order of the ascending-index
      fixed point, `trace` its step-by-step record, and the state is reported
      safe exactly when every process finished. */
  method RunBankersAlgorithm(s: Snapshot) returns (safe: bool, safeSequence: seq<nat>, trace: seq<Step>)
    requires s.WellShaped()
    ensures safeSequence == Schedule(s, [])
    ensures Feasible(s, safeSequence)
    ensures trace == TraceOf(s, safeSequence)
    ensures safe <==> |safeSequence| == s.Processes()
  {
    var processes, resources := s.Processes(), s.Resources();
    var work := new int[resources](j requires 0 <= j < resources => s.available[j]);
    var finish := new bool[processes](_ => false);
    safeSequence, trace := [], [];
    assert work[..] == Work(s, safeSequence);
    while |safeSequence| < processes
      invariant Tracks(s, work, finish, safeSequence)
      invariant trace == TraceOf(s, safeSequence)
      invariant Schedule(s, safeSequence) == Schedule(s, [])
      decreases processes - |safeSequence|
    {
      var found;
      found, safeSequence, trace := ScanPass(s, work, finish, safeSequence, trace);
      if !found {
        break;
      }
      DistinctInRange(safeSequence, processes);
    }
    if |safeSequence| >= processes {
      DistinctInRange(safeSequence, processes);
      ScanComplete(s, 0, safeSequence);
    }
    safe := |safeSequence| == processes;
    assert Feasible(s, []);
    ScheduleFeasible(s, []);
  }

  /** One pass of the outer loop: scans the processes in ascending order,
      running each unfinished one whose need fits, appending it to the safe
      sequence and its step to the trace. */
  method ScanPass(s: Snapshot, work: array<int>, finish: array<bool>, safeSequence: seq<nat>, trace: seq<Step>)
    returns (found: bool, safeSequence': seq<nat>, trace': seq<Step>)
    requires s.WellShaped() && Tracks(s, work, finish, safeSequence)
    requires trace == TraceOf(s, safeSequence)
    modifies work, finish
    ensures Tracks(s, work, finish, safeSequence')
    ensures trace' == TraceOf(s, safeSequence')
    ensures safeSequence' == ScanFrom(s, 0, safeSequence)
    ensures |safeSequence'| >= |safeSequence| && safeSequence'[..|safeSequence|] == safeSequence
    ensures found <==> |safeSequence'| > |safeSequence|
  {
    found, safeSequence', trace' := false, safeSequence, trace;
    for i := 0 to s.Processes()
      invariant Tracks(s, work, finish, safeSequence')
      invariant trace' == TraceOf(s, safeSequence')
      invariant ScanFrom(s, i, safeSequence') == ScanFrom(s, 0, safeSequence)
      invariant |safeSequence'| >= |safeSequence|
      invariant found <==> |safeSequence'| > |safeSequence|
    {
      ghost var before := safeSequence';
      ScanStep(s, i, before);
      if !finish[i] {
        var possible := CanRun(s.need[i], work);
        if possible {
          TraceAppend(s, before, i);
          trace' := trace' + [Step(i, work[..], s.need[i], s.allocation[i], Released(work[..], s.allocation[i]))];
          FinishProcess(s, work, finish, safeSequence', i);
          safeSequence' := safeSequence' + [i];
          found := true;
        }
      } else {
        assert i in before;
      }
    }
    ScanExtends(s, 0, safeSequence);
  }
}
