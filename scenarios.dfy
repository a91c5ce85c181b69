/** Small states worked through by hand: the two matrix analyses and the
    wait-for analysis answer different questions and can disagree in both
    directions. */
module Scenarios {
  import opened Matrices
  import opened FixedPoint
  import opened Detection
  import opened WaitFor

  /** The one-process state of DeadlockWithoutCycle. */
  function Lone(): Snapshot
  {
    Snapshot([0], [[0]], [[1]])
  }

  /** The scan finishes nobody. */
  lemma LoneSchedule()
    ensures Lone().WellShaped() && Schedule(Lone(), []) == []
  {
    var s := Lone();
    assert Work(s, []) == [0];
    assert s.need[0][0] > Work(s, [])[0];
    assert ScanFrom(s, 1, []) == [];
    assert ScanFrom(s, 0, []) == [];
  }

  /** The only process waits for nobody, so its graph has no edge. */
  lemma LoneGraph(g: seq<seq<nat>>)
    requires Lone().WellShaped() && IsWaitForGraph(Lone(), g)
    ensures g == [[]] && IsGraph(g) && !HasCycle(g)
  {
    assert IsWaitForRow(Lone(), 0, g[0]);
    IncreasingSameElements(g[0], []);
    assert g == [[]];
    forall p: seq<nat> | |p| >= 2 && InRange(p, 1) ensures !IsWalk(g, p) {
      assert p[0] == 0 && p[1] !in g[p[0]];
    }
  }

  /** One process needing a unit of the only resource type, none free and
      none held: the process is deadlocked, yet the wait-for graph has no
      edge and so no cycle. */
  lemma DeadlockWithoutCycle()
    ensures var s := Lone();
      && s.WellShaped()
      && Schedule(s, []) == []
      && Unfinished(s.Processes(), Schedule(s, [])) == [0]
      && forall g :: IsWaitForGraph(s, g) ==> g == [[]] && IsGraph(g) && !HasCycle(g)
  {
    LoneSchedule();
    assert Unfinished(0, []) == [];
    forall g | IsWaitForGraph(Lone(), g) ensures g == [[]] && IsGraph(g) && !HasCycle(g) {
      LoneGraph(g);
    }
  }

  /** The two-process state of CycleWithoutDeadlock. */
  function Crossed(): Snapshot
  {
    Snapshot([1, 1], [[1, 0], [0, 1]], [[0, 1], [1, 0]])
  }

  /** Work before the scan, and after process 0 finishes. */
  lemma CrossedWork()
    ensures Crossed().WellShaped()
    ensures Work(Crossed(), []) == [1, 1] && Work(Crossed(), [0]) == [2, 1]
  {
    var s := Crossed();
    assert Init([0]) == [] && Last([0]) == 0;
    assert Released([1, 1], s.allocation[0]) == [2, 1];
  }

  /** From process 1 on, with process 0 finished, the pass finishes process 1. */
  lemma CrossedPassTail()
    ensures Crossed().WellShaped() && ScanFrom(Crossed(), 1, [0]) == [0, 1]
  {
    var s := Crossed();
    CrossedWork();
    assert s.need[1] == [1, 0];
    assert Fits([1, 0], [2, 1]);
    assert ScanFrom(s, 2, [0, 1]) == [0, 1];
  }

  /** The first pass finishes process 0 and then process 1. */
  lemma CrossedFirstPass()
    ensures Crossed().WellShaped() && ScanFrom(Crossed(), 0, []) == [0, 1]
  {
    var s := Crossed();
    CrossedWork();
    CrossedPassTail();
    assert s.need[0] == [0, 1];
    assert Fits([0, 1], [1, 1]);
    assert [] + [0] == [0];
  }

  /** The scan finishes process 0 and then process 1. */
  lemma CrossedSchedule()
    ensures Crossed().WellShaped() && Schedule(Crossed(), []) == [0, 1]
  {
    var s := Crossed();
    CrossedFirstPass();
    assert ScanFrom(s, 2, [0, 1]) == [0, 1];
    assert ScanFrom(s, 1, [0, 1]) == [0, 1];
    assert ScanFrom(s, 0, [0, 1]) == [0, 1];
    assert Schedule(s, [0, 1]) == [0, 1];
  }

  /** Each process waits for the other. */
  lemma CrossedCycle(g: seq<seq<nat>>)
    requires Crossed().WellShaped() && IsWaitForGraph(Crossed(), g)
    ensures IsGraph(g) && HasCycle(g)
  {
    var s := Crossed();
    assert s.need[0][1] > 0 && s.allocation[1][1] > 0;
    assert s.need[1][0] > 0 && s.allocation[0][0] > 0;
    assert WaitsFor(s, 0, 1) && WaitsFor(s, 1, 0);
    assert IsWaitForRow(s, 0, g[0]) && IsWaitForRow(s, 1, g[1]);
    forall u | 0 <= u < |g| ensures InRange(g[u], |g|) {
      assert IsWaitForRow(s, u, g[u]);
      forall k | 0 <= k < |g[u]| ensures g[u][k] < |g| {
        assert g[u][k] in g[u];
      }
    }
    var p: seq<nat> := [0, 1, 0];
    assert IsWalk(g, p);
    assert Init(p) == [0, 1] && Last(p) == 0;
  }

  /** Two processes, each holding one unit the other still needs, with one
      unit of each type free: the wait-for graph has the cycle 0 -> 1 -> 0,
      yet the state is safe with safe sequence [0, 1]. */
  lemma CycleWithoutDeadlock()
    ensures var s := Crossed();
      && s.WellShaped()
      && Schedule(s, []) == [0, 1]
      && Unfinished(s.Processes(), Schedule(s, [])) == []
      && forall g :: IsWaitForGraph(s, g) ==> IsGraph(g) && HasCycle(g)
  {
    CrossedSchedule();
    forall g | IsWaitForGraph(Crossed(), g) ensures IsGraph(g) && HasCycle(g) {
      CrossedCycle(g);
    }
  }
}
