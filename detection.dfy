/** Deadlock detection: the same work/finish fixed point as the safety
    check, repeated while a pass finishes somebody; the processes left
    unfinished are reported as deadlocked. */
module Detection {
  import opened Matrices
  import opened FixedPoint

  /** The indices below n that are not in `done`, in ascending order. */
  function Unfinished(n: nat, done: seq<nat>): (r: seq<nat>)
    ensures StrictlyIncreasing(r) && InRange(r, n)
    ensures forall i :: i in r <==> 0 <= i < n && i !in done
  {
    if n == 0 then []
    else if n - 1 in done then Unfinished(n - 1, done)
    else Unfinished(n - 1, done) + [n - 1]
  }

  /** Deadlock detection. `deadlocked` lists, in ascending order, the
      processes the ascending-index fixed point leaves unfinished. */
  method CheckDeadlock(s: Snapshot) returns (deadlocked: seq<nat>)
    requires s.WellShaped()
    ensures deadlocked == Unfinished(s.Processes(), Schedule(s, []))
  {
    var processes, resources := s.Processes(), s.Resources();
    var work := new int[resources](j requires 0 <= j < resources => s.available[j]);
    var finish := new bool[processes](_ => false);
    ghost var order: seq<nat> := [];
    assert work[..] == Work(s, order);
    var changed := true;
    while changed
      invariant Tracks(s, work, finish, order)
      invariant Schedule(s, order) == Schedule(s, [])
      invariant !changed ==> ScanFrom(s, 0, order) == order
      decreases processes - |order|, if changed then 1 else 0
    {
      ghost var start := order;
      changed, order := DetectionPass(s, work, finish, order);
      ScheduleStep(s, start);
      DistinctInRange(order, processes);
    }
    deadlocked := CollectUnfinished(finish, order);
  }

  /** The processes whose finish flag is still false, in ascending order. */
  method CollectUnfinished(finish: array<bool>, ghost order: seq<nat>) returns (deadlocked: seq<nat>)
    requires forall i :: 0 <= i < finish.Length ==> (finish[i] <==> i in order)
    ensures deadlocked == Unfinished(finish.Length, order)
  {
    deadlocked := [];
    for i := 0 to finish.Length
      invariant deadlocked == Unfinished(i, order)
    {
      if !finish[i] {
        deadlocked := deadlocked + [i];
      }
    }
  }

  /** One pass of the do-while loop: scans the processes in ascending order
      and finishes each unfinished one whose need fits. The ghost `order`
      records the finishing order that `work` and `finish` summarise. */
  method DetectionPass(s: Snapshot, work: array<int>, finish: array<bool>, ghost order: seq<nat>)
    returns (changed: bool, ghost order': seq<nat>)
    requires s.WellShaped() && Tracks(s, work, finish, order)
    modifies work, finish
    ensures Tracks(s, work, finish, order')
    ensures order' == ScanFrom(s, 0, order)
    ensures |order'| >= |order| && order'[..|order|] == order
    ensures changed <==> |order'| > |order|
  {
    changed, order' := false, order;
    for i := 0 to s.Processes()
      invariant Tracks(s, work, finish, order')
      invariant ScanFrom(s, i, order') == ScanFrom(s, 0, order)
      invariant |order'| >= |order|
      invariant changed <==> |order'| > |order|
    {
      ghost var before := order';
      ScanStep(s, i, before);
      if !finish[i] {
        var possible := CanRun(s.need[i], work);
        if possible {
          FinishProcess(s, work, finish, order', i);
          order' := order' + [i];
          changed := true;
        }
      } else {
        assert i in before;
      }
    }
    ScanExtends(s, 0, order);
  }

  /** At the fixed point every deadlocked process i has a resource j whose
      need exceeds the work: `available` plus the allocation rows of the
      processes that finished. */
  lemma DeadlockedAreBlocked(s: Snapshot)
    requires s.WellShaped()
    ensures var f := Schedule(s, []);
      forall i :: i in Unfinished(s.Processes(), f) ==>
        exists j :: 0 <= j < s.Resources() && s.need[i][j] > s.available[j] + ColumnSum(s, f, j)
  {
    var f := Schedule(s, []);
    ScheduleClosed(s, []);
    forall i | i in Unfinished(s.Processes(), f)
      ensures exists j :: 0 <= j < s.Resources() && s.need[i][j] > s.available[j] + ColumnSum(s, f, j)
    {
      assert !Fits(s.need[i], Work(s, f));
      var j :| 0 <= j < s.Resources() && s.need[i][j] > Work(s, f)[j];
      WorkIsColumnSum(s, f, j);
    }
  }

  /** The safety check and the detector agree: the safe sequence covers every
      process exactly when the deadlocked list is empty. */
  lemma SafeIffNoDeadlock(s: Snapshot)
    requires s.WellShaped()
    ensures |Schedule(s, [])| == s.Processes() <==> Unfinished(s.Processes(), Schedule(s, [])) == []
  {
    var f := Schedule(s, []);
    DistinctInRange(f, s.Processes());
    var u := Unfinished(s.Processes(), f);
    if u != [] {
      assert u[0] in u;
    }
  }

  /** With non-negative allocation, a deadlocked process finishes in no valid
      execution order at all, and every other process finishes in some. */
  lemma DeadlockedNeverFinish(s: Snapshot, i: nat)
    requires s.WellShaped() && s.NonNegativeAllocation() && i < s.Processes()
    ensures i in Unfinished(s.Processes(), Schedule(s, [])) <==> !CanFinish(s, i)
  {
    FinishedIffCanFinish(s, i);
  }
}
