/** The work/finish fixed point shared by the Banker's safety check and the
    deadlock detector: processes are scanned in ascending index order, a
    process whose need fits in `work` finishes and returns its allocation,
    and passes repeat until one pass finishes nobody.

    The iteration is described here by functions over the ORDER in which
    processes finish (`done`); `work` and `finish` are derived from it.
    The two analyses are methods proved equal to `Schedule(s, [])`. */
module FixedPoint {
  import opened Matrices

  /** `work` once the processes of `done` have finished, in that order,
      starting from `available`. */
  function Work(s: Snapshot, done: seq<nat>): (w: seq<int>)
    requires s.WellShaped() && InRange(done, s.Processes())
    ensures |w| == s.Resources()
    decreases |done|
  {
    if done == [] then s.available
    else Released(Work(s, Init(done)), s.allocation[Last(done)])
  }

  /** Units of resource j held by the processes of `done`. */
  function ColumnSum(s: Snapshot, done: seq<nat>, j: nat): int
    requires s.WellShaped() && InRange(done, s.Processes()) && j < s.Resources()
    decreases |done|
  {
    if done == [] then 0 else ColumnSum(s, Init(done), j) + s.allocation[Last(done)][j]
  }

  /** `work` is `available` plus the allocation rows of the finished processes. */
  lemma {:induction false} WorkIsColumnSum(s: Snapshot, done: seq<nat>, j: nat)
    requires s.WellShaped() && InRange(done, s.Processes()) && j < s.Resources()
    ensures Work(s, done)[j] == s.available[j] + ColumnSum(s, done, j)
    decreases |done|
  {
    if done != [] {
      WorkIsColumnSum(s, Init(done), j);
    }
  }

  /** Taking one process out of a finish order removes exactly its row. */
  lemma {:induction false} ColumnSumRemove(s: Snapshot, a: seq<nat>, x: nat, b: seq<nat>, j: nat)
    requires s.WellShaped() && j < s.Resources()
    requires InRange(a, s.Processes()) && x < s.Processes() && InRange(b, s.Processes())
    ensures InRange(a + [x] + b, s.Processes()) && InRange(a + b, s.Processes())
    ensures ColumnSum(s, a + [x] + b, j) == ColumnSum(s, a + b, j) + s.allocation[x][j]
    decreases |b|
  {
    assert InRange(a + [x] + b, s.Processes());
    if b == [] {
      assert a + [x] + b == a + [x];
      assert Init(a + [x]) == a;
      assert a + b == a;
    } else {
      var b', y := Init(b), Last(b);
      ColumnSumRemove(s, a, x, b', j);
      assert Init(a + [x] + b) == a + [x] + b';
      assert Last(a + [x] + b) == y;
      assert Init(a + b) == a + b';
      assert Last(a + b) == y;
    }
  }

  /** Dropping entry k of a distinct list leaves a distinct list of the
      other entries. */
  lemma DropEntry(xs: seq<nat>, k: nat)
    requires Distinct(xs) && k < |xs|
    ensures Distinct(xs[..k] + xs[k + 1..])
    ensures forall x :: x in xs[..k] + xs[k + 1..] ==> x in xs && x != xs[k]
  {
    var xs' := xs[..k] + xs[k + 1..];
    forall p | 0 <= p < |xs'| ensures xs'[p] == xs[if p < k then p else p + 1] {
    }
  }

  /** If every entry of xs is in ys and the last entry of ys is not in xs,
      then every entry of xs is in the rest of ys. */
  lemma SubsetOfInit(xs: seq<nat>, ys: seq<nat>)
    requires |ys| > 0 && Last(ys) !in xs
    requires forall x :: x in xs ==> x in ys
    ensures forall x :: x in xs ==> x in Init(ys)
  {
    assert ys == Init(ys) + [Last(ys)];
  }

  lemma {:induction false} ColumnSumNonNegative(s: Snapshot, done: seq<nat>, j: nat)
    requires s.WellShaped() && s.NonNegativeAllocation() && InRange(done, s.Processes()) && j < s.Resources()
    ensures ColumnSum(s, done, j) >= 0
    decreases |done|
  {
    if done != [] {
      ColumnSumNonNegative(s, Init(done), j);
    }
  }

  /** With non-negative allocation, the units held by a set of finished
      processes never exceed those held by a superset. */
  lemma {:induction false} ColumnSumSubset(s: Snapshot, xs: seq<nat>, ys: seq<nat>, j: nat)
    requires s.WellShaped() && s.NonNegativeAllocation() && j < s.Resources()
    requires InRange(xs, s.Processes()) && InRange(ys, s.Processes())
    requires Distinct(xs) && Distinct(ys)
    requires forall x :: x in xs ==> x in ys
    ensures ColumnSum(s, xs, j) <= ColumnSum(s, ys, j)
    decreases |ys|
  {
    if xs == [] {
      assert ys == [] || ColumnSum(s, ys, j) >= 0 by {
        if ys != [] { ColumnSumNonNegative(s, ys, j); }
      }
    } else {
      assert ys != [] by { assert xs[0] in ys; }
      var ys', y := Init(ys), Last(ys);
      assert Distinct(ys');
      assert s.allocation[y][j] >= 0;
      if y in xs {
        var k :| 0 <= k < |xs| && xs[k] == y;
        var a, b := xs[..k], xs[k + 1..];
        assert xs == a + [y] + b;
        ColumnSumRemove(s, a, y, b, j);
        DropEntry(xs, k);
        SubsetOfInit(a + b, ys);
        ColumnSumSubset(s, a + b, ys', j);
      } else {
        SubsetOfInit(xs, ys);
        ColumnSumSubset(s, xs, ys', j);
      }
    }
  }

  /** One pass of the scan, from process i upwards: an unfinished process
      whose need fits in the current work finishes and is appended. */
  function ScanFrom(s: Snapshot, i: nat, done: seq<nat>): seq<nat>
    requires s.WellShaped() && i <= s.Processes()
    requires InRange(done, s.Processes()) && Distinct(done)
    decreases s.Processes() - i
  {
    if i == s.Processes() then done
    else if i !in done && Fits(s.need[i], Work(s, done)) then ScanFrom(s, i + 1, done + [i])
    else ScanFrom(s, i + 1, done)
  }

  /** A pass only appends: the order it returns extends the one it was given
      and still lists distinct processes. */
  lemma {:induction false} ScanExtends(s: Snapshot, i: nat, done: seq<nat>)
    requires s.WellShaped() && i <= s.Processes()
    requires InRange(done, s.Processes()) && Distinct(done)
    ensures var r := ScanFrom(s, i, done);
      InRange(r, s.Processes()) && Distinct(r) && |r| >= |done| && r[..|done|] == done
    decreases s.Processes() - i
  {
    if i < s.Processes() {
      if i !in done && Fits(s.need[i], Work(s, done)) {
        ScanExtends(s, i + 1, done + [i]);
        assert (done + [i])[..|done|] == done;
      } else {
        ScanExtends(s, i + 1, done);
      }
    }
  }

  /** Passes repeat until a pass finishes nobody; the result is the order in
      which processes finished. */
  function Schedule(s: Snapshot, done: seq<nat>): (r: seq<nat>)
    requires s.WellShaped() && InRange(done, s.Processes()) && Distinct(done)
    ensures InRange(r, s.Processes()) && Distinct(r)
    ensures |r| >= |done| && r[..|done|] == done
    decreases s.Processes() - |done|
  {
    var next := ScanFrom(s, 0, done);
    ScanExtends(s, 0, done);
    if |next| == |done| then done
    else
      DistinctInRange(next, s.Processes());
      Schedule(s, next)
  }

  /** One pass of the scan does not change where the iteration ends; a pass
      that finishes nobody is the end. */
  lemma ScheduleStep(s: Snapshot, done: seq<nat>)
    requires s.WellShaped() && InRange(done, s.Processes()) && Distinct(done)
    ensures InRange(ScanFrom(s, 0, done), s.Processes()) && Distinct(ScanFrom(s, 0, done))
    ensures Schedule(s, ScanFrom(s, 0, done)) == Schedule(s, done)
    ensures |ScanFrom(s, 0, done)| == |done| ==> Schedule(s, done) == done
  {
    ScanExtends(s, 0, done);
    var next := ScanFrom(s, 0, done);
    if |next| == |done| {
      assert next == done;
    } else {
      DistinctInRange(next, s.Processes());
    }
  }

  /** A valid execution order: distinct processes, each of whose need fits
      in the work left by the processes before it. */
  predicate Feasible(s: Snapshot, q: seq<nat>)
    requires s.WellShaped()
  {
    && Distinct(q)
    && InRange(q, s.Processes())
    && forall k :: 0 <= k < |q| ==> Fits(s.need[q[k]], Work(s, q[..k]))
  }

  /** A safe sequence: a valid execution order of all processes. */
  predicate IsSafeSequence(s: Snapshot, q: seq<nat>)
    requires s.WellShaped()
  {
    Feasible(s, q) && |q| == s.Processes()
  }

  /** Process i finishes in some valid execution order. */
  ghost predicate CanFinish(s: Snapshot, i: nat)
    requires s.WellShaped()
  {
    exists q :: Feasible(s, q) && i in q
  }

  /** Every process left out of `done` is blocked at the work `done` leaves. */
  predicate Closed(s: Snapshot, done: seq<nat>)
    requires s.WellShaped() && InRange(done, s.Processes())
  {
    forall i :: 0 <= i < s.Processes() && i !in done ==> !Fits(s.need[i], Work(s, done))
  }

  lemma FeasibleExtend(s: Snapshot, q: seq<nat>, i: nat)
    requires s.WellShaped() && Feasible(s, q)
    requires i < s.Processes() && i !in q && Fits(s.need[i], Work(s, q))
    ensures Feasible(s, q + [i])
  {
    var q' := q + [i];
    forall k | 0 <= k < |q'| ensures Fits(s.need[q'[k]], Work(s, q'[..k])) {
      if k < |q| {
        assert q'[..k] == q[..k];
      } else {
        assert q'[..k] == q;
      }
    }
  }

  /** A pass only appends processes whose need fits at the moment they run. */
  lemma {:induction false} ScanFeasible(s: Snapshot, i: nat, done: seq<nat>)
    requires s.WellShaped() && i <= s.Processes() && Feasible(s, done)
    ensures Feasible(s, ScanFrom(s, i, done))
    decreases s.Processes() - i
  {
    if i < s.Processes() {
      if i !in done && Fits(s.need[i], Work(s, done)) {
        FeasibleExtend(s, done, i);
        ScanFeasible(s, i + 1, done + [i]);
      } else {
        ScanFeasible(s, i + 1, done);
      }
    }
  }

  /** The finish order the scan produces is a valid execution order. */
  lemma {:induction false} ScheduleFeasible(s: Snapshot, done: seq<nat>)
    requires s.WellShaped() && Feasible(s, done)
    ensures Feasible(s, Schedule(s, done))
    decreases s.Processes() - |done|
  {
    var next := ScanFrom(s, 0, done);
    ScanFeasible(s, 0, done);
    ScanExtends(s, 0, done);
    if |next| != |done| {
      DistinctInRange(next, s.Processes());
      ScheduleFeasible(s, next);
    }
  }

  /** A pass that appends nobody leaves every unfinished process it scanned
      blocked. */
  lemma {:induction false} ScanStable(s: Snapshot, i: nat, done: seq<nat>)
    requires s.WellShaped() && i <= s.Processes()
    requires InRange(done, s.Processes()) && Distinct(done)
    requires |ScanFrom(s, i, done)| == |done|
    ensures forall k :: i <= k < s.Processes() && k !in done ==> !Fits(s.need[k], Work(s, done))
    decreases s.Processes() - i
  {
    if i < s.Processes() {
      if i !in done && Fits(s.need[i], Work(s, done)) {
        ScanExtends(s, i + 1, done + [i]);
        assert false;
      } else {
        ScanStable(s, i + 1, done);
      }
    }
  }

  /** At the fixed point every process that did not finish is blocked. */
  lemma {:induction false} ScheduleClosed(s: Snapshot, done: seq<nat>)
    requires s.WellShaped() && InRange(done, s.Processes()) && Distinct(done)
    ensures Closed(s, Schedule(s, done))
    decreases s.Processes() - |done|
  {
    var next := ScanFrom(s, 0, done);
    ScanExtends(s, 0, done);
    if |next| == |done| {
      ScanStable(s, 0, done);
    } else {
      DistinctInRange(next, s.Processes());
      ScheduleClosed(s, next);
    }
  }

  /** When every process has finished a pass appends nobody. */
  lemma {:induction false} ScanComplete(s: Snapshot, i: nat, done: seq<nat>)
    requires s.WellShaped() && i <= s.Processes()
    requires InRange(done, s.Processes()) && Distinct(done)
    requires forall k :: 0 <= k < s.Processes() ==> k in done
    ensures ScanFrom(s, i, done) == done
    decreases s.Processes() - i
  {
    if i < s.Processes() {
      ScanComplete(s, i + 1, done);
    }
  }

  /** With non-negative allocation, the first k processes of any valid
      execution order all lie in a closed finish order F. */
  lemma {:induction false} PrefixWithinClosed(s: Snapshot, q: seq<nat>, f: seq<nat>, k: nat)
    requires s.WellShaped() && s.NonNegativeAllocation() && Feasible(s, q)
    requires InRange(f, s.Processes()) && Distinct(f) && Closed(s, f)
    requires k <= |q|
    ensures forall m :: 0 <= m < k ==> q[m] in f
    decreases k
  {
    if k > 0 {
      PrefixWithinClosed(s, q, f, k - 1);
      var x, before := q[k - 1], q[..k - 1];
      assert Distinct(before) && InRange(before, s.Processes());
      assert forall y :: y in before ==> y in f;
      WorkGrows(s, before, f);
      assert Fits(s.need[x], Work(s, before));
    }
  }

  /** With non-negative allocation, finishing more processes leaves at least
      as much work of every resource type. */
  lemma WorkGrows(s: Snapshot, xs: seq<nat>, ys: seq<nat>)
    requires s.WellShaped() && s.NonNegativeAllocation()
    requires InRange(xs, s.Processes()) && Distinct(xs)
    requires InRange(ys, s.Processes()) && Distinct(ys)
    requires forall y :: y in xs ==> y in ys
    ensures forall j :: 0 <= j < s.Resources() ==> Work(s, xs)[j] <= Work(s, ys)[j]
  {
    forall j | 0 <= j < s.Resources() ensures Work(s, xs)[j] <= Work(s, ys)[j] {
      WorkIsColumnSum(s, xs, j);
      WorkIsColumnSum(s, ys, j);
      ColumnSumSubset(s, xs, ys, j);
    }
  }

  /** With non-negative allocation, a process finishes under the ascending
      scan exactly when it finishes in some valid execution order: the scan's
      tie-break (lowest index first) does not change which processes finish. */
  lemma FinishedIffCanFinish(s: Snapshot, i: nat)
    requires s.WellShaped() && s.NonNegativeAllocation() && i < s.Processes()
    ensures i in Schedule(s, []) <==> CanFinish(s, i)
  {
    var f := Schedule(s, []);
    ScheduleFeasible(s, []);
    ScheduleClosed(s, []);
    if CanFinish(s, i) {
      var q :| Feasible(s, q) && i in q;
      PrefixWithinClosed(s, q, f, |q|);
    }
  }

  /** With non-negative allocation, the scan finishes every process exactly
      when a safe sequence exists. */
  lemma ScheduleDecidesSafety(s: Snapshot)
    requires s.WellShaped() && s.NonNegativeAllocation()
    ensures |Schedule(s, [])| == s.Processes() <==> exists q :: IsSafeSequence(s, q)
  {
    var f := Schedule(s, []);
    assert Feasible(s, []);
    ScheduleFeasible(s, []);
    if |f| == s.Processes() {
      assert IsSafeSequence(s, f);
    }
    if exists q :: IsSafeSequence(s, q) {
      var q :| IsSafeSequence(s, q);
      ScheduleClosed(s, []);
      DistinctInRange(q, s.Processes());
      PrefixWithinClosed(s, q, f, |q|);
      forall i | 0 <= i < s.Processes() ensures i in f {
        assert i in q;
        var m :| 0 <= m < |q| && q[m] == i;
        assert q[m] in f;
      }
      DistinctInRange(f, s.Processes());
    }
  }

  /** Running process i: the scan moves on with i appended exactly when i is
      unfinished and its need fits, and the work then grows by i's row. */
  lemma ScanStep(s: Snapshot, i: nat, done: seq<nat>)
    requires s.WellShaped() && i < s.Processes()
    requires InRange(done, s.Processes()) && Distinct(done)
    ensures i !in done ==> InRange(done + [i], s.Processes()) && Distinct(done + [i])
    ensures i !in done ==> Work(s, done + [i]) == Released(Work(s, done), s.allocation[i])
    ensures ScanFrom(s, i, done) ==
              if i !in done && Fits(s.need[i], Work(s, done)) then ScanFrom(s, i + 1, done + [i])
              else ScanFrom(s, i + 1, done)
  {
    if i !in done {
      assert Init(done + [i]) == done;
    }
  }

  /** The local arrays of either analysis agree with a finish order:
      `work` is the work it leaves and `finish[i]` says whether i is in it. */
  ghost predicate Tracks(s: Snapshot, work: array<int>, finish: array<bool>, order: seq<nat>)
    requires s.WellShaped()
    reads work, finish
  {
    && InRange(order, s.Processes()) && Distinct(order)
    && work.Length == s.Resources() && work[..] == Work(s, order)
    && finish.Length == s.Processes()
    && forall i :: 0 <= i < s.Processes() ==> (finish[i] <==> i in order)
  }

  /** Process i runs to completion: it returns its allocation to `work` and
      is marked finished, so the arrays now track the order extended by i. */
  method FinishProcess(s: Snapshot, work: array<int>, finish: array<bool>, ghost order: seq<nat>, i: nat)
    requires s.WellShaped() && Tracks(s, work, finish, order)
    requires i < s.Processes() && i !in order
    modifies work, finish
    ensures Tracks(s, work, finish, order + [i])
  {
    ScanStep(s, i, order);
    Release(work, s.allocation[i]);
    finish[i] := true;
  }

  /** The inner resource loop of both analyses: does this need row fit in
      the current work? Stops at the first resource that does not fit. */
  method CanRun(request: seq<int>, work: array<int>) returns (possible: bool)
    requires |request| == work.Length
    ensures possible <==> Fits(request, work[..])
  {
    possible := true;
    var j := 0;
    while j < work.Length
      invariant 0 <= j <= work.Length
      invariant forall j' :: 0 <= j' < j ==> request[j'] <= work[j']
    {
      if request[j] > work[j] {
        possible := false;
        break;
      }
      j := j + 1;
    }
  }

  /** A finishing process returns its allocation: work[j] += row[j]. */
  method Release(work: array<int>, row: seq<int>)
    requires |row| == work.Length
    modifies work
    ensures work[..] == Released(old(work[..]), row)
  {
    for j := 0 to work.Length
      invariant forall j' :: 0 <= j' < j ==> work[j'] == old(work[j']) + row[j']
      invariant forall j' :: j <= j' < work.Length ==> work[j'] == old(work[j'])
    {
      work[j] := work[j] + row[j];
    }
  }
}
