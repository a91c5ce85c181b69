/** Input checks run before any analysis, and the derivation of the need
    matrix from the declared maxima and the current allocation. */
module Validation {

  /** Largest process count and largest resource-type count accepted. */
  const MaxDimension: int := 20

  /** The failures the checks report, one per message the application shows. */
  datatype ValidationError =
    | NonPositiveDimension        // a count is zero or negative
    | DimensionTooLarge           // a count exceeds MaxDimension
    | NegativeAvailable           // some available entry is negative
    | NegativeValue               // some allocation or max entry is negative
    | ExceedsMaximum(process: nat) // this process holds more than its declared max

  datatype Outcome = Pass | Fail(error: ValidationError)

  /** The process and resource counts entered by the user are accepted
      exactly when both lie in 1..MaxDimension; non-positive counts are
      reported before counts that are too large. */
  function ValidateInput(processes: int, resources: int): (r: Outcome)
    ensures r == Pass <==> 1 <= processes <= MaxDimension && 1 <= resources <= MaxDimension
    ensures r == Fail(NonPositiveDimension) <==> processes <= 0 || resources <= 0
    ensures r == Fail(DimensionTooLarge) <==>
              processes > 0 && resources > 0 && (processes > MaxDimension || resources > MaxDimension)
  {
    if processes <= 0 || resources <= 0 then Fail(NonPositiveDimension)
    else if processes > MaxDimension || resources > MaxDimension then Fail(DimensionTooLarge)
    else Pass
  }

  /** Allocation and max are P x R tables and available has R entries. */
  predicate Shaped(available: seq<int>, allocation: seq<seq<int>>, max: seq<seq<int>>)
  {
    && |max| == |allocation|
    && (forall i :: 0 <= i < |allocation| ==> |allocation[i]| == |available|)
    && (forall i :: 0 <= i < |max| ==> |max[i]| == |available|)
  }

  predicate AvailableNonNegative(available: seq<int>)
  {
    forall j :: 0 <= j < |available| ==> available[j] >= 0
  }

  /** Cell (i, j) passes: both entries are non-negative and the allocation
      does not exceed the declared maximum. */
  predicate CellOk(allocation: seq<seq<int>>, max: seq<seq<int>>, i: nat, j: nat)
    requires i < |allocation| && i < |max| && j < |allocation[i]| && j < |max[i]|
  {
    allocation[i][j] >= 0 && max[i][j] >= 0 && allocation[i][j] <= max[i][j]
  }

  /** Every cell strictly before (i, j) in row-major order passes. */
  predicate CellsOkBefore(available: seq<int>, allocation: seq<seq<int>>, max: seq<seq<int>>, i: nat, j: nat)
    requires Shaped(available, allocation, max)
    requires i <= |allocation|
  {
    && (forall i', j' :: 0 <= i' < i && 0 <= j' < |available| ==> CellOk(allocation, max, i', j'))
    && (i < |allocation| ==> forall j' :: 0 <= j' < j && j' < |available| ==> CellOk(allocation, max, i, j'))
  }

  /** The state the analyses may run on: nothing negative and no process
      holding more than its maximum. */
  predicate Consistent(available: seq<int>, allocation: seq<seq<int>>, max: seq<seq<int>>)
    requires Shaped(available, allocation, max)
  {
    && AvailableNonNegative(available)
    && forall i, j :: 0 <= i < |allocation| && 0 <= j < |available| ==> CellOk(allocation, max, i, j)
  }

  /** Cell (i, j) is the first failing cell in row-major order, and `e` is
      the error the check reports for it. */
  predicate FailsAt(available: seq<int>, allocation: seq<seq<int>>, max: seq<seq<int>>,
                    e: ValidationError, i: nat, j: nat)
    requires Shaped(available, allocation, max)
  {
    && i < |allocation| && j < |available|
    && CellsOkBefore(available, allocation, max, i, j)
    && match e
         case NegativeValue => allocation[i][j] < 0 || max[i][j] < 0
         case ExceedsMaximum(process) => process == i && 0 <= max[i][j] < allocation[i][j]
         case _ => false
  }

  /** `e` is the failure the checks report first: a negative available entry,
      or else the error of the first failing cell. */
  ghost predicate FirstFailure(available: seq<int>, allocation: seq<seq<int>>, max: seq<seq<int>>, e: ValidationError)
    requires Shaped(available, allocation, max)
  {
    if e == NegativeAvailable then !AvailableNonNegative(available)
    else AvailableNonNegative(available) && exists i, j :: FailsAt(available, allocation, max, e, i, j)
  }

  /** Two cells that are each the first failing cell are the same cell. */
  lemma FirstBadCellUnique(available: seq<int>, allocation: seq<seq<int>>, max: seq<seq<int>>,
                           i1: nat, j1: nat, i2: nat, j2: nat)
    requires Shaped(available, allocation, max)
    requires i1 < |allocation| && j1 < |available| && i2 < |allocation| && j2 < |available|
    requires CellsOkBefore(available, allocation, max, i1, j1) && !CellOk(allocation, max, i1, j1)
    requires CellsOkBefore(available, allocation, max, i2, j2) && !CellOk(allocation, max, i2, j2)
    ensures i1 == i2 && j1 == j2
  {
  }

  /** The first failure is unique: at most one error fits the check order. */
  lemma FirstFailureUnique(available: seq<int>, allocation: seq<seq<int>>, max: seq<seq<int>>,
                           e1: ValidationError, e2: ValidationError)
    requires Shaped(available, allocation, max)
    requires FirstFailure(available, allocation, max, e1) && FirstFailure(available, allocation, max, e2)
    ensures e1 == e2
  {
    if e1 != NegativeAvailable && e2 != NegativeAvailable {
      var i1, j1 :| FailsAt(available, allocation, max, e1, i1, j1);
      var i2, j2 :| FailsAt(available, allocation, max, e2, i2, j2);
      FirstBadCellUnique(available, allocation, max, i1, j1, i2, j2);
    }
  }

  /** Checks available first, then the allocation and max tables cell by cell
      in row-major order; the first failing check decides the error. */
  method ValidateMatrices(available: seq<int>, allocation: seq<seq<int>>, max: seq<seq<int>>)
    returns (r: Outcome)
    requires Shaped(available, allocation, max)
    ensures r == Pass <==> Consistent(available, allocation, max)
    ensures r == Fail(NegativeAvailable) <==> !AvailableNonNegative(available)
    ensures r.Fail? ==> FirstFailure(available, allocation, max, r.error)
  {
    var processes, resources := |allocation|, |available|;
    for j := 0 to resources
      invariant forall j' :: 0 <= j' < j ==> available[j'] >= 0
    {
      if available[j] < 0 {
        return Fail(NegativeAvailable);
      }
    }
    for i := 0 to processes
      invariant CellsOkBefore(available, allocation, max, i, 0)
    {
      for j := 0 to resources
        invariant CellsOkBefore(available, allocation, max, i, j)
      {
        if allocation[i][j] < 0 || max[i][j] < 0 {
          assert !CellOk(allocation, max, i, j);
          assert FailsAt(available, allocation, max, NegativeValue, i, j);
          return Fail(NegativeValue);
        }
        if allocation[i][j] > max[i][j] {
          assert !CellOk(allocation, max, i, j);
          assert FailsAt(available, allocation, max, ExceedsMaximum(i), i, j);
          return Fail(ExceedsMaximum(i));
        }
      }
    }
    return Pass;
  }

  /** `need` has the shape of `allocation` and each process still needs
      what its maximum exceeds its allocation by. */
  predicate IsNeed(allocation: seq<seq<int>>, max: seq<seq<int>>, need: seq<seq<int>>)
    requires |max| == |allocation|
    requires forall i :: 0 <= i < |allocation| ==> |max[i]| == |allocation[i]|
  {
    && |need| == |allocation|
    && (forall i :: 0 <= i < |need| ==> |need[i]| == |allocation[i]|)
    && forall i, j :: 0 <= i < |need| && 0 <= j < |need[i]| ==> allocation[i][j] + need[i][j] == max[i][j]
  }

  /** Fills need cell by cell: need[i][j] = max[i][j] - allocation[i][j]. */
  method ComputeNeed(allocation: seq<seq<int>>, max: seq<seq<int>>) returns (need: seq<seq<int>>)
    requires |max| == |allocation|
    requires forall i :: 0 <= i < |allocation| ==> |max[i]| == |allocation[i]|
    ensures IsNeed(allocation, max, need)
  {
    need := [];
    for i := 0 to |allocation|
      invariant |need| == i
      invariant forall i' :: 0 <= i' < i ==> |need[i']| == |allocation[i']|
      invariant forall i', j :: 0 <= i' < i && 0 <= j < |need[i']| ==> allocation[i'][j] + need[i'][j] == max[i'][j]
    {
      var row: seq<int> := [];
      for j := 0 to |allocation[i]|
        invariant |row| == j
        invariant forall j' :: 0 <= j' < j ==> allocation[i][j'] + row[j'] == max[i][j']
      {
        row := row + [max[i][j] - allocation[i][j]];
      }
      need := need + [row];
    }
  }

  /** On a state that passed validation every need entry lies between 0 and
      the declared maximum. */
  lemma NeedWithinMaximum(available: seq<int>, allocation: seq<seq<int>>, max: seq<seq<int>>, need: seq<seq<int>>)
    requires Shaped(available, allocation, max) && Consistent(available, allocation, max)
    requires IsNeed(allocation, max, need)
    ensures forall i, j :: 0 <= i < |need| && 0 <= j < |need[i]| ==> 0 <= need[i][j] <= max[i][j]
  {
    forall i, j | 0 <= i < |need| && 0 <= j < |need[i]|
      ensures 0 <= need[i][j] <= max[i][j]
    {
      assert CellOk(allocation, max, i, j);
    }
  }
}
