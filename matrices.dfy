/** The resource-allocation snapshot every analysis reads, and the small
    vocabulary over vectors, rows and index lists that the analyses share. */
module Matrices {

  /** The three tables an analysis reads: the free units of each resource
      type, the units each process holds, and the units each process may
      still request (need = max - allocation, derived beforehand).
      The process count is |allocation| and the resource count |available|,
      as the analyses take them. */
  datatype Snapshot = Snapshot(available: seq<int>, allocation: seq<seq<int>>, need: seq<seq<int>>)
  {
    function Processes(): nat { |allocation| }

    function Resources(): nat { |available| }

    /** Every row of allocation and need has one entry per resource type. */
    predicate WellShaped()
    {
      && |need| == |allocation|
      && (forall i :: 0 <= i < |allocation| ==> |allocation[i]| == |available|)
      && (forall i :: 0 <= i < |need| ==> |need[i]| == |available|)
    }

    /** No process holds a negative number of units (what validation guarantees). */
    predicate NonNegativeAllocation()
      requires WellShaped()
    {
      forall i, j :: 0 <= i < |allocation| && 0 <= j < |available| ==> allocation[i][j] >= 0
    }
  }

  /** A request row can be granted from `work`: no entry exceeds what is free. */
  predicate Fits(request: seq<int>, work: seq<int>)
    requires |request| == |work|
  {
    forall j :: 0 <= j < |work| ==> request[j] <= work[j]
  }

  /** `work` after a process returns the units of `row`. */
  function Released(work: seq<int>, row: seq<int>): (r: seq<int>)
    requires |row| == |work|
    ensures |r| == |work|
    ensures forall j :: 0 <= j < |work| ==> r[j] == work[j] + row[j]
  {
    seq(|work|, j requires 0 <= j < |work| => work[j] + row[j])
  }

  predicate Distinct(s: seq<nat>)
  {
    forall a, b :: 0 <= a < b < |s| ==> s[a] != s[b]
  }

  predicate InRange(s: seq<nat>, n: nat)
  {
    forall k :: 0 <= k < |s| ==> s[k] < n
  }

  predicate StrictlyIncreasing(s: seq<nat>)
  {
    forall a, b :: 0 <= a < b < |s| ==> s[a] < s[b]
  }

  function Init<T>(s: seq<T>): seq<T>
    requires |s| > 0
  {
    s[..|s| - 1]
  }

  function Last<T>(s: seq<T>): T
    requires |s| > 0
  {
    s[|s| - 1]
  }

  function ElementSet(s: seq<nat>): set<nat>
  {
    set x | x in s
  }

  function IndexSet(n: nat): (r: set<nat>)
    ensures forall i: nat :: i in r <==> i < n
  {
    if n == 0 then {} else IndexSet(n - 1) + {n - 1}
  }

  lemma {:induction false} ElementSetSize(s: seq<nat>)
    requires Distinct(s)
    ensures |ElementSet(s)| == |s|
  {
    if s != [] {
      var t := Init(s);
      assert Distinct(t);
      ElementSetSize(t);
      assert s == t + [Last(s)];
      assert Last(s) !in t;
      assert ElementSet(s) == ElementSet(t) + {Last(s)};
    }
  }

  lemma {:induction false} IndexSetSize(n: nat)
    ensures |IndexSet(n)| == n
  {
    if n > 0 {
      IndexSetSize(n - 1);
      assert n - 1 !in IndexSet(n - 1);
      assert IndexSet(n - 1) * {n - 1} == {};
    }
  }

  /** Pigeonhole for index lists: a list of distinct indices below n has at
      most n entries, and it has exactly n entries iff it lists every index. */
  lemma DistinctInRange(s: seq<nat>, n: nat)
    requires Distinct(s) && InRange(s, n)
    ensures |s| <= n
    ensures |s| == n <==> forall i :: 0 <= i < n ==> i in s
  {
    ElementSetSize(s);
    IndexSetSize(n);
    var e, u := ElementSet(s), IndexSet(n);
    assert e <= u;
    assert |u - e| == |u| - |e|;
    if |s| == n {
      assert u - e == {};
      forall i | 0 <= i < n ensures i in s {
        assert i in u;
      }
    }
    if forall i :: 0 <= i < n ==> i in s {
      assert u <= e;
      assert e == u;
    }
  }
}
