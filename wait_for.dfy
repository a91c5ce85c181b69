/** The wait-for graph analysis: process i waits for process j when i still
    needs some resource type that j holds. Every process is used as the
    root of a fresh depth-first search, and a process is reported when the
    search from it runs into a node on its own recursion stack. */
module WaitFor {
  import opened Matrices

  /** Process i waits for a different process j: for some resource type, i
      still needs units of it and j holds units of it. */
  predicate WaitsFor(s: Snapshot, i: nat, j: nat)
    requires s.WellShaped() && i < s.Processes() && j < s.Processes()
  {
    i != j && exists k :: 0 <= k < s.Resources() && s.need[i][k] > 0 && s.allocation[j][k] > 0
  }

  /** Row i of the wait-for graph: the processes i waits for, ascending. */
  predicate IsWaitForRow(s: Snapshot, i: nat, row: seq<nat>)
    requires s.WellShaped() && i < s.Processes()
  {
    && StrictlyIncreasing(row)
    && (forall j :: j in row ==> j < s.Processes() && WaitsFor(s, i, j))
    && (forall j :: 0 <= j < s.Processes() && WaitsFor(s, i, j) ==> j in row)
  }

  /** The adjacency lists of the wait-for graph, one per process. */
  predicate IsWaitForGraph(s: Snapshot, graph: seq<seq<nat>>)
    requires s.WellShaped()
  {
    && |graph| == s.Processes()
    && forall i :: 0 <= i < s.Processes() ==> IsWaitForRow(s, i, graph[i])
  }

  /** Adjacency lists over nodes 0..|graph|-1. */
  predicate IsGraph(graph: seq<seq<nat>>)
  {
    forall u :: 0 <= u < |graph| ==> InRange(graph[u], |graph|)
  }

  /** A walk: a list of nodes, each an out-neighbour of the one before. */
  predicate IsWalk(graph: seq<seq<nat>>, p: seq<nat>)
    requires IsGraph(graph)
  {
    && InRange(p, |graph|)
    && forall k :: 0 <= k < |p| - 1 ==> p[k + 1] in graph[p[k]]
  }

  /** A walk from u comes back to a node it already passed: from u a cycle
      can be reached. */
  ghost predicate CycleReachable(graph: seq<seq<nat>>, u: nat)
    requires IsGraph(graph)
  {
    exists p: seq<nat> :: IsWalk(graph, p) && |p| >= 2 && p[0] == u && Last(p) in Init(p)
  }

  /** The graph has a cycle somewhere. */
  ghost predicate HasCycle(graph: seq<seq<nat>>)
    requires IsGraph(graph)
  {
    exists p: seq<nat> :: IsWalk(graph, p) && |p| >= 2 && Last(p) in Init(p)
  }

  /** Builds the adjacency lists: for every ordered pair of different
      processes and every resource type, adds the edge when the need and
      allocation overlap there and the edge is not already listed. */
  method BuildWaitForGraph(s: Snapshot) returns (graph: seq<seq<nat>>)
    requires s.WellShaped()
    ensures IsWaitForGraph(s, graph)
    ensures IsGraph(graph)
    ensures forall i :: 0 <= i < |graph| ==> i !in graph[i] && Distinct(graph[i])
  {
    var processes, resources := s.Processes(), s.Resources();
    var rows := new seq<nat>[processes](_ => []);
    for i := 0 to processes
      invariant forall i' :: 0 <= i' < i ==> IsWaitForRow(s, i', rows[i'])
      invariant forall i' :: i <= i' < processes ==> rows[i'] == []
    {
      ghost var others := rows[..];
      for j := 0 to processes
        invariant forall i' :: 0 <= i' < processes && i' != i ==> rows[i'] == others[i']
        invariant StrictlyIncreasing(rows[i]) && InRange(rows[i], j)
        invariant forall j': nat :: j' in rows[i] <==> j' < j && WaitsFor(s, i, j')
      {
        if i != j {
          ghost var row := rows[i];
          for k := 0 to resources
            invariant forall i' :: 0 <= i' < processes && i' != i ==> rows[i'] == others[i']
            invariant rows[i] == row || rows[i] == row + [j]
            invariant rows[i] == row + [j] <==>
                        exists k' :: 0 <= k' < k && s.need[i][k'] > 0 && s.allocation[j][k'] > 0
          {
            if s.need[i][k] > 0 && s.allocation[j][k] > 0 {
              if j !in rows[i] {
                rows[i] := rows[i] + [j];
              }
            }
          }
          assert rows[i] == row + [j] <==> WaitsFor(s, i, j);
        }
      }
    }
    graph := rows[..];
    forall i | 0 <= i < |graph| ensures InRange(graph[i], |graph|) && i !in graph[i] && Distinct(graph[i]) {
      assert IsWaitForRow(s, i, graph[i]);
      forall k | 0 <= k < |graph[i]| ensures graph[i][k] < |graph| {
        assert graph[i][k] in graph[i];
      }
    }
  }

  /** Two ascending lists with the same elements are equal. */
  lemma {:induction false} IncreasingSameElements(a: seq<nat>, b: seq<nat>)
    requires StrictlyIncreasing(a) && StrictlyIncreasing(b)
    requires forall x :: x in a <==> x in b
    ensures a == b
    decreases |a|
  {
    assert Distinct(a) && Distinct(b);
    ElementSetSize(a);
    ElementSetSize(b);
    assert ElementSet(a) == ElementSet(b);
    if a != [] {
      assert a[0] == b[0] by {
        assert b[0] in a && a[0] in b;
      }
      forall x ensures x in a[1..] <==> x in b[1..] {
        if x in a[1..] {
          assert x in b && x != b[0];
        }
        if x in b[1..] {
          assert x in a && x != a[0];
        }
      }
      IncreasingSameElements(a[1..], b[1..]);
    }
  }

  /** The wait-for graph of a snapshot is unique: the adjacency lists are
      fixed by the edge relation and their ascending order. */
  lemma WaitForGraphUnique(s: Snapshot, g1: seq<seq<nat>>, g2: seq<seq<nat>>)
    requires s.WellShaped() && IsWaitForGraph(s, g1) && IsWaitForGraph(s, g2)
    ensures g1 == g2
  {
    forall i | 0 <= i < |g1| ensures g1[i] == g2[i] {
      assert IsWaitForRow(s, i, g1[i]) && IsWaitForRow(s, i, g2[i]);
      IncreasingSameElements(g1[i], g2[i]);
    }
  }

  /** Every successor of a finished node finished before it. */
  ghost predicate Ordered(graph: seq<seq<nat>>, done: seq<nat>)
    requires IsGraph(graph)
  {
    forall k :: 0 <= k < |done| && done[k] < |graph| ==>
      forall v :: v in graph[done[k]] ==> v in done[..k]
  }

  /** The search state: the recursion-stack flags mark exactly the nodes on
      the current path from the root, the visited nodes off that path are
      exactly the finished ones, and these finished in an order where every
      successor finished first. */
  ghost predicate DfsState(graph: seq<seq<nat>>, visited: array<bool>, recStack: array<bool>,
                           stack: seq<nat>, done: seq<nat>)
    requires IsGraph(graph)
    reads visited, recStack
  {
    && visited.Length == |graph| && recStack.Length == |graph|
    && InRange(stack, |graph|) && Distinct(stack)
    && InRange(done, |graph|) && Distinct(done)
    && (forall u :: 0 <= u < |graph| ==> (recStack[u] <==> u in stack))
    && (forall u :: 0 <= u < |graph| ==> (visited[u] && !recStack[u] <==> u in done))
    && (forall u :: 0 <= u < |graph| && recStack[u] ==> visited[u])
    && Ordered(graph, done)
  }

  /** Finishing a node whose successors all finished keeps the order. */
  lemma OrderedAppend(graph: seq<seq<nat>>, done: seq<nat>, node: nat)
    requires IsGraph(graph) && Ordered(graph, done) && node < |graph|
    requires forall v :: v in graph[node] ==> v in done
    ensures Ordered(graph, done + [node])
  {
    var d := done + [node];
    forall k | 0 <= k < |d| && d[k] < |graph|
      ensures forall v :: v in graph[d[k]] ==> v in d[..k]
    {
      if k < |done| {
        assert d[..k] == done[..k];
      } else {
        assert d[..k] == done;
      }
    }
  }

  /** Depth-first search from `node`, reached along the ghost path `stack`
      from the root of the search. It reports true as soon as an edge leads
      to a node on the recursion stack; otherwise it marks `node` finished
      and clears its recursion-stack flag. */
  method DetectCycleDFS(node: nat, graph: seq<seq<nat>>, visited: array<bool>, recStack: array<bool>,
                        ghost stack: seq<nat>, ghost done: seq<nat>)
    returns (found: bool, ghost done': seq<nat>)
    requires IsGraph(graph) && node < |graph| && visited != recStack
    requires DfsState(graph, visited, recStack, stack, done)
    requires !visited[node]
    requires IsWalk(graph, stack + [node])
    modifies visited, recStack
    ensures found ==> CycleReachable(graph, (stack + [node])[0])
    ensures !found ==> DfsState(graph, visited, recStack, stack, done')
    ensures !found ==> node in done' && forall u :: u in done ==> u in done'
    decreases |graph| - |stack|
  {
    ghost var path := stack + [node];
    Enter(node, graph, visited, recStack, stack, done);
    DistinctInRange(path, |graph|);
    ghost var cur := done;
    var neighbors := graph[node];
    for idx := 0 to |neighbors|
      invariant DfsState(graph, visited, recStack, path, cur)
      invariant forall u :: u in done ==> u in cur
      invariant forall t :: 0 <= t < idx ==> neighbors[t] in cur
    {
      var neighbor := neighbors[idx];
      if !visited[neighbor] {
        var f;
        f, cur := DetectCycleDFS(neighbor, graph, visited, recStack, path, cur);
        if f {
          return true, cur;
        }
      } else if recStack[neighbor] {
        BackEdgeCycle(graph, path, neighbor);
        return true, cur;
      }
    }
    done' := Leave(node, graph, visited, recStack, stack, cur);
    return false, done';
  }

  /** Entering a node marks it visited and puts it on the recursion stack. */
  method Enter(node: nat, graph: seq<seq<nat>>, visited: array<bool>, recStack: array<bool>,
               ghost stack: seq<nat>, ghost done: seq<nat>)
    requires IsGraph(graph) && node < |graph| && visited != recStack
    requires DfsState(graph, visited, recStack, stack, done) && !visited[node]
    modifies visited, recStack
    ensures DfsState(graph, visited, recStack, stack + [node], done)
    ensures visited[..] == old(visited[..])[node := true]
    ensures recStack[..] == old(recStack[..])[node := true]
  {
    visited[node] := true;
    recStack[node] := true;
    assert Distinct(stack + [node]);
  }

  /** Leaving a node whose successors have all finished takes it off the
      recursion stack and records it as finished. */
  method Leave(node: nat, graph: seq<seq<nat>>, visited: array<bool>, recStack: array<bool>,
               ghost stack: seq<nat>, ghost done: seq<nat>) returns (ghost done': seq<nat>)
    requires IsGraph(graph) && node < |graph| && visited != recStack
    requires DfsState(graph, visited, recStack, stack + [node], done)
    requires forall v :: v in graph[node] ==> v in done
    modifies recStack
    ensures DfsState(graph, visited, recStack, stack, done')
    ensures recStack[..] == old(recStack[..])[node := false]
    ensures done' == done + [node]
  {
    assert recStack[node] && node !in done;
    assert node !in stack by {
      forall a | 0 <= a < |stack| ensures stack[a] != node {
        assert stack[a] == (stack + [node])[a] && node == (stack + [node])[|stack|];
      }
    }
    recStack[node] := false;
    OrderedAppend(graph, done, node);
    done' := done + [node];
    assert Init(stack + [node]) == stack;
    forall u | 0 <= u < |graph| ensures recStack[u] <==> u in stack {
      assert u in stack + [node] <==> u in stack || u == node;
    }
    forall u | 0 <= u < |graph| ensures visited[u] && !recStack[u] <==> u in done' {
      assert u in done' <==> u in done || u == node;
    }
  }

  /** An edge from the end of a walk back to a node on it closes a cycle
      reachable from the walk's start. */
  lemma BackEdgeCycle(graph: seq<seq<nat>>, path: seq<nat>, v: nat)
    requires IsGraph(graph) && IsWalk(graph, path) && path != []
    requires v in graph[Last(path)] && v in path
    ensures CycleReachable(graph, path[0])
  {
    var p := path + [v];
    assert IsWalk(graph, p) && Init(p) == path;
  }

  /** The position of x in s. */
  function Pos(s: seq<nat>, x: nat): (r: nat)
    requires x in s
    ensures r < |s| && s[r] == x
  {
    if s[0] == x then 0 else 1 + Pos(s[1..], x)
  }

  /** In a list of distinct entries, the entry at k sits at position k. */
  lemma PosOfDistinct(s: seq<nat>, k: nat)
    requires Distinct(s) && k < |s|
    ensures Pos(s, s[k]) == k
  {
  }

  /** A walk that starts at a finished node stays among the finished nodes,
      and strictly earlier finished nodes lie strictly further along it. */
  lemma {:induction false} WalkDescends(graph: seq<seq<nat>>, done: seq<nat>, p: seq<nat>)
    requires IsGraph(graph) && InRange(done, |graph|) && Distinct(done) && Ordered(graph, done)
    requires IsWalk(graph, p) && |p| > 0 && p[0] in done
    ensures forall t :: 0 <= t < |p| ==> p[t] in done
    ensures forall a, b :: 0 <= a < b < |p| && p[a] in done && p[b] in done ==> Pos(done, p[b]) < Pos(done, p[a])
    decreases |p|
  {
    if |p| > 1 {
      var q := Init(p);
      var n := |p| - 1;
      assert IsWalk(graph, q);
      WalkDescends(graph, done, q);
      assert forall t :: 0 <= t < n ==> q[t] == p[t];
      var k := Pos(done, q[n - 1]);
      assert p[n] in graph[done[k]];
      var m :| 0 <= m < k && done[m] == p[n];
      PosOfDistinct(done, m);
      forall a | 0 <= a < n - 1 ensures Pos(done, p[n]) < Pos(done, p[a]) {
        assert Pos(done, q[n - 1]) < Pos(done, q[a]);
      }
    }
  }

  /** No cycle can be reached from a node that finished without one. */
  lemma NoCycleFromFinished(graph: seq<seq<nat>>, done: seq<nat>, u: nat)
    requires IsGraph(graph) && InRange(done, |graph|) && Distinct(done) && Ordered(graph, done)
    requires u in done
    ensures !CycleReachable(graph, u)
  {
    forall p: seq<nat> | IsWalk(graph, p) && |p| >= 2 && p[0] == u
      ensures Last(p) !in Init(p)
    {
      WalkDescends(graph, done, p);
      forall m | 0 <= m < |p| - 1 ensures Init(p)[m] != Last(p) {
        assert Pos(done, p[|p| - 1]) < Pos(done, p[m]);
      }
    }
  }

  /** Runs a fresh search from every process in ascending order; the
      processes from which a search finds a cycle are reported. */
  method FindCycleProcesses(graph: seq<seq<nat>>) returns (hasCycle: bool, cycleProcesses: seq<nat>)
    requires IsGraph(graph)
    ensures forall i :: i in cycleProcesses <==> 0 <= i < |graph| && CycleReachable(graph, i)
    ensures StrictlyIncreasing(cycleProcesses)
    ensures hasCycle <==> cycleProcesses != []
  {
    var processes := |graph|;
    hasCycle, cycleProcesses := false, [];
    for i := 0 to processes
      invariant forall x :: x in cycleProcesses <==> 0 <= x < i && CycleReachable(graph, x)
      invariant StrictlyIncreasing(cycleProcesses) && InRange(cycleProcesses, i)
      invariant hasCycle <==> cycleProcesses != []
    {
      var found := SearchFrom(graph, i);
      if found {
        hasCycle := true;
        cycleProcesses := cycleProcesses + [i];
      }
    }
  }

  /** One search with fresh visited and recursion-stack flags: it reports
      true exactly when a cycle can be reached from the root. */
  method SearchFrom(graph: seq<seq<nat>>, root: nat) returns (found: bool)
    requires IsGraph(graph) && root < |graph|
    ensures found <==> CycleReachable(graph, root)
  {
    var processes := |graph|;
    var visited := new bool[processes](_ => false);
    var recStack := new bool[processes](_ => false);
    ghost var done;
    assert IsWalk(graph, [] + [root]);
    found, done := DetectCycleDFS(root, graph, visited, recStack, [], []);
    if !found {
      NoCycleFromFinished(graph, done, root);
    }
  }

  /** Some node reaches a cycle exactly when the graph has a cycle. */
  lemma SomeReachesIffCycle(graph: seq<seq<nat>>)
    requires IsGraph(graph)
    ensures (exists u :: 0 <= u < |graph| && CycleReachable(graph, u)) <==> HasCycle(graph)
  {
    if HasCycle(graph) {
      var p: seq<nat> :| IsWalk(graph, p) && |p| >= 2 && Last(p) in Init(p);
      assert CycleReachable(graph, p[0]);
    }
  }

  /** The wait-for analysis: builds the graph, then reports the processes
      from which a cycle can be reached, in ascending order. */
  method AnalyzeWaitForGraph(s: Snapshot) returns (graph: seq<seq<nat>>, hasCycle: bool, cycleProcesses: seq<nat>)
    requires s.WellShaped()
    ensures IsWaitForGraph(s, graph) && IsGraph(graph)
    ensures forall i :: i in cycleProcesses <==> 0 <= i < s.Processes() && CycleReachable(graph, i)
    ensures StrictlyIncreasing(cycleProcesses)
    ensures hasCycle <==> HasCycle(graph)
    ensures hasCycle <==> cycleProcesses != []
  {
    graph := BuildWaitForGraph(s);
    hasCycle, cycleProcesses := FindCycleProcesses(graph);
    SomeReachesIffCycle(graph);
    if hasCycle {
      assert cycleProcesses[0] in cycleProcesses;
    }
  }
}
