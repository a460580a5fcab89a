/** The include-graph cycle detector of scripts/check_arch.py.

    A depth-first search shares a visited set and a recursion stack between its
    calls and reports one closed path for every edge that leads back into the
    stack.  The search is proved sound (every report is a simple cycle), complete
    (no report means no closed walk at all) and free of repeated closing edges. */
module CycleDetector {

  type Component = string
  type Graph = map<Component, set<Component>>

  function Elements<T>(s: seq<T>): set<T> {
    set x | x in s
  }

  predicate NoDuplicates<T(==)>(s: seq<T>) {
    forall i, j :: 0 <= i < j < |s| ==> s[i] != s[j]
  }

  // ---- The graph that is searched ----------------------------------------

  /** An edge counts when both ends are project components and it is no self-loop. */
  predicate Edge(adj: Graph, projectComps: set<Component>, u: Component, v: Component) {
    u in projectComps && u in adj && v in adj[u] && v in projectComps && v != u
  }

  ghost predicate Walk(adj: Graph, projectComps: set<Component>, w: seq<Component>) {
    forall i :: 0 <= i < |w| - 1 ==> Edge(adj, projectComps, w[i], w[i + 1])
  }

  ghost predicate ClosedWalk(adj: Graph, projectComps: set<Component>, w: seq<Component>) {
    2 <= |w| && w[0] == w[|w| - 1] && Walk(adj, projectComps, w)
  }

  /** A closed walk whose only repeated component is the one it starts and ends with. */
  ghost predicate SimpleCycle(adj: Graph, projectComps: set<Component>, c: seq<Component>) {
    ClosedWalk(adj, projectComps, c) && NoDuplicates(c[..|c| - 1])
  }

  ghost predicate Acyclic(adj: Graph, projectComps: set<Component>) {
    forall w :: !ClosedWalk(adj, projectComps, w)
  }

  /** In terms of the include sets as they are read: a closed path of at least two components
      of the project, each of which includes the next and differs from it. */
  ghost predicate IncludesInCircle(adj: Graph, projectComps: set<Component>, w: seq<Component>) {
    && |w| >= 2 && w[0] == w[|w| - 1]
    && (forall i :: 0 <= i < |w| ==> w[i] in projectComps)
    && (forall i :: 0 <= i < |w| - 1 ==> w[i] != w[i + 1] && w[i] in adj && w[i + 1] in adj[w[i]])
  }

  /** The closed walks are those paths. */
  lemma ClosedWalkIncludes(adj: Graph, projectComps: set<Component>, w: seq<Component>)
    ensures ClosedWalk(adj, projectComps, w) <==> IncludesInCircle(adj, projectComps, w)
  {
    if ClosedWalk(adj, projectComps, w) {
      forall i | 0 <= i < |w|
        ensures w[i] in projectComps
      {
        var j := if i < |w| - 1 then i else 0;
        assert Edge(adj, projectComps, w[j], w[j + 1]);
      }
      forall i | 0 <= i < |w| - 1
        ensures w[i] != w[i + 1] && w[i] in adj && w[i + 1] in adj[w[i]]
      {
        assert Edge(adj, projectComps, w[i], w[i + 1]);
      }
    }
  }

  ghost function ClosingEdge(c: seq<Component>): (Component, Component)
    requires 2 <= |c|
  {
    (c[|c| - 2], c[|c| - 1])
  }

  ghost predicate DistinctClosingEdges(cycles: seq<seq<Component>>)
  {
    (forall k :: 0 <= k < |cycles| ==> 2 <= |cycles[k]|) &&
    forall i, j :: 0 <= i < j < |cycles| ==> ClosingEdge(cycles[i]) != ClosingEdge(cycles[j])
  }

  /** The closing edges of all reported cycles. */
  ghost function ClosingEdges(cycles: seq<seq<Component>>): set<(Component, Component)> {
    set k | 0 <= k < |cycles| && 2 <= |cycles[k]| :: ClosingEdge(cycles[k])
  }

  /** Every closed walk runs through one of the edges in `cut`. */
  ghost predicate CutsEveryClosedWalk(adj: Graph, projectComps: set<Component>, cut: set<(Component, Component)>) {
    forall w :: ClosedWalk(adj, projectComps, w) ==> exists i :: 0 <= i < |w| - 1 && (w[i], w[i + 1]) in cut
  }

  // ---- Finishing order ---------------------------------------------------

  /** Every edge outside `cut` leads from a component to one that stands earlier in `order`. */
  ghost predicate ReverseTopological(adj: Graph, projectComps: set<Component>, cut: set<(Component, Component)>,
                                     order: seq<Component>) {
    forall i, v :: 0 <= i < |order| && Edge(adj, projectComps, order[i], v) && (order[i], v) !in cut
                   ==> v in order[..i]
  }

  lemma ExtendOrder(adj: Graph, projectComps: set<Component>, cut: set<(Component, Component)>,
                    order: seq<Component>, node: Component)
    requires ReverseTopological(adj, projectComps, cut, order)
    requires forall v :: Edge(adj, projectComps, node, v) ==> v in Elements(order) || (node, v) in cut
    ensures ReverseTopological(adj, projectComps, cut, order + [node])
  {
    forall i, v | 0 <= i <= |order| && Edge(adj, projectComps, (order + [node])[i], v)
                  && ((order + [node])[i], v) !in cut
      ensures v in (order + [node])[..i]
    {
      if i < |order| {
        assert (order + [node])[..i] == order[..i];
      } else {
        assert (order + [node])[..i] == order;
      }
    }
  }

  /** One more report keeps the finishing order. */
  lemma ReportCuts(adj: Graph, projectComps: set<Component>, cycles: seq<seq<Component>>, c: seq<Component>,
                   order: seq<Component>)
    requires forall k :: 0 <= k < |cycles| ==> |cycles[k]| >= 2
    requires |c| >= 2 && ReverseTopological(adj, projectComps, ClosingEdges(cycles), order)
    ensures ClosingEdges(cycles + [c]) == ClosingEdges(cycles) + {ClosingEdge(c)}
    ensures ReverseTopological(adj, projectComps, ClosingEdges(cycles + [c]), order)
  {
    assert forall k :: 0 <= k < |cycles| ==> (cycles + [c])[k] == cycles[k];
    assert (cycles + [c])[|cycles|] == c;
  }

  lemma {:induction false} WalkDescends(adj: Graph, projectComps: set<Component>, cut: set<(Component, Component)>,
                                        order: seq<Component>, w: seq<Component>, a: nat, k: nat)
    requires ReverseTopological(adj, projectComps, cut, order)
    requires Walk(adj, projectComps, w) && 0 < k < |w|
    requires forall i :: 0 <= i < |w| - 1 ==> (w[i], w[i + 1]) !in cut
    requires a < |order| && order[a] == w[0]
    ensures w[k] in order[..a]
  {
    assert Edge(adj, projectComps, w[0], w[1]) && (w[0], w[0 + 1]) !in cut;
    if k > 1 {
      var b :| 0 <= b < a && order[b] == w[1];
      forall i | 0 <= i < |w[1..]| - 1
        ensures Edge(adj, projectComps, w[1..][i], w[1..][i + 1]) && (w[1..][i], w[1..][i + 1]) !in cut
      {
        assert Edge(adj, projectComps, w[i + 1], w[i + 1 + 1]) && (w[i + 1], w[i + 1 + 1]) !in cut;
      }
      WalkDescends(adj, projectComps, cut, order, w[1..], b, k - 1);
    }
  }

  /** A finishing order that covers every component leaves no closed walk outside the cut. */
  lemma OrderedGraphIsCut(adj: Graph, projectComps: set<Component>, cut: set<(Component, Component)>,
                          order: seq<Component>)
    requires ReverseTopological(adj, projectComps, cut, order)
    requires projectComps <= Elements(order) && NoDuplicates(order)
    ensures CutsEveryClosedWalk(adj, projectComps, cut)
  {
    forall w | ClosedWalk(adj, projectComps, w) && forall i :: 0 <= i < |w| - 1 ==> (w[i], w[i + 1]) !in cut
      ensures false
    {
      assert Edge(adj, projectComps, w[0], w[1]);
      var a :| 0 <= a < |order| && order[a] == w[0];
      WalkDescends(adj, projectComps, cut, order, w, a, |w| - 1);
    }
  }

  lemma NoReportMeansAcyclic(adj: Graph, projectComps: set<Component>, cycles: seq<seq<Component>>)
    requires forall k :: 0 <= k < |cycles| ==> SimpleCycle(adj, projectComps, cycles[k])
    requires CutsEveryClosedWalk(adj, projectComps, ClosingEdges(cycles))
    ensures cycles == [] <==> Acyclic(adj, projectComps)
  {
    if cycles != [] {
      assert ClosedWalk(adj, projectComps, cycles[0]);
    }
  }

  lemma AcyclicMeansNoCircle(adj: Graph, projectComps: set<Component>)
    ensures Acyclic(adj, projectComps) <==> forall w :: !IncludesInCircle(adj, projectComps, w)
  {
    forall w: seq<Component>
      ensures ClosedWalk(adj, projectComps, w) <==> IncludesInCircle(adj, projectComps, w)
    {
      ClosedWalkIncludes(adj, projectComps, w);
    }
    hide ClosedWalk, IncludesInCircle;
  }

  lemma CyclesInclude(adj: Graph, projectComps: set<Component>, cycles: seq<seq<Component>>)
    requires forall k :: 0 <= k < |cycles| ==> SimpleCycle(adj, projectComps, cycles[k])
    ensures forall k :: 0 <= k < |cycles| ==> IncludesInCircle(adj, projectComps, cycles[k])
  {
    forall k | 0 <= k < |cycles|
      ensures IncludesInCircle(adj, projectComps, cycles[k])
    {
      ClosedWalkIncludes(adj, projectComps, cycles[k]);
    }
  }

  // ---- The search --------------------------------------------------------

  class CycleSearch {
    const adj: Graph
    const projectComps: set<Component>
    var pruned: Graph
    var visited: set<Component>
    var recStack: seq<Component>
    var cycles: seq<seq<Component>>
    ghost var finished: seq<Component>

    ghost predicate Pruned()
      reads this
    {
      pruned.Keys == projectComps &&
      forall u, v :: u in pruned ==> (v in pruned[u] <==> Edge(adj, projectComps, u, v))
    }

    ghost predicate Valid()
      reads this
    {
      && Pruned()
      && visited <= projectComps
      && visited == Elements(recStack) + Elements(finished)
      && Elements(recStack) !! Elements(finished)
      && NoDuplicates(recStack) && NoDuplicates(finished)
      && Walk(adj, projectComps, recStack)
      && (forall k :: 0 <= k < |cycles| ==> SimpleCycle(adj, projectComps, cycles[k]))
      && (forall k :: 0 <= k < |cycles| ==> ClosingEdge(cycles[k]).0 in visited)
      && DistinctClosingEdges(cycles)
      && ReverseTopological(adj, projectComps, ClosingEdges(cycles), finished)
    }

    constructor (adj: Graph, projectComps: set<Component>)
      ensures this.adj == adj && this.projectComps == projectComps
      ensures Valid() && recStack == [] && cycles == []
    {
      this.adj := adj;
      this.projectComps := projectComps;
      pruned, visited, recStack, cycles, finished := map[], {}, [], [], [];
      new;
      Prune();
    }

    /** One row per project component: the others of them that it includes. */
    method Prune()
      modifies this`pruned
      ensures Pruned()
      ensures pruned.Keys == projectComps
      ensures forall u, v :: u in pruned ==>
                (v in pruned[u] <==> u in adj && v in adj[u] && v in projectComps && v != u)
    {
      pruned := map[];
      var rest := projectComps;
      while rest != {}
        invariant rest <= projectComps && pruned.Keys == projectComps - rest
        invariant forall u, v :: u in pruned ==> (v in pruned[u] <==> Edge(adj, projectComps, u, v))
        decreases rest
      {
        var node :| node in rest;
        if node in adj {
          pruned := pruned[node := set t | t in adj[node] && t in projectComps && t != node];
        } else {
          pruned := pruned[node := {}];
        }
        rest := rest - {node};
      }
    }

    /** `list.index`: the first position of an element that is known to be there. */
    static method IndexOf(path: seq<Component>, node: Component) returns (idx: nat)
      requires node in path
      ensures idx < |path| && path[idx] == node && node !in path[..idx]
    {
      idx := 0;
      while path[idx] != node
        invariant idx < |path| && node !in path[..idx]
        decreases |path| - idx
      {
        idx := idx + 1;
      }
    }

    method Dfs(node: Component, path: seq<Component>)
      requires Valid() && node in projectComps && node !in visited
      requires path == recStack + [node] && Walk(adj, projectComps, path)
      modifies this`visited, this`recStack, this`cycles, this`finished
      ensures Valid() && recStack == old(recStack)
      ensures node in visited && old(visited) <= visited
      ensures old(cycles) <= cycles
      ensures forall k :: |old(cycles)| <= k < |cycles| ==> ClosingEdge(cycles[k]).0 !in old(visited)
      decreases projectComps - visited, 0
    {
      hide ReverseTopological, Walk, NoDuplicates;
      Enter(node);
      var rest := pruned[node];
      while rest != {}
        invariant Valid() && recStack == path && rest <= pruned[node]
        invariant old(visited) + {node} <= visited
        invariant old(cycles) <= cycles
        invariant forall k :: |old(cycles)| <= k < |cycles| ==> ClosingEdge(cycles[k]).0 !in old(visited)
        invariant forall k :: 0 <= k < |cycles| && ClosingEdge(cycles[k]).0 == node
                              ==> ClosingEdge(cycles[k]).1 !in rest
        invariant forall v :: v in pruned[node] - rest ==> v in Elements(finished) || (node, v) in ClosingEdges(cycles)
        decreases rest
      {
        var neigh :| neigh in rest;
        assert Edge(adj, projectComps, node, neigh);
        rest := rest - {neigh};
        Explore(neigh, path);
      }
      Finish(node);
      assert path[..|path| - 1] == old(recStack);
    }

    /** One turn of the neighbour loop, for the component on top of the stack. */
    method Explore(neigh: Component, path: seq<Component>)
      requires Valid() && path == recStack && path != []
      requires Edge(adj, projectComps, recStack[|recStack| - 1], neigh)
      requires forall k :: 0 <= k < |cycles| && ClosingEdge(cycles[k]).0 == recStack[|recStack| - 1]
                           ==> ClosingEdge(cycles[k]).1 != neigh
      modifies this`visited, this`recStack, this`cycles, this`finished
      ensures Valid() && recStack == path && old(visited) <= visited && old(cycles) <= cycles
      ensures neigh in Elements(finished) || (path[|path| - 1], neigh) in ClosingEdges(cycles)
      ensures ClosingEdges(old(cycles)) <= ClosingEdges(cycles)
      ensures Elements(old(finished)) <= Elements(finished)
      ensures forall k :: |old(cycles)| <= k < |cycles| ==>
                ClosingEdge(cycles[k]) == (path[|path| - 1], neigh) || ClosingEdge(cycles[k]).0 !in old(visited)
      decreases projectComps - visited, 1
    {
      if neigh !in visited {
        Dfs(neigh, path + [neigh]);
      } else if neigh in recStack {
        ReportCycle(path, neigh);
      }
    }

    /** The entry of a call: its component is marked and goes onto the stack. */
    method Enter(node: Component)
      requires Valid() && node in projectComps && node !in visited
      requires Walk(adj, projectComps, recStack + [node])
      modifies this`visited, this`recStack
      ensures Valid() && recStack == old(recStack) + [node] && visited == old(visited) + {node}
    {
      assert node !in Elements(recStack) && node !in Elements(finished);
      visited := visited + {node};
      recStack := recStack + [node];
    }

    /** The branch that found `neigh` on the stack. */
    method ReportCycle(path: seq<Component>, neigh: Component)
      requires Valid() && path == recStack && neigh in recStack
      requires Edge(adj, projectComps, recStack[|recStack| - 1], neigh)
      requires forall k :: 0 <= k < |cycles| && ClosingEdge(cycles[k]).0 == recStack[|recStack| - 1]
                           ==> ClosingEdge(cycles[k]).1 != neigh
      modifies this`cycles
      ensures Valid() && |cycles| == |old(cycles)| + 1 && old(cycles) <= cycles
      ensures ClosingEdge(cycles[|old(cycles)|]) == (recStack[|recStack| - 1], neigh)
    {
      var idx := IndexOf(path, neigh);
      var cyclePath := path[idx..] + [neigh];
      CloseCycle(idx, neigh);
      ReportCuts(adj, projectComps, cycles, cyclePath, finished);
      hide ReverseTopological, SimpleCycle, Walk;
      cycles := cycles + [cyclePath];
    }

    /** The return of a call: its component leaves the stack. */
    method Finish(node: Component)
      requires Valid() && recStack != [] && recStack[|recStack| - 1] == node
      requires forall v :: v in pruned[node] ==> v in Elements(finished) || (node, v) in ClosingEdges(cycles)
      modifies this`recStack, this`finished
      ensures Valid() && recStack == old(recStack)[..|old(recStack)| - 1]
    {
      var below := recStack[..|recStack| - 1];
      assert recStack == below + [node];
      assert node in Elements(recStack) && node !in Elements(finished);
      ExtendOrder(adj, projectComps, ClosingEdges(cycles), finished, node);
      recStack := below;
      finished := finished + [node];
    }

    /** An edge back into the stack closes a simple cycle. */
    lemma CloseCycle(idx: nat, neigh: Component)
      requires idx < |recStack| && recStack[idx] == neigh
      requires Walk(adj, projectComps, recStack) && NoDuplicates(recStack)
      requires Edge(adj, projectComps, recStack[|recStack| - 1], neigh)
      ensures SimpleCycle(adj, projectComps, recStack[idx..] + [neigh])
      ensures ClosingEdge(recStack[idx..] + [neigh]) == (recStack[|recStack| - 1], neigh)
    {
      var c := recStack[idx..] + [neigh];
      assert |c| >= 2;
      forall i | 0 <= i < |c| - 1
        ensures Edge(adj, projectComps, c[i], c[i + 1])
      {
        if i < |c| - 2 {
          assert Edge(adj, projectComps, recStack[idx + i], recStack[idx + i + 1]);
        }
      }
      assert c[..|c| - 1] == recStack[idx..];
    }
  }

  /** Reports only simple cycles, and enough of them: every closed walk of the pruned
      graph runs through a reported closing edge, so nothing is reported exactly when no
      components of the project include each other in a circle.  No edge closes two reports. */
  method DetectCyclesFromEdges(adj: Graph, projectComps: set<Component>) returns (cycles: seq<seq<Component>>)
    ensures forall k :: 0 <= k < |cycles| ==> SimpleCycle(adj, projectComps, cycles[k])
    ensures CutsEveryClosedWalk(adj, projectComps, ClosingEdges(cycles))
    ensures forall k :: 0 <= k < |cycles| ==> IncludesInCircle(adj, projectComps, cycles[k])
    ensures cycles == [] <==> forall w :: !IncludesInCircle(adj, projectComps, w)
    ensures DistinctClosingEdges(cycles)
  {
    hide Acyclic, IncludesInCircle, SimpleCycle, CutsEveryClosedWalk;
    var search := new CycleSearch(adj, projectComps);
    var rest := projectComps;
    while rest != {}
      invariant search.Valid() && search.recStack == []
      invariant search.adj == adj && search.projectComps == projectComps
      invariant rest <= projectComps && projectComps - rest <= search.visited
      invariant fresh(search)
      decreases rest
    {
      var comp :| comp in rest;
      rest := rest - {comp};
      if comp !in search.visited {
        assert search.recStack + [comp] == [comp];
        search.Dfs(comp, [comp]);
      }
    }
    cycles := search.cycles;
    OrderedGraphIsCut(adj, projectComps, ClosingEdges(cycles), search.finished);
    NoReportMeansAcyclic(adj, projectComps, cycles);
    CyclesInclude(adj, projectComps, cycles);
    AcyclicMeansNoCircle(adj, projectComps);
  }
}
