/** The depth-first search that looks for dependency cycles between packages.

    `parent.set(node, null)` at the entry of every call erases the parent that the caller
    has just stored, so the walk back along parents stops after its first step. The search
    still finds out whether there is a cycle; which edges it reports is stated exactly. */
module FindCycles {
  import opened Common

  type Node = string
  type Edge = (Node, Node)
  type Graph = map<Node, seq<Node>>

  function Neighbours(g: Graph, n: Node): seq<Node> {
    if n in g then g[n] else []
  }

  ghost function Universe(g: Graph): set<Node> {
    g.Keys + set n, m | n in g && m in g[n] :: m
  }

  ghost predicate Walk(g: Graph, p: seq<Node>) {
    forall i :: 0 <= i < |p| - 1 ==> p[i + 1] in Neighbours(g, p[i])
  }

  ghost predicate IsCycle(g: Graph, p: seq<Node>) {
    2 <= |p| && p[0] == p[|p| - 1] && Walk(g, p)
  }

  ghost predicate Cyclic(g: Graph) {
    exists p :: IsCycle(g, p)
  }

  ghost predicate OnCycle(g: Graph, n: Node) {
    exists p :: IsCycle(g, p) && n in p
  }

  /** A package that depends on itself, or two packages that depend on each other. */
  ghost predicate HasShortCycle(g: Graph) {
    exists a, b :: b in Neighbours(g, a) && a in Neighbours(g, b)
  }

  /** A reported pair is a reversed edge or a loop, and lies on a cycle at both ends. */
  ghost predicate Sound(g: Graph, e: Edge) {
    (e.0 == e.1 || e.0 in Neighbours(g, e.1)) && OnCycle(g, e.0) && OnCycle(g, e.1)
  }

  ghost predicate HoldsRealEdge(g: Graph, edges: set<Edge>) {
    exists e :: e in edges && e.1 in Neighbours(g, e.0)
  }

  /** The consecutive pairs of a path. */
  ghost function PathEdges(p: seq<Node>): set<Edge> {
    if |p| < 2 then {} else PathEdges(p[..|p| - 1]) + {(p[|p| - 2], p[|p| - 1])}
  }

  lemma ShortPathEdges(first: Node, last: Node)
    ensures PathEdges([first, last]) == {(first, last)}
    ensures PathEdges([first, last, last]) == {(first, last), (last, last)}
  {
    assert [first, last][..1] == [first];
    assert [first, last, last][..2] == [first, last];
  }

  ghost predicate Before(order: seq<Node>, m: Node, n: Node) {
    exists i, j :: 0 <= i < j < |order| && order[i] == m && order[j] == n
  }

  /** An edge n -> m whose target finished first, or which was reported. */
  ghost predicate Explained(order: seq<Node>, reported: set<Edge>, n: Node, m: Node) {
    Before(order, m, n) || ((n, n) in reported && (m, n) in reported)
  }

  ghost predicate AllExplained(g: Graph, order: seq<Node>, reported: set<Edge>) {
    forall n, m :: n in order && m in Neighbours(g, n) ==> Explained(order, reported, n, m)
  }

  lemma StackClosesCycle(g: Graph, stack: seq<Node>, back: Node)
    requires stack != [] && Walk(g, stack) && back in stack
    requires back in Neighbours(g, stack[|stack| - 1])
    ensures OnCycle(g, back) && OnCycle(g, stack[|stack| - 1])
  {
    var i :| 0 <= i < |stack| && stack[i] == back;
    var p := stack[i..] + [back];
    forall k | 0 <= k < |p| - 1
      ensures p[k + 1] in Neighbours(g, p[k])
    {
      if k + 1 < |p| - 1 {
        assert p[k] == stack[i + k] && p[k + 1] == stack[i + k + 1];
      }
    }
    assert IsCycle(g, p);
    assert p[0] == back && p[|p| - 2] == stack[|stack| - 1];
  }

  lemma BeforeIsKept(order: seq<Node>, more: seq<Node>, m: Node, n: Node)
    requires order <= more && Before(order, m, n)
    ensures Before(more, m, n)
  {
  }

  /** A node whose neighbours have finished or were reported may finish next. */
  lemma FinishesInOrder(g: Graph, order: seq<Node>, reported: set<Edge>, node: Node)
    requires AllExplained(g, order, reported)
    requires forall m :: m in Neighbours(g, node) ==> m in order || ((node, node) in reported && (m, node) in reported)
    ensures AllExplained(g, order + [node], reported)
  {
    var more := order + [node];
    forall n, m | n in more && m in Neighbours(g, n)
      ensures Explained(more, reported, n, m)
    {
      if n in order {
        assert Explained(order, reported, n, m);
        if Before(order, m, n) {
          BeforeIsKept(order, more, m, n);
        }
      } else if m in order {
        var i :| 0 <= i < |order| && order[i] == m;
        assert more[i] == m && more[|order|] == node;
      }
    }
  }

  /** Along a walk over unreported edges the finishing order only goes down. */
  lemma {:induction false} WalksGoDown(g: Graph, order: seq<Node>, p: seq<Node>)
    requires Distinct(order) && AllExplained(g, order, {})
    requires g.Keys <= Elements(order)
    requires 2 <= |p| && Walk(g, p)
    ensures Before(order, p[|p| - 1], p[0])
  {
    var last := |p| - 1;
    assert p[last] in Neighbours(g, p[last - 1]);
    assert p[last - 1] in Elements(order);
    assert Before(order, p[last], p[last - 1]);
    if 2 < |p| {
      WalksGoDown(g, order, p[..last]);
      var i, j :| 0 <= i < j < |order| && order[i] == p[last] && order[j] == p[last - 1];
      var k, l :| 0 <= k < l < |order| && order[k] == p[last - 1] && order[l] == p[0];
      assert j == k;
    }
  }

  /** With every package finished and nothing reported, there is no cycle. */
  lemma SilenceMeansAcyclic(g: Graph, order: seq<Node>)
    requires Distinct(order) && AllExplained(g, order, {})
    requires g.Keys <= Elements(order)
    ensures !Cyclic(g)
  {
    if Cyclic(g) {
      var p :| IsCycle(g, p);
      WalksGoDown(g, order, p);
      assert false;
    }
  }

  /** Some reported pair is an edge of the graph exactly when the graph has a cycle of
      length one or two: on longer cycles every report misses the graph's edges. */
  lemma RealEdgesExactlyOnShortCycles(g: Graph, order: seq<Node>, reported: set<Edge>)
    requires Distinct(order) && AllExplained(g, order, reported)
    requires g.Keys <= Elements(order)
    requires forall e :: e in reported ==> Sound(g, e)
    ensures HoldsRealEdge(g, reported) <==> HasShortCycle(g)
  {
  }

  class CycleFinder {
    const graph: Graph
    var cycleEdges: set<Edge>
    var visited: set<Node>
    var recStack: set<Node>
    var parent: map<Node, Option<Node>>
    /** The chain of calls in progress, and the packages in the order their calls returned. */
    ghost var stack: seq<Node>
    ghost var finished: seq<Node>

    constructor (adjacencyList: Graph)
      ensures graph == adjacencyList && Valid()
      ensures stack == [] && finished == [] && cycleEdges == {}
    {
      graph := adjacencyList;
      cycleEdges, visited, recStack, parent := {}, {}, {}, map[];
      stack, finished := [], [];
    }

    ghost predicate Valid()
      reads this
    {
      && recStack == Elements(stack) && Distinct(stack) && Walk(graph, stack)
      && visited == recStack + Elements(finished) && recStack !! Elements(finished)
      && Distinct(finished) && visited <= Universe(graph)
      && (forall n :: n in visited ==> n in parent && parent[n] == None)
      && (forall e :: e in cycleEdges ==> Sound(graph, e))
      && AllExplained(graph, finished, cycleEdges)
    }

    /** The walk back from node to neighbour, and the pairs it adds. */
    method ReportCycle(node: Node, neighbour: Node)
      requires node in parent && parent[node] == None
      modifies this`cycleEdges
      ensures cycleEdges == old(cycleEdges) + {(neighbour, node), (node, node)}
    {
      var current := Some(node);
      var cyclePath: seq<Node> := [];
      while current.Some? && current.value != neighbour
        invariant current == None ==> cyclePath == [node] && node != neighbour
        invariant current.Some? ==> cyclePath == [] && current.value == node
        decreases current.Some?
      {
        cyclePath := [current.value] + cyclePath;
        current := if current.value in parent then parent[current.value] else None;
      }
      cyclePath := [neighbour] + cyclePath + [node];
      for i := 0 to |cyclePath| - 1
        invariant cycleEdges == old(cycleEdges) + PathEdges(cyclePath[..i + 1])
      {
        assert cyclePath[..i + 2][..i + 1] == cyclePath[..i + 1];
        cycleEdges := cycleEdges + {(cyclePath[i], cyclePath[i + 1])};
      }
      assert cyclePath[..|cyclePath|] == cyclePath;
      assert cyclePath == if node == neighbour then [neighbour, node] else [neighbour, node, node];
      ShortPathEdges(neighbour, node);
    }

    /** A neighbour that is on the stack closes a cycle. */
    method BackEdge(node: Node, neighbour: Node)
      requires Valid() && stack != [] && stack[|stack| - 1] == node
      requires neighbour in Neighbours(graph, node) && neighbour in recStack
      modifies this`cycleEdges
      ensures Valid() && old(cycleEdges) <= cycleEdges && Settled(node, neighbour)
    {
      StackClosesCycle(graph, stack, neighbour);
      ReportCycle(node, neighbour);
      assert Sound(graph, (neighbour, node)) && Sound(graph, (node, node));
      forall n, m | n in finished && m in Neighbours(graph, n)
        ensures Explained(finished, cycleEdges, n, m)
      {
        assert Explained(finished, old(cycleEdges), n, m);
      }
    }

    /** Puts node on the stack. */
    method Enter(node: Node)
      requires Valid() && node !in visited && node in Universe(graph)
      requires stack == [] || node in Neighbours(graph, stack[|stack| - 1])
      modifies this`visited, this`recStack, this`parent, this`stack
      ensures Valid() && stack == old(stack) + [node] && visited == old(visited) + {node}
    {
      visited := visited + {node};
      recStack := recStack + {node};
      parent := parent[node := None];
      stack := stack + [node];
    }

    /** Takes node off the stack: all its neighbours are settled. */
    method Leave(node: Node)
      requires Valid() && stack != [] && stack[|stack| - 1] == node
      requires forall m :: m in Neighbours(graph, node) ==> Settled(node, m)
      modifies this`recStack, this`stack, this`finished
      ensures Valid() && stack == old(stack)[..|old(stack)| - 1] && finished == old(finished) + [node]
    {
      recStack := recStack - {node};
      FinishesInOrder(graph, finished, cycleEdges, node);
      assert stack == stack[..|stack| - 1] + [node];
      stack := stack[..|stack| - 1];
      finished := finished + [node];
    }

    /** One neighbour of the package on top of the stack. */
    method Look(node: Node, neighbour: Node) returns (found: bool)
      requires Valid() && stack != [] && stack[|stack| - 1] == node
      requires neighbour in Neighbours(graph, node)
      modifies this
      ensures Valid() && !found && stack == old(stack) && Settled(node, neighbour)
      ensures old(finished) <= finished && old(visited) <= visited && old(cycleEdges) <= cycleEdges
      decreases Universe(graph) - visited, 1
    {
      if neighbour !in visited {
        parent := parent[neighbour := Some(node)];
        assert node in graph && neighbour in graph[node];
        found := Dfs(neighbour);
      } else {
        if neighbour in recStack {
          BackEdge(node, neighbour);
        }
        found := false;
      }
    }

    /** One call of the search: everything below node is finished, nothing is undone. */
    method Dfs(node: Node) returns (found: bool)
      requires Valid() && node !in visited && node in Universe(graph)
      requires stack == [] || node in Neighbours(graph, stack[|stack| - 1])
      modifies this
      ensures Valid() && !found && stack == old(stack) && node in finished
      ensures old(finished) <= finished && old(visited) <= visited && old(cycleEdges) <= cycleEdges
      decreases Universe(graph) - visited, 0
    {
      Enter(node);
      var neighbours := Neighbours(graph, node);
      for i := 0 to |neighbours|
        invariant Valid() && stack == old(stack) + [node]
        invariant old(finished) <= finished && old(cycleEdges) <= cycleEdges
        invariant old(visited) <= visited && node in visited
        invariant forall m :: m in neighbours[..i] ==> Settled(node, m)
      {
        var below := Look(node, neighbours[i]);
        if below {
          return true;
        }
        assert neighbours[..i + 1] == neighbours[..i] + [neighbours[i]];
      }
      assert neighbours[..|neighbours|] == neighbours;
      Leave(node);
      return false;
    }

    /** A neighbour that has finished, or whose edge was reported. */
    ghost predicate Settled(n: Node, m: Node)
      reads this
    {
      m in finished || ((n, n) in cycleEdges && (m, n) in cycleEdges)
    }

    /** Reports something exactly when the graph has a cycle; every reported pair is a loop or
        a reversed edge between packages on cycles; and it is an edge of the graph for some pair
        exactly when the graph has a cycle of length one or two. */
    method FindCycles() returns (edges: set<Edge>)
      requires Valid() && stack == [] && finished == [] && cycleEdges == {}
      modifies this
      ensures edges != {} <==> Cyclic(graph)
      ensures forall e :: e in edges ==> Sound(graph, e)
      ensures HoldsRealEdge(graph, edges) <==> HasShortCycle(graph)
    {
      var remaining := graph.Keys;
      while remaining != {}
        invariant Valid() && stack == []
        invariant graph.Keys - remaining <= visited
      {
        var node :| node in remaining;
        if node !in visited {
          var _ := Dfs(node);
        }
        remaining := remaining - {node};
      }
      edges := cycleEdges;
      RealEdgesExactlyOnShortCycles(graph, finished, edges);
      if edges == {} {
        SilenceMeansAcyclic(graph, finished);
      } else {
        var e :| e in edges;
        assert Sound(graph, e);
      }
    }
  }
}
