/** The single-goal searches of the backend: `validate_path`, `ucs_search`
    and `a_star_search`. Both searches check their endpoints, answer a
    search from a node to itself at once, run the breadth-first
    connectivity test, and only then run the best-first engine. The
    great-circle distance is a parameter `dist`, since its trigonometry is
    not part of this model. */
module Pathfinding {
  import opened Paths
  import opened GraphStore
  import Connectivity
  import BestFirst

  datatype SearchError =
    | StartNotFound(node: NodeId)
    | GoalNotFound(node: NodeId)
    | NoConnection(from: NodeId, to: NodeId)
    | NoPathExists
    | InvalidPathGenerated

  /** The `(cost, path, nodes_expanded, max_frontier_size, error_msg, _)`
      tuple: a found path with its metrics, or the error message. */
  datatype SearchResult =
    | Found(cost: real, path: seq<NodeId>, expanded: nat, maxFrontier: nat)
    | Failed(error: SearchError)

  /** `validate_path(graph, path)`: paths shorter than two nodes pass;
      otherwise every consecutive pair must be an edge. */
  method ValidatePath(adj: Adj, path: seq<NodeId>) returns (ok: bool)
    ensures ok <==> path == [] || IsPath(adj, path)
  {
    if |path| < 2 {
      return true;
    }
    var i := 1;
    while i < |path|
      invariant 1 <= i <= |path|
      invariant forall j :: 0 < j < i ==> HasEdge(adj, path[j - 1], path[j])
    {
      if path[i] !in Neighbors(adj, path[i - 1]) {
        return false;
      }
      i := i + 1;
    }
    return true;
  }

  /** Both endpoints exist and the goal can be reached from the start. */
  ghost predicate Connected(g: Graph, start: NodeId, goal: NodeId)
  {
    start in g.nodes && goal in g.nodes && (start == goal || Reachable(g.edges, start, goal))
  }

  /** The error a failed search reports: the first endpoint check that fails,
      or else the failed connectivity test. */
  function ExpectedError(g: Graph, start: NodeId, goal: NodeId): SearchError
  {
    if start !in g.nodes then StartNotFound(start)
    else if goal !in g.nodes then GoalNotFound(goal)
    else NoConnection(start, goal)
  }

  /** The body shared by both searches, for the heuristic `h` and the
      priority `startPrio` of the initial entry. */
  method Guarded(g: Graph, start: NodeId, goal: NodeId, h: NodeId -> real, startPrio: real)
    returns (r: SearchResult)
    ensures r.Found? <==> Connected(g, start, goal)
    ensures r.Failed? ==> r.error == ExpectedError(g, start, goal)
    ensures r.Found? ==> PathFromTo(g.edges, r.path, start, goal) && r.cost == PathCost(g.edges, r.path)
    ensures r.Found? && start == goal ==> r == Found(0.0, [start], 1, 1)
    ensures r.Found? && start != goal && Consistent(g.edges, h) ==>
      Shortest(g.edges, start, goal, r.cost)
    ensures r.Found? ==> r.expanded <= |ReachableFrom(g.edges, start)| && r.maxFrontier >= 1
  {
    if start !in g.nodes {
      return Failed(StartNotFound(start));
    }
    if goal !in g.nodes {
      return Failed(GoalNotFound(goal));
    }
    if start == goal {
      InReachableFrom(g.edges, [start], start);
      return Found(0.0, [start], 1, 1);
    }
    var linked := Connectivity.CheckConnectivity(g, start, goal);
    if !linked {
      return Failed(NoConnection(start, goal));
    }
    var out := BestFirst.Run(g.edges, start, {goal}, h, startPrio, false);
    var ok := ValidatePath(g.edges, if out.Reached? then out.path else []);
    r := if out.Exhausted? then Failed(NoPathExists)
         else if !ok then Failed(InvalidPathGenerated)
         else Found(out.cost, out.path, out.expanded, out.maxFrontier);
  }

  /** `ucs_search(graph, start, goal)`. With non-negative weights the path
      found is a shortest one. */
  method UcsSearch(g: Graph, start: NodeId, goal: NodeId) returns (r: SearchResult)
    ensures r.Found? <==> Connected(g, start, goal)
    ensures r.Failed? ==> r.error == ExpectedError(g, start, goal)
    ensures r.Found? ==> PathFromTo(g.edges, r.path, start, goal) && r.cost == PathCost(g.edges, r.path)
    ensures r.Found? && start == goal ==> r == Found(0.0, [start], 1, 1)
    ensures r.Found? && NonNegWeights(g.edges) ==> Shortest(g.edges, start, goal, r.cost)
  {
    r := Guarded(g, start, goal, Zero, 0.0);
    if r.Found? && NonNegWeights(g.edges) {
      ZeroConsistent(g.edges);
      if start == goal {
        forall p | PathFromTo(g.edges, p, start, goal) ensures r.cost <= PathCost(g.edges, p) {
          NonNegCost(g.edges, p);
        }
      }
    }
  }

  /** The A* estimate: the distance from a node's coordinates to the goal's. */
  function GoalDistance(g: Graph, dist: (Coord, Coord) -> real, goal: NodeId): NodeId -> real
  {
    n => if n in g.nodes && goal in g.nodes then dist(g.nodes[n], g.nodes[goal]) else 0.0
  }

  /** `a_star_search(graph, start, goal)` with the distance function `dist`.
      Every neighbour must be a node, since the estimate looks up its
      coordinates. With a consistent estimate the path found is a shortest
      one. */
  method AStarSearch(g: Graph, start: NodeId, goal: NodeId, dist: (Coord, Coord) -> real)
    returns (r: SearchResult)
    requires ReferencesOk(g)
    ensures r.Found? <==> Connected(g, start, goal)
    ensures r.Failed? ==> r.error == ExpectedError(g, start, goal)
    ensures r.Found? ==> PathFromTo(g.edges, r.path, start, goal) && r.cost == PathCost(g.edges, r.path)
    ensures r.Found? && start == goal ==> r == Found(0.0, [start], 1, 1)
    ensures r.Found? && start != goal && Consistent(g.edges, GoalDistance(g, dist, goal)) ==>
      Shortest(g.edges, start, goal, r.cost)
  {
    var h := GoalDistance(g, dist, goal);
    r := Guarded(g, start, goal, h, h(start));
  }

  /** `dist` obeys the triangle inequality towards `target`. */
  ghost predicate TriangleTowards(dist: (Coord, Coord) -> real, target: Coord)
  {
    forall x, y :: dist(x, target) <= dist(x, y) + dist(y, target)
  }

  /** No edge is shorter than the distance between its endpoints. */
  ghost predicate EdgesCoverDistance(g: Graph, dist: (Coord, Coord) -> real)
  {
    forall a, b :: a in g.edges && b in g.edges[a] ==>
      a in g.nodes && b in g.nodes && dist(g.nodes[a], g.nodes[b]) <= g.edges[a][b]
  }

  /** A distance that obeys the triangle inequality, on a graph whose edges
      are never shorter than it, yields a consistent estimate, so A* then
      returns a shortest path. */
  lemma DistanceConsistent(g: Graph, dist: (Coord, Coord) -> real, goal: NodeId)
    requires goal in g.nodes && TriangleTowards(dist, g.nodes[goal]) && EdgesCoverDistance(g, dist)
    ensures Consistent(g.edges, GoalDistance(g, dist, goal))
  {
    var h := GoalDistance(g, dist, goal);
    forall a, b | HasEdge(g.edges, a, b) ensures h(a) <= g.edges[a][b] + h(b) {
      var w := g.edges[a][b];
      assert a in g.nodes && b in g.nodes;
      var ca, cb, cg := g.nodes[a], g.nodes[b], g.nodes[goal];
      assert dist(ca, cb) <= w;
      assert dist(ca, cg) <= dist(ca, cb) + dist(cb, cg);
      assert h(a) == dist(ca, cg) && h(b) == dist(cb, cg);
    }
  }
}
