/** The older search module: uniform-cost search and A* towards the nearest
    of several goals. Both test for a goal as soon as an entry leaves the
    queue, before the visited check, and both run on the shared best-first
    engine. */
module LegacySearch {
  import opened Values
  import opened Paths
  import opened Heuristics
  import BestFirst

  function GoalSet(goals: seq<NodeId>): (s: set<NodeId>)
    ensures forall t :: t in s <==> exists i :: 0 <= i < |goals| && goals[i] == t
  {
    set i | 0 <= i < |goals| :: goals[i]
  }

  /** Some goal can be reached from `start`. */
  ghost predicate SomeGoalReachable(adj: Adj, start: NodeId, goals: seq<NodeId>)
  {
    exists i :: 0 <= i < |goals| && Reachable(adj, start, goals[i])
  }

  /** `r` is a path from `start` to one of the goals, paired with its cost. */
  predicate Delivers(adj: Adj, start: NodeId, goals: seq<NodeId>, r: (seq<NodeId>, real))
  {
    |r.0| > 0 && PathFromTo(adj, r.0, start, Last(r.0)) && Last(r.0) in GoalSet(goals) && r.1 == PathCost(adj, r.0)
  }

  /** Translates the engine's outcome into the `(path, cost)` / `(None, inf)`
      answer of the older module. */
  lemma Answered(adj: Adj, start: NodeId, goals: seq<NodeId>, out: BestFirst.Outcome)
    requires out.Reached? ==>
      |out.path| > 0 && PathFromTo(adj, out.path, start, Last(out.path)) && Last(out.path) in GoalSet(goals)
    requires out.Exhausted? ==> forall t :: t in GoalSet(goals) ==> !Reachable(adj, start, t)
    ensures out.Reached? <==> SomeGoalReachable(adj, start, goals)
  {
    if out.Reached? {
      var i :| 0 <= i < |goals| && goals[i] == Last(out.path);
      assert PathFromTo(adj, out.path, start, goals[i]);
    } else {
      forall i | 0 <= i < |goals| ensures !Reachable(adj, start, goals[i]) {
        assert goals[i] in GoalSet(goals);
      }
    }
  }

  /** `uniform_cost_search(graph, start, goals)`; `None` stands for
      `(None, float('inf'))`. */
  method UniformCostSearch(adj: Adj, start: NodeId, goals: seq<NodeId>) returns (r: Option<(seq<NodeId>, real)>)
    ensures r.Some? ==> Delivers(adj, start, goals, r.value)
    ensures r.Some? <==> SomeGoalReachable(adj, start, goals)
    ensures r.Some? && NonNegWeights(adj) ==>
      forall p :: IsPath(adj, p) && p[0] == start && Last(p) in GoalSet(goals) ==> r.value.1 <= PathCost(adj, p)
    ensures start in GoalSet(goals) ==> r == Some(([start], 0.0))
  {
    var out := BestFirst.Run(adj, start, GoalSet(goals), Zero, 0.0, true);
    Answered(adj, start, goals, out);
    if NonNegWeights(adj) {
      ZeroConsistent(adj);
    }
    r := if out.Reached? then Some((out.path, out.cost)) else None;
  }

  /** The estimate `a_star_search` attaches to a queued node: the smallest
      composite estimate over the goals. */
  function Estimate(positions: map<NodeId, Pos>, goals: seq<NodeId>, metadata: map<NodeId, Meta>,
                    w: HeuristicWeights): NodeId -> real
    requires |goals| > 0 && GoalsUsable(goals, positions, metadata)
  {
    n => if n in positions then MinComposite(positions[n], goals, positions, metadata, w) else 0.0
  }

  /** `a_star_search(graph, positions, start, goals, metadata, weights)`. The
      goals must be non-empty with positions and non-zero prices, and every
      neighbour must have a position, where Python would otherwise raise. */
  method AStarSearch(adj: Adj, positions: map<NodeId, Pos>, start: NodeId, goals: seq<NodeId>,
                     metadata: map<NodeId, Meta>, w: HeuristicWeights) returns (r: Option<(seq<NodeId>, real)>)
    requires |goals| > 0 && GoalsUsable(goals, positions, metadata)
    requires forall n :: n in Targets(adj) ==> n in positions
    ensures r.Some? ==> Delivers(adj, start, goals, r.value)
    ensures r.Some? <==> SomeGoalReachable(adj, start, goals)
    ensures r.Some? && Consistent(adj, Estimate(positions, goals, metadata, w)) ==> var h := Estimate(positions, goals, metadata, w);
      forall p :: IsPath(adj, p) && p[0] == start && Last(p) in GoalSet(goals) ==>
        r.value.1 + h(Last(r.value.0)) <= PathCost(adj, p) + h(Last(p))
    ensures start in GoalSet(goals) ==> r == Some(([start], 0.0))
  {
    var out := BestFirst.Run(adj, start, GoalSet(goals), Estimate(positions, goals, metadata, w), 0.0, true);
    Answered(adj, start, goals, out);
    r := if out.Reached? then Some((out.path, out.cost)) else None;
  }

  /** Every edge is at least `alpha` times the Manhattan distance between its
      ends. */
  predicate Dominates(adj: Adj, positions: map<NodeId, Pos>, alpha: real)
  {
    forall a, b :: a in adj && b in adj[a] ==>
      a in positions && b in positions && adj[a][b] >= alpha * Manhattan(positions[a], positions[b])
  }

  /** With a non-negative `alpha` and edges that dominate the scaled
      Manhattan distance, the goal-set estimate is consistent, so A* returns
      a path that is optimal up to the estimate at its end. */
  lemma EstimateConsistent(adj: Adj, positions: map<NodeId, Pos>, goals: seq<NodeId>, metadata: map<NodeId, Meta>,
                           w: HeuristicWeights)
    requires |goals| > 0 && GoalsUsable(goals, positions, metadata)
    requires w.alpha >= 0.0 && Dominates(adj, positions, w.alpha)
    ensures Consistent(adj, Estimate(positions, goals, metadata, w))
  {
    var h := Estimate(positions, goals, metadata, w);
    forall a, b | HasEdge(adj, a, b) ensures h(a) <= adj[a][b] + h(b) {
      DominatesAt(adj, positions, w.alpha, a, b);
      EdgeConsistent(adj, positions, goals, metadata, w, a, b);
      EstimateAt(positions, goals, metadata, w, a);
      EstimateAt(positions, goals, metadata, w, b);
    }
  }

  /** Along one edge that dominates the scaled Manhattan distance, the
      goal-set estimate drops by at most the edge's weight. */
  lemma EdgeConsistent(adj: Adj, positions: map<NodeId, Pos>, goals: seq<NodeId>, metadata: map<NodeId, Meta>,
                       w: HeuristicWeights, a: NodeId, b: NodeId)
    requires |goals| > 0 && GoalsUsable(goals, positions, metadata) && w.alpha >= 0.0
    requires HasEdge(adj, a, b) && a in positions && b in positions
    requires adj[a][b] >= w.alpha * Manhattan(positions[a], positions[b])
    ensures MinComposite(positions[a], goals, positions, metadata, w)
      <= adj[a][b] + MinComposite(positions[b], goals, positions, metadata, w)
  {
    var pa, pb := positions[a], positions[b];
    MinCompositeLipschitz(pa, pb, goals, positions, metadata, w);
    Chain(MinComposite(pa, goals, positions, metadata, w), MinComposite(pb, goals, positions, metadata, w),
          w.alpha * Manhattan(pa, pb), adj[a][b]);
  }

  lemma DominatesAt(adj: Adj, positions: map<NodeId, Pos>, alpha: real, a: NodeId, b: NodeId)
    requires Dominates(adj, positions, alpha) && HasEdge(adj, a, b)
    ensures a in positions && b in positions && adj[a][b] >= alpha * Manhattan(positions[a], positions[b])
  {
  }

  lemma EstimateAt(positions: map<NodeId, Pos>, goals: seq<NodeId>, metadata: map<NodeId, Meta>,
                   w: HeuristicWeights, n: NodeId)
    requires |goals| > 0 && GoalsUsable(goals, positions, metadata) && n in positions
    ensures Estimate(positions, goals, metadata, w)(n) == MinComposite(positions[n], goals, positions, metadata, w)
  {
  }

  lemma Chain(x: real, y: real, m: real, c: real)
    requires x <= m + y && m <= c
    ensures x <= c + y
  {
  }

  /** The heuristic weights per user profile of the older web endpoint; an
      unknown profile gets the balanced weights. Distance and price raise
      every profile's estimate, while quality and review count lower it. */
  function ProfileWeights(userType: string): (w: HeuristicWeights)
    ensures w.alpha > 0.0 && w.beta > 0.0 && w.gamma < 0.0 && w.delta < 0.0
  {
    if userType == "foodie" then HeuristicWeights(2.0, 10.0, -7.0, -0.7)
    else if userType == "budget_conscious" then HeuristicWeights(2.0, 60.0, -2.0, -0.2)
    else if userType == "in_a_hurry" then HeuristicWeights(6.0, 20.0, -2.0, -0.2)
    else if userType == "luxury_seeker" then HeuristicWeights(4.0, 10.0, -5.0, -0.5)
    else HeuristicWeights(3.4, 33.0, -3.3, -0.33)
  }
}
