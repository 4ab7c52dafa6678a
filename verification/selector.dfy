/** The two entry points of the backend: `find_optimal_path`, which scores
    the open eateries and routes to the best-scored one that can be reached,
    and `get_top_eateries`, which lists the best `n` of them. The graph and
    attributes are passed in as already loaded; the clock reading `now` and
    the great-circle distance `dist` are parameters. */
module Selector {
  import opened Values
  import opened Paths
  import opened GraphStore
  import opened AttributeStore
  import OpenHours
  import opened Scoring
  import opened Ranking
  import Pathfinding

  /** `MAX_TOP_EATERIES`. */
  const MaxTopEateries: int := 10

  /** The `{"error": ...}` answers of the two entry points. `UnexpectedError`
      is the answer of their exception handlers, reached when scoring raises
      `TypeError`. */
  datatype ApiError =
    | StartNotFound(node: NodeId)
    | NoValidEateries
    | InvalidAlgorithm
    | NoReachableEateries
    | InvalidTopN
    | TopNTooSmall
    | UnexpectedError

  /** The route answer: the goal with its score, the path and its cost, the
      weights used, the eatery's record and open status, the direct
      distance, and the search metrics. */
  datatype Route = Route(start: NodeId, goal: NodeId, goalScore: real, path: seq<NodeId>, cost: real,
                         algorithm: string, weights: Weights, info: Record, open: bool, distance: real,
                         expanded: nat, maxFrontier: nat)

  datatype PathAnswer = Routed(route: Route) | PathRefused(error: ApiError)

  /** One entry of the top list: the record with its id, 1-based rank,
      score, open status and direct distance. */
  datatype Listing = Listing(id: NodeId, rank: nat, score: real, info: Record, open: bool, distance: real)

  datatype TopAnswer = Listed(listings: seq<Listing>) | TopRefused(error: ApiError)

  /** `convert_ranks_to_weights(custom_ranks) if custom_ranks else
      DEFAULT_WEIGHTS`: never empty, every weight positive. */
  function WeightsFor(ranks: seq<(string, Value)>): (w: Weights)
    ensures w != [] && forall i :: 0 <= i < |w| ==> w[i].1 > 0.0
    ensures ranks == [] ==> w == DefaultWeights
  {
    if ranks == [] then
      DefaultWeightsCover();
      DefaultWeights
    else ConvertRanksToWeights(ranks)
  }

  /** The score mapping both entry points compute, or the error it raises. */
  function Scores(attrs: Attributes, order: seq<EateryId>, g: Graph, start: NodeId, ranks: seq<(string, Value)>,
                  now: OpenHours.TimeOfDay, dist: (Coord, Coord) -> real): ScoreResult
    requires start in g.nodes
  {
    ComputeScores(attrs, order, g, start, WeightsFor(ranks), now, dist)
  }

  /** Scoring the open eateries with the weights for `ranks` raises. */
  ghost predicate ScoringFails(attrs: Attributes, order: seq<EateryId>, g: Graph, ranks: seq<(string, Value)>,
                               now: OpenHours.TimeOfDay)
  {
    var es := OpenEateries(attrs, order, g, now);
    (forall i :: 0 <= i < |es| ==> es[i] in attrs) && ScoringRaises(attrs, es, WeightsFor(ranks))
  }

  /** `(goal, score)` is the first entry of `sorted` whose eatery can be
      reached from `start`. */
  ghost predicate FirstReachable(g: Graph, start: NodeId, sorted: seq<Scored>, goal: NodeId, score: real)
  {
    exists k :: 0 <= k < |sorted| && sorted[k] == (goal, score) &&
      forall j :: 0 <= j < k ==> !Pathfinding.Connected(g, start, sorted[j].0)
  }

  predicate KnownAlgorithm(algorithm: string)
  {
    algorithm == "ucs" || algorithm == "astar"
  }

  /** Some eatery of `es` can be reached from `start`. */
  ghost predicate SomeReachable(g: Graph, start: NodeId, es: seq<EateryId>)
  {
    exists i :: 0 <= i < |es| && Pathfinding.Connected(g, start, es[i])
  }

  /** What the candidate loop of `find_optimal_path` ends with: the first
      candidate a search reached, or none. */
  datatype Attempt = Reached(goal: NodeId, score: real, found: Pathfinding.SearchResult) | NoneReached

  /** `ucs_search` or `a_star_search`, as `algorithm` says. */
  method Search(g: Graph, start: NodeId, goal: NodeId, algorithm: string, dist: (Coord, Coord) -> real)
    returns (res: Pathfinding.SearchResult)
    requires ReferencesOk(g) && KnownAlgorithm(algorithm)
    ensures res.Found? <==> Pathfinding.Connected(g, start, goal)
    ensures res.Found? ==> PathFromTo(g.edges, res.path, start, goal) && res.cost == PathCost(g.edges, res.path)
    ensures res.Found? && algorithm == "ucs" && NonNegWeights(g.edges) ==> Shortest(g.edges, start, goal, res.cost)
    ensures (res.Found? && algorithm == "astar" && goal != start &&
      Consistent(g.edges, Pathfinding.GoalDistance(g, dist, goal))) ==> Shortest(g.edges, start, goal, res.cost)
  {
    if algorithm == "ucs" {
      res := Pathfinding.UcsSearch(g, start, goal);
    } else {
      res := Pathfinding.AStarSearch(g, start, goal, dist);
    }
  }

  /** The candidate loop: searches from `start` to each scored eatery, best
      score first, and stops at the first search that finds a path. */
  method TryCandidates(g: Graph, start: NodeId, algorithm: string, scores: seq<Scored>, dist: (Coord, Coord) -> real)
    returns (a: Attempt)
    requires ReferencesOk(g) && KnownAlgorithm(algorithm)
    ensures a.Reached? <==> exists i :: 0 <= i < |scores| && Pathfinding.Connected(g, start, scores[i].0)
    ensures a.Reached? ==>
      && (a.goal, a.score) in scores && a.found.Found?
      && PathFromTo(g.edges, a.found.path, start, a.goal) && a.found.cost == PathCost(g.edges, a.found.path)
      && (forall x :: x in scores && x.1 > a.score ==> !Pathfinding.Connected(g, start, x.0))
    ensures a.Reached? ==> FirstReachable(g, start, SortDesc(scores), a.goal, a.score)
    ensures a.Reached? && algorithm == "ucs" && NonNegWeights(g.edges) ==>
      Shortest(g.edges, start, a.goal, a.found.cost)
    ensures (a.Reached? && algorithm == "astar" && a.goal != start &&
      Consistent(g.edges, Pathfinding.GoalDistance(g, dist, a.goal))) ==>
      Shortest(g.edges, start, a.goal, a.found.cost)
  {
    var sorted := SortDesc(scores);
    var i := 0;
    while i < |sorted|
      invariant 0 <= i <= |sorted|
      invariant forall k :: 0 <= k < i ==> !Pathfinding.Connected(g, start, sorted[k].0)
    {
      var res := Search(g, start, sorted[i].0, algorithm, dist);
      if res.Found? {
        BetterUnreachable(g, start, scores, sorted, i);
        assert sorted[i] == (sorted[i].0, sorted[i].1);
        return Reached(sorted[i].0, sorted[i].1, res);
      }
      i := i + 1;
    }
    AllUnreachable(g, start, scores, sorted);
    return NoneReached;
  }

  /** Once the searches to the first `i` sorted entries have failed, no
      entry scoring above entry `i` is reachable. */
  lemma BetterUnreachable(g: Graph, start: NodeId, scores: seq<Scored>, sorted: seq<Scored>, i: nat)
    requires multiset(sorted) == multiset(scores) && SortedDesc(sorted) && i < |sorted|
    requires forall k :: 0 <= k < i ==> !Pathfinding.Connected(g, start, sorted[k].0)
    ensures sorted[i] in scores
    ensures forall x :: x in scores && x.1 > sorted[i].1 ==> !Pathfinding.Connected(g, start, x.0)
  {
    assert sorted[i] in multiset(scores);
    forall x | x in scores && x.1 > sorted[i].1 ensures !Pathfinding.Connected(g, start, x.0) {
      assert x in multiset(sorted);
      AheadOf(sorted, i, x);
    }
  }

  /** Once every search has failed, no scored entry is reachable. */
  lemma AllUnreachable(g: Graph, start: NodeId, scores: seq<Scored>, sorted: seq<Scored>)
    requires multiset(sorted) == multiset(scores)
    requires forall k :: 0 <= k < |sorted| ==> !Pathfinding.Connected(g, start, sorted[k].0)
    ensures forall i :: 0 <= i < |scores| ==> !Pathfinding.Connected(g, start, scores[i].0)
  {
    forall i | 0 <= i < |scores| ensures !Pathfinding.Connected(g, start, scores[i].0) {
      assert scores[i] in multiset(sorted);
      var k :| 0 <= k < |sorted| && sorted[k] == scores[i];
    }
  }

  /** `find_optimal_path(start_node, algorithm, custom_ranks)` on a loaded
      graph. The errors come in the order of the code: unknown start, no
      open eatery, unknown algorithm, no reachable eatery. A route goes to
      an open eatery that no better-scored eatery could replace, since none
      of those is reachable. */
  method FindOptimalPath(g: Graph, attrs: Attributes, order: seq<EateryId>, start: NodeId, algorithm: string,
                         ranks: seq<(string, Value)>, now: OpenHours.TimeOfDay, dist: (Coord, Coord) -> real)
    returns (r: PathAnswer)
    requires ValidGraph(g)
    ensures start !in g.nodes ==> r == PathRefused(StartNotFound(start))
    ensures start in g.nodes && ScoringFails(attrs, order, g, ranks, now) ==> r == PathRefused(UnexpectedError)
    ensures start in g.nodes && OpenEateries(attrs, order, g, now) == [] ==> r == PathRefused(NoValidEateries)
    ensures (start in g.nodes && OpenEateries(attrs, order, g, now) != [] && !ScoringFails(attrs, order, g, ranks, now)
             && !KnownAlgorithm(algorithm)) ==> r == PathRefused(InvalidAlgorithm)
    ensures (start in g.nodes && OpenEateries(attrs, order, g, now) != [] && !ScoringFails(attrs, order, g, ranks, now)
             && KnownAlgorithm(algorithm)) ==>
      (r.Routed? <==> SomeReachable(g, start, OpenEateries(attrs, order, g, now))) &&
      (!r.Routed? ==> r == PathRefused(NoReachableEateries))
    ensures r.Routed? ==> (
      && start in g.nodes && KnownAlgorithm(algorithm)
      && var t := r.route;
      && var s := Scores(attrs, order, g, start, ranks, now, dist);
      && t.start == start && t.algorithm == algorithm && t.weights == WeightsFor(ranks)
      && s.Computed? && (t.goal, t.goalScore) in s.scores
      && FirstReachable(g, start, SortDesc(s.scores), t.goal, t.goalScore)
      && t.goal in attrs && t.goal in g.nodes && t.info == attrs[t.goal] && t.open
      && t.distance == dist(g.nodes[start], g.nodes[t.goal])
      && PathFromTo(g.edges, t.path, start, t.goal) && t.cost == PathCost(g.edges, t.path)
      && (forall x :: x in s.scores && x.1 > t.goalScore ==> !Pathfinding.Connected(g, start, x.0)))
    ensures r.Routed? && algorithm == "ucs" && NonNegWeights(g.edges) ==>
      Shortest(g.edges, start, r.route.goal, r.route.cost)
    ensures (r.Routed? && algorithm == "astar" && r.route.goal != start &&
      Consistent(g.edges, Pathfinding.GoalDistance(g, dist, r.route.goal))) ==>
      Shortest(g.edges, start, r.route.goal, r.route.cost)
  {
    if start !in g.nodes {
      return PathRefused(StartNotFound(start));
    }
    var computed := Scores(attrs, order, g, start, ranks, now, dist);
    if computed.Raised? {
      return PathRefused(UnexpectedError);
    }
    var scores := computed.scores;
    if scores == [] {
      return PathRefused(NoValidEateries);
    }
    if !KnownAlgorithm(algorithm) {
      return PathRefused(InvalidAlgorithm);
    }
    var a := TryCandidates(g, start, algorithm, scores, dist);
    SameCandidates(attrs, order, g, start, ranks, now, dist);
    if a.NoneReached? {
      return PathRefused(NoReachableEateries);
    }
    var e := a.goal;
    ScoredIsOpen(attrs, order, g, start, ranks, now, dist, (e, a.score));
    var open := OpenHours.IsOpen(HoursOf(attrs[e]), now);
    r := Routed(Route(start, e, a.score, a.found.path, a.found.cost, algorithm, WeightsFor(ranks), attrs[e], open,
                      dist(g.nodes[start], g.nodes[e]), a.found.expanded, a.found.maxFrontier));
  }

  /** The scored eateries are exactly the open ones, so some scored eatery is
      reachable exactly when some open eatery is. */
  lemma SameCandidates(attrs: Attributes, order: seq<EateryId>, g: Graph, start: NodeId, ranks: seq<(string, Value)>,
                       now: OpenHours.TimeOfDay, dist: (Coord, Coord) -> real)
    requires start in g.nodes
    requires Scores(attrs, order, g, start, ranks, now, dist).Computed?
    ensures var s := Scores(attrs, order, g, start, ranks, now, dist).scores;
      (exists i :: 0 <= i < |s| && Pathfinding.Connected(g, start, s[i].0))
        <==> SomeReachable(g, start, OpenEateries(attrs, order, g, now))
  {
    var s := Scores(attrs, order, g, start, ranks, now, dist).scores;
    var es := OpenEateries(attrs, order, g, now);
    SameIds(g, start, s, es);
  }

  /** Entries naming the eateries `es` in order reach one exactly when `es`
      does. */
  lemma SameIds(g: Graph, start: NodeId, s: seq<Scored>, es: seq<EateryId>)
    requires |s| == |es| && forall i :: 0 <= i < |s| ==> s[i].0 == es[i]
    ensures (exists i :: 0 <= i < |s| && Pathfinding.Connected(g, start, s[i].0)) <==> SomeReachable(g, start, es)
  {
    if i :| 0 <= i < |es| && Pathfinding.Connected(g, start, es[i]) {
      assert s[i].0 == es[i];
    }
  }

  /** Every scored eatery is an open eatery with a record and a node. */
  lemma ScoredIsOpen(attrs: Attributes, order: seq<EateryId>, g: Graph, start: NodeId, ranks: seq<(string, Value)>,
                     now: OpenHours.TimeOfDay, dist: (Coord, Coord) -> real, x: Scored)
    requires start in g.nodes
    requires Scores(attrs, order, g, start, ranks, now, dist).Computed?
    requires x in Scores(attrs, order, g, start, ranks, now, dist).scores
    ensures x.0 in OpenEateries(attrs, order, g, now)
    ensures x.0 in attrs && x.0 in g.nodes && OpenHours.IsOpen(HoursOf(attrs[x.0]), now)
  {
    var s := Scores(attrs, order, g, start, ranks, now, dist).scores;
    var k :| 0 <= k < |s| && s[k] == x;
    assert x.0 == OpenEateries(attrs, order, g, now)[k];
  }

  /** Entries taken from the scores belong to open eateries. */
  lemma TopIsOpen(attrs: Attributes, order: seq<EateryId>, g: Graph, start: NodeId, ranks: seq<(string, Value)>,
                  now: OpenHours.TimeOfDay, dist: (Coord, Coord) -> real, top: seq<Scored>)
    requires start in g.nodes
    requires Scores(attrs, order, g, start, ranks, now, dist).Computed?
    requires multiset(top) <= multiset(Scores(attrs, order, g, start, ranks, now, dist).scores)
    ensures forall k :: 0 <= k < |top| ==>
      top[k].0 in attrs && top[k].0 in g.nodes && OpenHours.IsOpen(HoursOf(attrs[top[k].0]), now)
  {
    forall k | 0 <= k < |top|
      ensures top[k].0 in attrs && top[k].0 in g.nodes && OpenHours.IsOpen(HoursOf(attrs[top[k].0]), now)
    {
      assert top[k] in multiset(top);
      ScoredIsOpen(attrs, order, g, start, ranks, now, dist, top[k]);
    }
  }

  function Min(a: int, b: int): int
  {
    if a < b then a else b
  }

  /** The `(id, score)` pairs of a list of listings. */
  function Pairs(ls: seq<Listing>): (ps: seq<Scored>)
    ensures |ps| == |ls| && forall k :: 0 <= k < |ls| ==> ps[k] == (ls[k].id, ls[k].score)
  {
    seq(|ls|, k requires 0 <= k < |ls| => (ls[k].id, ls[k].score))
  }

  /** `sorted(scores.items(), key=..., reverse=True)[:n]`: the best `n`
      entries, best first. */
  function TopN(scores: seq<Scored>, n: nat): (top: seq<Scored>)
    ensures |top| == Min(n, |scores|)
    ensures multiset(top) <= multiset(scores)
    ensures SortedDesc(top)
    ensures forall x :: x in multiset(scores) - multiset(top) ==> forall k :: 0 <= k < |top| ==> x.1 <= top[k].1
  {
    var sorted := SortDesc(scores);
    var m := Min(n, |sorted|);
    PrefixIsTop(sorted, m);
    sorted[..m]
  }

  /** A prefix of a best-first order is a best-first order of some of its
      entries, and nothing left out beats anything in it. */
  lemma PrefixIsTop(s: seq<Scored>, m: nat)
    requires SortedDesc(s) && m <= |s|
    ensures multiset(s[..m]) <= multiset(s) && SortedDesc(s[..m])
    ensures forall x :: x in multiset(s) - multiset(s[..m]) ==> forall k :: 0 <= k < m ==> x.1 <= s[..m][k].1
  {
    TopIsBest(s, m);
    assert s == s[..m] + s[m..];
  }

  /** `ls` lists the best `n` entries of the scores `s`, best first and
      ranked from 1, each with its eatery's record, open status and direct
      distance from `start`. */
  ghost predicate IsTopListing(ls: seq<Listing>, s: seq<Scored>, n: int, attrs: Attributes, g: Graph, start: NodeId,
                               dist: (Coord, Coord) -> real)
    requires start in g.nodes
  {
    && |ls| == Min(n, |s|)
    && multiset(Pairs(ls)) <= multiset(s)
    && (forall k :: 0 <= k < |ls| ==>
          && ls[k].rank == k + 1 && ls[k].id in attrs && ls[k].id in g.nodes
          && ls[k].info == attrs[ls[k].id] && ls[k].open
          && ls[k].distance == dist(g.nodes[start], g.nodes[ls[k].id]))
    && (forall k, l :: 0 <= k < l < |ls| ==> ls[k].score >= ls[l].score)
    && (forall x :: x in multiset(s) - multiset(Pairs(ls)) ==> forall k :: 0 <= k < |ls| ==> x.1 <= ls[k].score)
  }

  /** `get_top_eateries(start_node, top_n, custom_ranks)` on a loaded graph.
      `top_n` goes through `int()`, must be at least 1 and is capped at
      `MAX_TOP_EATERIES`; then the start and the open eateries are checked. */
  function GetTopEateries(g: Graph, attrs: Attributes, order: seq<EateryId>, start: NodeId, topN: Value,
                          ranks: seq<(string, Value)>, now: OpenHours.TimeOfDay, dist: (Coord, Coord) -> real)
    : (r: TopAnswer)
    ensures ToInt(topN).None? ==> r == TopRefused(InvalidTopN)
    ensures ToInt(topN).Some? && ToInt(topN).value < 1 ==> r == TopRefused(TopNTooSmall)
    ensures ToInt(topN).Some? && ToInt(topN).value >= 1 && start !in g.nodes ==> r == TopRefused(StartNotFound(start))
    ensures ToInt(topN).Some? && ToInt(topN).value >= 1 && start in g.nodes && ScoringFails(attrs, order, g, ranks, now) ==>
      r == TopRefused(UnexpectedError)
    ensures ToInt(topN).Some? && ToInt(topN).value >= 1 && start in g.nodes && !ScoringFails(attrs, order, g, ranks, now) ==>
      (r.Listed? <==> OpenEateries(attrs, order, g, now) != []) &&
      (!r.Listed? ==> r == TopRefused(NoValidEateries))
    ensures r.Listed? ==> (ToInt(topN).Some? && start in g.nodes &&
      var s := Scores(attrs, order, g, start, ranks, now, dist);
      s.Computed? && IsTopListing(r.listings, s.scores, Min(ToInt(topN).value, MaxTopEateries), attrs, g, start, dist))
  {
    match ToInt(topN)
    case None => TopRefused(InvalidTopN)
    case Some(requested) =>
      if requested < 1 then TopRefused(TopNTooSmall)
      else ListTop(g, attrs, order, start, Min(requested, MaxTopEateries), ranks, now, dist)
  }

  /** The part of `get_top_eateries` after `top_n` is settled as `n`. */
  function ListTop(g: Graph, attrs: Attributes, order: seq<EateryId>, start: NodeId, n: nat,
                   ranks: seq<(string, Value)>, now: OpenHours.TimeOfDay, dist: (Coord, Coord) -> real)
    : (r: TopAnswer)
    ensures start !in g.nodes ==> r == TopRefused(StartNotFound(start))
    ensures start in g.nodes && ScoringFails(attrs, order, g, ranks, now) ==> r == TopRefused(UnexpectedError)
    ensures start in g.nodes && !ScoringFails(attrs, order, g, ranks, now) ==>
      (r.Listed? <==> OpenEateries(attrs, order, g, now) != []) &&
      (!r.Listed? ==> r == TopRefused(NoValidEateries))
    ensures r.Listed? ==> (start in g.nodes &&
      var s := Scores(attrs, order, g, start, ranks, now, dist);
      s.Computed? && IsTopListing(r.listings, s.scores, n, attrs, g, start, dist))
  {
    if start !in g.nodes then TopRefused(StartNotFound(start))
    else if Scores(attrs, order, g, start, ranks, now, dist).Raised? then TopRefused(UnexpectedError)
    else
      var s := Scores(attrs, order, g, start, ranks, now, dist).scores;
      if s == [] then TopRefused(NoValidEateries)
      else
        var top := TopN(s, n);
        var ls := Listings(attrs, order, g, start, ranks, now, dist, top);
        ListingIsTop(ls, top, s, n, attrs, g, start, dist);
        Listed(ls)
  }

  /** Listings whose entries are the best `n` of `s` form the top listing. */
  lemma ListingIsTop(ls: seq<Listing>, top: seq<Scored>, s: seq<Scored>, n: int, attrs: Attributes, g: Graph,
                     start: NodeId, dist: (Coord, Coord) -> real)
    requires start in g.nodes
    requires |top| == Min(n, |s|) && multiset(top) <= multiset(s) && SortedDesc(top)
    requires forall x :: x in multiset(s) - multiset(top) ==> forall k :: 0 <= k < |top| ==> x.1 <= top[k].1
    requires Pairs(ls) == top
    requires forall k :: 0 <= k < |ls| ==>
      && ls[k].rank == k + 1 && ls[k].id in attrs && ls[k].id in g.nodes
      && ls[k].info == attrs[ls[k].id] && ls[k].open
      && ls[k].distance == dist(g.nodes[start], g.nodes[ls[k].id])
    ensures IsTopListing(ls, s, n, attrs, g, start, dist)
  {
    assert forall k :: 0 <= k < |ls| ==> ls[k].score == top[k].1;
  }

  /** The listings for entries `top` of the scores, ranked from 1. */
  function Listings(attrs: Attributes, order: seq<EateryId>, g: Graph, start: NodeId, ranks: seq<(string, Value)>,
                    now: OpenHours.TimeOfDay, dist: (Coord, Coord) -> real, top: seq<Scored>)
    : (ls: seq<Listing>)
    requires start in g.nodes
    requires Scores(attrs, order, g, start, ranks, now, dist).Computed?
    requires multiset(top) <= multiset(Scores(attrs, order, g, start, ranks, now, dist).scores)
    ensures Pairs(ls) == top
    ensures forall k :: 0 <= k < |ls| ==>
      && ls[k].rank == k + 1 && ls[k].id in attrs && ls[k].id in g.nodes
      && ls[k].info == attrs[ls[k].id] && ls[k].open
      && ls[k].distance == dist(g.nodes[start], g.nodes[ls[k].id])
  {
    TopIsOpen(attrs, order, g, start, ranks, now, dist, top);
    var ls := seq(|top|, k requires 0 <= k < |top| =>
      var e := top[k].0;
      Listing(e, k + 1, top[k].1, attrs[e], OpenHours.IsOpen(HoursOf(attrs[e]), now), dist(g.nodes[start], g.nodes[e])));
    assert Pairs(ls) == top;
    ls
  }
}
