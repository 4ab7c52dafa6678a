/** The heuristics of the older search module: the Manhattan distance between
    grid positions and the composite estimate that adds the goal's price,
    quality and review count to a weighted distance. */
module Heuristics {
  import opened Paths

  datatype Pos = Pos(x: real, y: real)

  /** An eatery's metadata record. */
  datatype Meta = Meta(price: real, quality: real, reviews: real)

  /** The record assumed for a goal without metadata. */
  const DefaultMeta: Meta := Meta(100.0, 3.0, 50.0)

  /** The weights `alpha`, `beta`, `gamma` and `delta` of the composite estimate. */
  datatype HeuristicWeights = HeuristicWeights(alpha: real, beta: real, gamma: real, delta: real)

  function Abs(r: real): real
  {
    if r < 0.0 then -r else r
  }

  /** `manhattan(a, b)`. */
  function Manhattan(a: Pos, b: Pos): (d: real)
    ensures d >= 0.0
    ensures d == 0.0 <==> a == b
  {
    Abs(a.x - b.x) + Abs(a.y - b.y)
  }

  lemma ManhattanSymmetric(a: Pos, b: Pos)
    ensures Manhattan(a, b) == Manhattan(b, a)
  {
  }

  lemma ManhattanTriangle(a: Pos, b: Pos, c: Pos)
    ensures Manhattan(a, c) <= Manhattan(a, b) + Manhattan(b, c)
  {
  }

  /** `metadata.get(goal, default)`. */
  function MetaFor(metadata: map<NodeId, Meta>, goal: NodeId): Meta
  {
    if goal in metadata then metadata[goal] else DefaultMeta
  }

  /** The part of the composite estimate that depends on the goal alone:
      `beta / price + gamma * quality + delta * reviews`. */
  function GoalTerm(goal: NodeId, metadata: map<NodeId, Meta>, w: HeuristicWeights): real
    requires MetaFor(metadata, goal).price != 0.0
  {
    var m := MetaFor(metadata, goal);
    w.beta * (1.0 / m.price) + w.gamma * m.quality + w.delta * m.reviews
  }

  /** `composite_heuristic(pos_a, goal, positions, metadata, weights)`; the
      goal needs a position and a non-zero price. */
  function Composite(a: Pos, goal: NodeId, positions: map<NodeId, Pos>, metadata: map<NodeId, Meta>,
                     w: HeuristicWeights): real
    requires goal in positions && MetaFor(metadata, goal).price != 0.0
  {
    w.alpha * Manhattan(a, positions[goal]) + GoalTerm(goal, metadata, w)
  }

  /** A goal without metadata is estimated with price 100, quality 3.0 and
      50 reviews. */
  lemma CompositeDefault(a: Pos, goal: NodeId, positions: map<NodeId, Pos>, metadata: map<NodeId, Meta>,
                         w: HeuristicWeights)
    requires goal in positions && goal !in metadata
    ensures Composite(a, goal, positions, metadata, w)
      == w.alpha * Manhattan(a, positions[goal]) + w.beta / 100.0 + w.gamma * 3.0 + w.delta * 50.0
  {
    assert w.beta * (1.0 / 100.0) == w.beta / 100.0;
  }

  /** With a non-negative `alpha` the composite estimate changes between two
      positions by at most `alpha` times their Manhattan distance. */
  lemma CompositeLipschitz(a: Pos, b: Pos, goal: NodeId, positions: map<NodeId, Pos>, metadata: map<NodeId, Meta>,
                           w: HeuristicWeights)
    requires goal in positions && MetaFor(metadata, goal).price != 0.0 && w.alpha >= 0.0
    ensures Composite(a, goal, positions, metadata, w)
      <= w.alpha * Manhattan(a, b) + Composite(b, goal, positions, metadata, w)
  {
    var g := positions[goal];
    ManhattanTriangle(a, b, g);
    Glue(Composite(a, goal, positions, metadata, w), Composite(b, goal, positions, metadata, w),
         Manhattan(a, g), Manhattan(b, g), Manhattan(a, b), w.alpha, GoalTerm(goal, metadata, w));
  }

  /** The arithmetic behind `CompositeLipschitz`, over plain numbers. */
  lemma Glue(ca: real, cb: real, ma: real, mb: real, mab: real, k: real, t: real)
    requires ca == k * ma + t && cb == k * mb + t
    requires k >= 0.0 && ma <= mab + mb
    ensures ca <= k * mab + cb
  {
    assert k * (mab + mb) - k * ma == k * (mab + mb - ma);
    assert k * (mab + mb) == k * mab + k * mb;
  }

  /** Every goal has a position and a usable price. */
  predicate GoalsUsable(goals: seq<NodeId>, positions: map<NodeId, Pos>, metadata: map<NodeId, Meta>)
  {
    forall i :: 0 <= i < |goals| ==> goals[i] in positions && MetaFor(metadata, goals[i]).price != 0.0
  }

  /** `min(composite_heuristic(pos, goal, ...) for goal in goals)`. */
  function MinComposite(a: Pos, goals: seq<NodeId>, positions: map<NodeId, Pos>, metadata: map<NodeId, Meta>,
                        w: HeuristicWeights): (r: real)
    requires |goals| > 0 && GoalsUsable(goals, positions, metadata)
    ensures forall i :: 0 <= i < |goals| ==> r <= Composite(a, goals[i], positions, metadata, w)
    ensures exists i :: 0 <= i < |goals| && r == Composite(a, goals[i], positions, metadata, w)
    decreases |goals|
  {
    var first := Composite(a, goals[0], positions, metadata, w);
    if |goals| == 1 then first
    else
      var rest := MinComposite(a, goals[1..], positions, metadata, w);
      assert forall i :: 1 <= i < |goals| ==> goals[1..][i - 1] == goals[i];
      if rest < first then rest else first
  }

  /** The minimum over the goals inherits the bound of each goal's estimate. */
  lemma MinCompositeLipschitz(a: Pos, b: Pos, goals: seq<NodeId>, positions: map<NodeId, Pos>,
                              metadata: map<NodeId, Meta>, w: HeuristicWeights)
    requires |goals| > 0 && GoalsUsable(goals, positions, metadata) && w.alpha >= 0.0
    ensures MinComposite(a, goals, positions, metadata, w)
      <= w.alpha * Manhattan(a, b) + MinComposite(b, goals, positions, metadata, w)
  {
    var i :| 0 <= i < |goals| && MinComposite(b, goals, positions, metadata, w) == Composite(b, goals[i], positions, metadata, w);
    CompositeLipschitz(a, b, goals[i], positions, metadata, w);
  }
}
