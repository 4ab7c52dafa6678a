/** Paths through an adjacency mapping `node -> (neighbour -> weight)`: the
    vocabulary every search and every path check is stated in. */
module Paths {

  type NodeId = string
  type Adj = map<NodeId, map<NodeId, real>>

  /** `adj.get(n, {})`. */
  function Neighbors(adj: Adj, n: NodeId): map<NodeId, real>
  {
    if n in adj then adj[n] else map[]
  }

  predicate HasEdge(adj: Adj, a: NodeId, b: NodeId)
  {
    a in adj && b in adj[a]
  }

  function Weight(adj: Adj, a: NodeId, b: NodeId): real
  {
    if HasEdge(adj, a, b) then adj[a][b] else 0.0
  }

  function Last<T>(p: seq<T>): T
    requires |p| > 0
  {
    p[|p| - 1]
  }

  /** A non-empty node sequence whose consecutive pairs are edges. */
  predicate IsPath(adj: Adj, p: seq<NodeId>)
  {
    |p| >= 1 && forall i :: 0 < i < |p| ==> HasEdge(adj, p[i - 1], p[i])
  }

  predicate PathFromTo(adj: Adj, p: seq<NodeId>, s: NodeId, t: NodeId)
  {
    IsPath(adj, p) && p[0] == s && Last(p) == t
  }

  /** The sum of the weights of the consecutive pairs of `p`. */
  function PathCost(adj: Adj, p: seq<NodeId>): real
  {
    if |p| < 2 then 0.0 else Weight(adj, p[0], p[1]) + PathCost(adj, p[1..])
  }

  ghost predicate Reachable(adj: Adj, s: NodeId, t: NodeId)
  {
    exists p :: PathFromTo(adj, p, s, t)
  }

  /** Every node that occurs as a neighbour somewhere in `adj`. */
  function Targets(adj: Adj): set<NodeId>
  {
    set a, b | a in adj && b in adj[a] :: b
  }

  /** Every node a path from `start` can end at. */
  function Universe(adj: Adj, start: NodeId): set<NodeId>
  {
    {start} + Targets(adj)
  }

  /** The nodes reachable from `start`, `start` itself included. */
  ghost function ReachableFrom(adj: Adj, start: NodeId): set<NodeId>
  {
    set n | n in Universe(adj, start) && Reachable(adj, start, n)
  }

  /** The end of a path from `start` is reachable from it. */
  lemma InReachableFrom(adj: Adj, p: seq<NodeId>, start: NodeId)
    requires IsPath(adj, p) && p[0] == start
    ensures Last(p) in ReachableFrom(adj, start)
  {
    LastInUniverse(adj, p, start);
    assert PathFromTo(adj, p, start, Last(p));
  }

  predicate NonNegWeights(adj: Adj)
  {
    forall a, b :: a in adj && b in adj[a] ==> adj[a][b] >= 0.0
  }

  /** A heuristic that never drops by more than the weight of an edge. */
  ghost predicate Consistent(adj: Adj, h: NodeId -> real)
  {
    forall a, b :: HasEdge(adj, a, b) ==> h(a) <= adj[a][b] + h(b)
  }

  ghost predicate ClosedUnder(adj: Adj, s: set<NodeId>)
  {
    forall a, b :: a in s && HasEdge(adj, a, b) ==> b in s
  }

  /** `c` is no larger than the cost of any path from `s` to `t`. */
  ghost predicate Shortest(adj: Adj, s: NodeId, t: NodeId, c: real)
  {
    forall p :: PathFromTo(adj, p, s, t) ==> c <= PathCost(adj, p)
  }

  function Zero(n: NodeId): real { 0.0 }

  lemma {:induction false} AppendEdge(adj: Adj, p: seq<NodeId>, n: NodeId)
    requires IsPath(adj, p) && HasEdge(adj, Last(p), n)
    ensures IsPath(adj, p + [n])
    ensures PathCost(adj, p + [n]) == PathCost(adj, p) + adj[Last(p)][n]
    decreases |p|
  {
    var q := p + [n];
    assert forall i :: 0 < i < |q| ==> HasEdge(adj, q[i - 1], q[i]) by {
      forall i | 0 < i < |q| ensures HasEdge(adj, q[i - 1], q[i]) {
        if i < |p| { assert q[i - 1] == p[i - 1] && q[i] == p[i]; }
      }
    }
    if |p| >= 2 {
      assert q[1..] == p[1..] + [n];
      assert IsPath(adj, p[1..]) by {
        forall i | 0 < i < |p[1..]| ensures HasEdge(adj, p[1..][i - 1], p[1..][i]) {
          assert p[1..][i - 1] == p[i] && p[1..][i] == p[i + 1];
        }
      }
      AppendEdge(adj, p[1..], n);
    }
  }

  lemma {:induction false} SuffixIsPath(adj: Adj, p: seq<NodeId>, i: nat)
    requires IsPath(adj, p) && i < |p|
    ensures IsPath(adj, p[i..])
  {
    forall j | 0 < j < |p[i..]| ensures HasEdge(adj, p[i..][j - 1], p[i..][j]) {
      assert p[i..][j - 1] == p[i + j - 1] && p[i..][j] == p[i + j];
    }
  }

  lemma {:induction false} PrefixIsPath(adj: Adj, p: seq<NodeId>, i: nat)
    requires IsPath(adj, p) && 0 < i <= |p|
    ensures IsPath(adj, p[..i])
  {
    forall j | 0 < j < i ensures HasEdge(adj, p[..i][j - 1], p[..i][j]) {
      assert p[..i][j - 1] == p[j - 1] && p[..i][j] == p[j];
    }
  }

  /** The cost of a path splits at any of its nodes. */
  lemma {:induction false} SplitCost(adj: Adj, p: seq<NodeId>, i: nat)
    requires i < |p|
    ensures PathCost(adj, p) == PathCost(adj, p[..i + 1]) + PathCost(adj, p[i..])
    decreases i
  {
    if i > 0 {
      SplitCost(adj, p[1..], i - 1);
      assert p[1..][..i] == p[..i + 1][1..];
      assert p[1..][i - 1..] == p[i..];
    }
  }

  /** Along a path a consistent heuristic drops by at most the path's cost. */
  lemma {:induction false} ConsistentChain(adj: Adj, h: NodeId -> real, p: seq<NodeId>)
    requires Consistent(adj, h) && IsPath(adj, p)
    ensures h(p[0]) <= PathCost(adj, p) + h(Last(p))
    decreases |p|
  {
    if |p| >= 2 {
      SuffixIsPath(adj, p, 1);
      ConsistentChain(adj, h, p[1..]);
      assert HasEdge(adj, p[0], p[1]);
    }
  }

  /** A path that starts inside `s` and ends outside leaves `s` across an edge. */
  lemma {:induction false} Crossing(adj: Adj, p: seq<NodeId>, s: set<NodeId>) returns (i: nat)
    requires IsPath(adj, p) && p[0] in s && Last(p) !in s
    ensures i + 1 < |p| && p[i] in s && p[i + 1] !in s
    decreases |p|
  {
    if p[1] !in s {
      i := 0;
    } else {
      SuffixIsPath(adj, p, 1);
      var j := Crossing(adj, p[1..], s);
      i := j + 1;
    }
  }

  /** A path that starts inside an edge-closed set stays inside it. */
  lemma {:induction false} StaysInside(adj: Adj, s: set<NodeId>, p: seq<NodeId>)
    requires ClosedUnder(adj, s) && IsPath(adj, p) && p[0] in s
    ensures Last(p) in s
    decreases |p|
  {
    if |p| > 1 {
      var q := p[..|p| - 1];
      PrefixIsPath(adj, p, |p| - 1);
      StaysInside(adj, s, q);
      assert HasEdge(adj, Last(q), Last(p));
    }
  }

  lemma ClosedUnreachable(adj: Adj, s: set<NodeId>, start: NodeId, t: NodeId)
    requires ClosedUnder(adj, s) && start in s && t !in s
    ensures !Reachable(adj, start, t)
  {
    forall p | PathFromTo(adj, p, start, t) ensures false {
      StaysInside(adj, s, p);
    }
  }

  lemma LastInUniverse(adj: Adj, p: seq<NodeId>, start: NodeId)
    requires IsPath(adj, p) && p[0] == start
    ensures Last(p) in Universe(adj, start)
  {
    if |p| > 1 {
      var a, b := p[|p| - 2], p[|p| - 1];
      assert HasEdge(adj, a, b);
      assert b in Targets(adj);
    }
  }

  /** The zero heuristic of uniform-cost search is consistent exactly when no
      edge weight is negative. */
  lemma ZeroConsistent(adj: Adj)
    ensures Consistent(adj, Zero) <==> NonNegWeights(adj)
  {
    if NonNegWeights(adj) {
      forall a, b | HasEdge(adj, a, b) ensures Zero(a) <= adj[a][b] + Zero(b) {
        assert a in adj && b in adj[a];
      }
    }
    if Consistent(adj, Zero) {
      forall a, b | a in adj && b in adj[a] ensures adj[a][b] >= 0.0 {
        assert HasEdge(adj, a, b);
        assert Zero(a) <= adj[a][b] + Zero(b);
      }
    }
  }

  /** With no negative weight, no path costs less than zero. */
  lemma {:induction false} NonNegCost(adj: Adj, p: seq<NodeId>)
    requires NonNegWeights(adj) && IsPath(adj, p)
    ensures PathCost(adj, p) >= 0.0
  {
    ZeroConsistent(adj);
    ConsistentChain(adj, Zero, p);
  }
}
