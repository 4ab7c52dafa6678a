/** `check_connectivity`: the breadth-first reachability test the searches run
    before they start. */
module Connectivity {
  import opened Paths
  import opened GraphStore

  /** Every edge out of a visited node leads to a visited or queued node,
      except the edges from `cur` to the neighbours in `todo`, which are
      still being queued. */
  ghost predicate Covered(adj: Adj, visited: set<NodeId>, queue: seq<NodeId>, cur: NodeId, todo: set<NodeId>)
  {
    forall a, b :: a in visited && HasEdge(adj, a, b) && !(a == cur && b in todo) ==>
      b in visited || b in queue
  }

  /** Every queued node is reachable from `start`. */
  ghost predicate AllReachable(adj: Adj, start: NodeId, queue: seq<NodeId>)
  {
    forall i :: 0 <= i < |queue| ==> Reachable(adj, start, queue[i])
  }

  lemma ReachableStep(adj: Adj, start: NodeId, a: NodeId, b: NodeId)
    requires Reachable(adj, start, a) && HasEdge(adj, a, b)
    ensures Reachable(adj, start, b)
  {
    var p :| PathFromTo(adj, p, start, a);
    AppendEdge(adj, p, b);
    assert PathFromTo(adj, p + [b], start, b);
  }

  /** Dequeuing the front node keeps every edge covered, whether the node was
      already visited or is visited now (its own edges then still to come). */
  lemma PopCovered(adj: Adj, visited: set<NodeId>, queue: seq<NodeId>, cur: NodeId)
    requires |queue| > 0 && Covered(adj, visited, queue, cur, {})
    ensures queue[0] in visited ==> Covered(adj, visited, queue[1..], cur, {})
    ensures Covered(adj, visited + {queue[0]}, queue[1..], queue[0], Neighbors(adj, queue[0]).Keys)
  {
    forall a, b | a in visited + {queue[0]} && HasEdge(adj, a, b) && !(a == queue[0] && b in Neighbors(adj, queue[0]).Keys)
      ensures b in visited + {queue[0]} || b in queue[1..]
    {
      assert a in visited;
      assert b in visited || b in queue;
      if b !in visited && b != queue[0] {
        var i :| 0 <= i < |queue| && queue[i] == b;
        assert queue[1..][i - 1] == b;
      }
    }
    if queue[0] in visited {
      forall a, b | a in visited && HasEdge(adj, a, b) ensures b in visited || b in queue[1..] {
        if b !in visited {
          var i :| 0 <= i < |queue| && queue[i] == b;
          assert queue[1..][i - 1] == b;
        }
      }
    }
  }

  lemma Shrinks(u: set<NodeId>, v: set<NodeId>, c: NodeId)
    requires c in u && c !in v
    ensures |u - (v + {c})| < |u - v|
  {
    assert u - v == (u - (v + {c})) + {c};
  }

  /** The inner loop of `check_connectivity`: queues every neighbour of
      `current` that has not been visited. */
  method EnqueueNeighbors(adj: Adj, start: NodeId, visited: set<NodeId>, queue: seq<NodeId>, current: NodeId)
    returns (q: seq<NodeId>)
    requires current in visited && Reachable(adj, start, current)
    requires forall i :: 0 <= i < |queue| ==> queue[i] in Universe(adj, start)
    requires AllReachable(adj, start, queue)
    requires Covered(adj, visited, queue, current, Neighbors(adj, current).Keys)
    ensures forall i :: 0 <= i < |q| ==> q[i] in Universe(adj, start)
    ensures AllReachable(adj, start, q)
    ensures Covered(adj, visited, q, start, {})
  {
    q := queue;
    var todo := Neighbors(adj, current).Keys;
    while todo != {}
      invariant todo <= Neighbors(adj, current).Keys
      invariant forall i :: 0 <= i < |q| ==> q[i] in Universe(adj, start)
      invariant AllReachable(adj, start, q)
      invariant Covered(adj, visited, q, current, todo)
      decreases todo
    {
      var n :| n in todo;
      todo := todo - {n};
      if n !in visited {
        assert HasEdge(adj, current, n);
        assert n in Targets(adj);
        ReachableStep(adj, start, current, n);
        q := q + [n];
      }
    }
  }

  /** `check_connectivity(graph, start, goal)`. */
  method CheckConnectivity(g: Graph, start: NodeId, goal: NodeId) returns (b: bool)
    ensures b <==> start == goal || (start in g.nodes && goal in g.nodes && Reachable(g.edges, start, goal))
  {
    if start == goal {
      return true;
    }
    if start !in g.nodes || goal !in g.nodes {
      return false;
    }
    var adj := g.edges;
    var visited: set<NodeId> := {};
    var queue := [start];
    assert PathFromTo(adj, [start], start, start);
    while |queue| > 0
      invariant forall i :: 0 <= i < |queue| ==> queue[i] in Universe(adj, start)
      invariant AllReachable(adj, start, queue)
      invariant goal !in visited
      invariant visited == {} ==> queue == [start]
      invariant visited != {} ==> start in visited
      invariant Covered(adj, visited, queue, start, {})
      decreases |Universe(adj, start) - visited|, |queue|
    {
      var current := queue[0];
      PopCovered(adj, visited, queue, start);
      queue := queue[1..];
      if current in visited {
        continue;
      }
      Shrinks(Universe(adj, start), visited, current);
      visited := visited + {current};
      if current == goal {
        return true;
      }
      queue := EnqueueNeighbors(adj, start, visited, queue, current);
    }
    ClosedUnreachable(adj, visited, start, goal);
    return false;
  }
}
