/** The best-first search loop shared by every search of the system: a
    priority queue of `(priority, cost, path)` entries, popped smallest first
    with Python's tuple ordering, a visited set, and the neighbours of each
    newly visited node pushed unless already visited. Uniform-cost search is
    the instance whose heuristic is zero; A* adds a heuristic to the cost. */
module BestFirst {
  import opened Values
  import opened Paths

  /** One heap entry. Uniform-cost search stores `(cost, path)`; with the
      priority equal to the cost the tuple order is the same. */
  datatype Entry = Entry(prio: real, cost: real, path: seq<NodeId>)

  datatype Outcome =
    | Reached(cost: real, path: seq<NodeId>, expanded: nat, maxFrontier: nat)
    | Exhausted(expanded: nat, maxFrontier: nat)

  /** `path[-1]`: the node an entry stands for. */
  function Tip(e: Entry): NodeId
  {
    if |e.path| == 0 then "" else Last(e.path)
  }

  // ----- Python's ordering of strings, lists of strings and heap entries -----

  /** `a < b` on Python strings: code point by code point, a proper prefix first. */
  predicate StrLess(a: string, b: string)
    decreases |a|
  {
    if |b| == 0 then false
    else if |a| == 0 then true
    else if a[0] != b[0] then a[0] < b[0]
    else StrLess(a[1..], b[1..])
  }

  /** `a < b` on Python lists of strings. */
  predicate PathLess(a: seq<NodeId>, b: seq<NodeId>)
    decreases |a|
  {
    if |b| == 0 then false
    else if |a| == 0 then true
    else if a[0] != b[0] then StrLess(a[0], b[0])
    else PathLess(a[1..], b[1..])
  }

  /** `a < b` on the heap tuples. */
  predicate EntryLess(a: Entry, b: Entry)
  {
    a.prio < b.prio
    || (a.prio == b.prio && (a.cost < b.cost || (a.cost == b.cost && PathLess(a.path, b.path))))
  }

  lemma {:induction false} StrLessIrreflexive(a: string)
    ensures !StrLess(a, a)
    decreases |a|
  {
    if |a| > 0 {
      StrLessIrreflexive(a[1..]);
    }
  }

  lemma {:induction false} StrLessTransitive(a: string, b: string, c: string)
    requires StrLess(a, b) && StrLess(b, c)
    ensures StrLess(a, c)
    decreases |a|
  {
    if |a| > 0 && a[0] == b[0] && b[0] == c[0] {
      StrLessTransitive(a[1..], b[1..], c[1..]);
    }
  }

  lemma {:induction false} PathLessTransitive(a: seq<NodeId>, b: seq<NodeId>, c: seq<NodeId>)
    requires PathLess(a, b) && PathLess(b, c)
    ensures PathLess(a, c)
    decreases |a|
  {
    if |a| > 0 {
      if a[0] == b[0] && b[0] == c[0] {
        PathLessTransitive(a[1..], b[1..], c[1..]);
      } else if a[0] != b[0] && b[0] != c[0] {
        StrLessTransitive(a[0], b[0], c[0]);
        if a[0] == c[0] {
          StrLessIrreflexive(a[0]);
          assert false;
        }
      }
    }
  }

  lemma {:induction false} PathLessIrreflexive(a: seq<NodeId>)
    ensures !PathLess(a, a)
    decreases |a|
  {
    if |a| > 0 {
      PathLessIrreflexive(a[1..]);
    }
  }

  lemma EntryLessTransitive(a: Entry, b: Entry, c: Entry)
    requires EntryLess(a, b) && EntryLess(b, c)
    ensures EntryLess(a, c)
  {
    if a.prio == b.prio == c.prio && a.cost == b.cost == c.cost {
      PathLessTransitive(a.path, b.path, c.path);
    }
  }

  /** `heapq.heappop`: the index of an entry no other entry is smaller than. */
  method ArgMin(frontier: seq<Entry>) returns (k: nat)
    requires |frontier| > 0
    ensures k < |frontier|
    ensures forall j :: 0 <= j < |frontier| ==> !EntryLess(frontier[j], frontier[k])
    ensures forall j :: 0 <= j < |frontier| ==> frontier[k].prio <= frontier[j].prio
  {
    k := 0;
    var i := 1;
    PathLessIrreflexive(frontier[0].path);
    while i < |frontier|
      invariant k < i <= |frontier|
      invariant forall j :: 0 <= j < i ==> !EntryLess(frontier[j], frontier[k])
    {
      if EntryLess(frontier[i], frontier[k]) {
        forall j | 0 <= j < i ensures !EntryLess(frontier[j], frontier[i]) {
          if EntryLess(frontier[j], frontier[i]) {
            EntryLessTransitive(frontier[j], frontier[i], frontier[k]);
          }
        }
        PathLessIrreflexive(frontier[i].path);
        k := i;
      }
      i := i + 1;
    }
  }

  function Remove(s: seq<Entry>, k: nat): (r: seq<Entry>)
    requires k < |s|
    ensures |r| == |s| - 1
    ensures forall j :: 0 <= j < |r| ==> r[j] == (if j < k then s[j] else s[j + 1])
  {
    s[..k] + s[k + 1..]
  }

  // ----- the loop invariant, piece by piece -----

  /** The entry's path runs from `start` to its tip and its cost is the path's cost. */
  ghost predicate Valid(adj: Adj, start: NodeId, e: Entry)
  {
    PathFromTo(adj, e.path, start, Tip(e)) && e.cost == PathCost(adj, e.path)
  }

  ghost predicate AllValid(adj: Adj, start: NodeId, f: seq<Entry>)
  {
    forall j :: 0 <= j < |f| ==> Valid(adj, start, f[j])
  }

  /** Every entry's priority is its cost plus the heuristic at its tip. */
  ghost predicate Formula(h: NodeId -> real, f: seq<Entry>)
  {
    forall j :: 0 <= j < |f| ==> f[j].prio == f[j].cost + h(Tip(f[j]))
  }

  /** For every edge from a visited node `a` to an unvisited `b`, an entry for
      `b` costing at most `dist[a]` plus the edge waits in the queue; the
      edges from `cur` to the nodes in `todo` are still being pushed. */
  ghost predicate Pending(adj: Adj, f: seq<Entry>, visited: set<NodeId>, dist: map<NodeId, real>,
                          cur: NodeId, todo: set<NodeId>)
  {
    forall a, b :: a in visited && a in dist && HasEdge(adj, a, b) && b !in visited && !(a == cur && b in todo) ==>
      exists j :: 0 <= j < |f| && Tip(f[j]) == b && f[j].cost <= dist[a] + adj[a][b]
  }

  /** `e` costs, with the heuristic added, no more than any path from
      `start` to a node outside `visited`. */
  ghost predicate Bound(adj: Adj, h: NodeId -> real, start: NodeId, visited: set<NodeId>, e: Entry)
  {
    forall p :: IsPath(adj, p) && p[0] == start && Last(p) !in visited ==>
      e.cost + h(Tip(e)) <= PathCost(adj, p) + h(Last(p))
  }

  /** Popping an entry for a visited node keeps every waiting edge covered. */
  lemma PopPendingSkip(adj: Adj, f: seq<Entry>, k: nat, visited: set<NodeId>, dist: map<NodeId, real>, cur: NodeId)
    requires k < |f| && Pending(adj, f, visited, dist, cur, {}) && Tip(f[k]) in visited
    ensures Pending(adj, Remove(f, k), visited, dist, cur, {})
  {
    var r := Remove(f, k);
    forall a, b | a in visited && a in dist && HasEdge(adj, a, b) && b !in visited
      ensures exists j :: 0 <= j < |r| && Tip(r[j]) == b && r[j].cost <= dist[a] + adj[a][b]
    {
      var j :| 0 <= j < |f| && Tip(f[j]) == b && f[j].cost <= dist[a] + adj[a][b];
      var i := if j < k then j else j - 1;
      assert r[i] == f[j];
    }
  }

  /** Popping the entry that visits its tip keeps every other waiting edge
      covered; the tip's own edges are still to be pushed. */
  lemma PopPendingVisit(adj: Adj, f: seq<Entry>, k: nat, visited: set<NodeId>, dist: map<NodeId, real>,
                        cur: NodeId, c: real)
    requires k < |f| && Pending(adj, f, visited, dist, cur, {})
    ensures Pending(adj, Remove(f, k), visited + {Tip(f[k])}, dist[Tip(f[k]) := c], Tip(f[k]), Neighbors(adj, Tip(f[k])).Keys)
  {
    var u, r := Tip(f[k]), Remove(f, k);
    forall a, b | a in visited + {u} && a in dist[u := c] && HasEdge(adj, a, b) && b !in visited + {u}
        && !(a == u && b in Neighbors(adj, u).Keys)
      ensures exists j :: 0 <= j < |r| && Tip(r[j]) == b && r[j].cost <= dist[u := c][a] + adj[a][b]
    {
      var j :| 0 <= j < |f| && Tip(f[j]) == b && f[j].cost <= dist[a] + adj[a][b];
      var i := if j < k then j else j - 1;
      assert r[i] == f[j];
    }
  }

  lemma PushPending(adj: Adj, f: seq<Entry>, x: Entry, visited: set<NodeId>, dist: map<NodeId, real>,
                    cur: NodeId, todo: set<NodeId>, n: NodeId)
    requires Pending(adj, f, visited, dist, cur, todo) && n in todo && cur in dist && HasEdge(adj, cur, n)
    requires Tip(x) == n && x.cost <= dist[cur] + adj[cur][n]
    ensures Pending(adj, f + [x], visited, dist, cur, todo - {n})
  {
    var g := f + [x];
    forall a, b | a in visited && a in dist && HasEdge(adj, a, b) && b !in visited && !(a == cur && b in todo - {n})
      ensures exists j :: 0 <= j < |g| && Tip(g[j]) == b && g[j].cost <= dist[a] + adj[a][b]
    {
      if a == cur && b == n {
        assert g[|f|] == x;
      } else {
        var j :| 0 <= j < |f| && Tip(f[j]) == b && f[j].cost <= dist[a] + adj[a][b];
        assert g[j] == f[j];
      }
    }
  }

  lemma SkipPending(adj: Adj, f: seq<Entry>, visited: set<NodeId>, dist: map<NodeId, real>,
                    cur: NodeId, todo: set<NodeId>, n: NodeId)
    requires Pending(adj, f, visited, dist, cur, todo) && n in visited
    ensures Pending(adj, f, visited, dist, cur, todo - {n})
  {
  }

  /** Splitting a path at one of its edges: the cost up to the edge's far
      end plus a consistent estimate from there is no more than the whole
      cost plus the estimate at the end. */
  lemma EdgeOnPath(adj: Adj, h: NodeId -> real, p: seq<NodeId>, i: nat)
    requires Consistent(adj, h) && IsPath(adj, p) && i + 1 < |p|
    ensures IsPath(adj, p[..i + 1]) && HasEdge(adj, p[i], p[i + 1])
    ensures PathCost(adj, p[..i + 1]) + adj[p[i]][p[i + 1]] + h(p[i + 1]) <= PathCost(adj, p) + h(Last(p))
  {
    PrefixIsPath(adj, p, i + 1);
    AppendEdge(adj, p[..i + 1], p[i + 1]);
    assert p[..i + 1] + [p[i + 1]] == p[..i + 2];
    SuffixIsPath(adj, p, i + 1);
    ConsistentChain(adj, h, p[i + 1..]);
    SplitCost(adj, p, i + 1);
  }

  /** The A* argument for one path: some queued entry lies on the path where
      it leaves the visited set, and the popped entry is no worse than it. */
  lemma PopBoundPath(adj: Adj, h: NodeId -> real, start: NodeId, f: seq<Entry>, k: nat,
                     visited: set<NodeId>, dist: map<NodeId, real>, p: seq<NodeId>)
    requires Consistent(adj, h)
    requires k < |f| && forall j :: 0 <= j < |f| ==> f[k].prio <= f[j].prio
    requires visited != {} && start in visited
    requires Formula(h, f)
    requires Pending(adj, f, visited, dist, start, {}) && visited <= dist.Keys
    requires forall u :: u in visited ==> Shortest(adj, start, u, dist[u])
    requires IsPath(adj, p) && p[0] == start && Last(p) !in visited
    ensures f[k].cost + h(Tip(f[k])) <= PathCost(adj, p) + h(Last(p))
  {
    var i := Crossing(adj, p, visited);
    EdgeOnPath(adj, h, p, i);
    var u, w := p[i], p[i + 1];
    assert PathFromTo(adj, p[..i + 1], start, u);
    var j :| 0 <= j < |f| && Tip(f[j]) == w && f[j].cost <= dist[u] + adj[u][w];
    assert f[j].prio == f[j].cost + h(w);
  }

  lemma PopBound(adj: Adj, h: NodeId -> real, start: NodeId, startPrio: real, f: seq<Entry>, k: nat,
                 visited: set<NodeId>, dist: map<NodeId, real>)
    requires Consistent(adj, h)
    requires k < |f| && forall j :: 0 <= j < |f| ==> f[k].prio <= f[j].prio
    requires visited == {} ==> f == [Entry(startPrio, 0.0, [start])]
    requires visited != {} ==> start in visited && Formula(h, f)
    requires AllValid(adj, start, f)
    requires Pending(adj, f, visited, dist, start, {}) && visited <= dist.Keys
    requires forall u :: u in visited ==> Shortest(adj, start, u, dist[u])
    ensures Bound(adj, h, start, visited, f[k])
  {
    forall p | IsPath(adj, p) && p[0] == start && Last(p) !in visited
      ensures f[k].cost + h(Tip(f[k])) <= PathCost(adj, p) + h(Last(p))
    {
      if visited == {} {
        ConsistentChain(adj, h, p);
      } else {
        PopBoundPath(adj, h, start, f, k, visited, dist, p);
      }
    }
  }

  /** Pushes an entry for every unvisited neighbour of the tip of `e`. */
  method Expand(adj: Adj, h: NodeId -> real, start: NodeId, visited: set<NodeId>, ghost dist: map<NodeId, real>,
                frontier: seq<Entry>, e: Entry)
    returns (f: seq<Entry>)
    requires Valid(adj, start, e) && Tip(e) in dist && dist[Tip(e)] == e.cost
    requires AllValid(adj, start, frontier) && Formula(h, frontier)
    requires Pending(adj, frontier, visited, dist, Tip(e), Neighbors(adj, Tip(e)).Keys)
    ensures AllValid(adj, start, f) && Formula(h, f)
    ensures Pending(adj, f, visited, dist, start, {})
  {
    var u := Tip(e);
    f := frontier;
    var todo := Neighbors(adj, u).Keys;
    while todo != {}
      invariant todo <= Neighbors(adj, u).Keys
      invariant AllValid(adj, start, f) && Formula(h, f)
      invariant Pending(adj, f, visited, dist, u, todo)
      decreases todo
    {
      var n :| n in todo;
      if n !in visited {
        var cost := e.cost + adj[u][n];
        var x := Entry(cost + h(n), cost, e.path + [n]);
        AppendEdge(adj, e.path, n);
        PushPending(adj, f, x, visited, dist, u, todo, n);
        f := f + [x];
      } else {
        SkipPending(adj, f, visited, dist, u, todo, n);
      }
      todo := todo - {n};
    }
    PendingDone(adj, f, visited, dist, u, start);
  }

  lemma PendingDone(adj: Adj, f: seq<Entry>, visited: set<NodeId>, dist: map<NodeId, real>, cur: NodeId, other: NodeId)
    requires Pending(adj, f, visited, dist, cur, {})
    ensures Pending(adj, f, visited, dist, other, {})
  {
  }

  /** What the search loop keeps true between iterations. */
  ghost predicate Inv(adj: Adj, h: NodeId -> real, start: NodeId, startPrio: real, goals: set<NodeId>,
                      frontier: seq<Entry>, visited: set<NodeId>, dist: map<NodeId, real>)
  {
    && AllValid(adj, start, frontier)
    && (visited == {} ==> frontier == [Entry(startPrio, 0.0, [start])])
    && (visited != {} ==> start in visited && Formula(h, frontier))
    && visited <= ReachableFrom(adj, start)
    && dist.Keys == visited && visited !! goals
    && Pending(adj, frontier, visited, dist, start, {})
    && (Consistent(adj, h) ==>
          forall u :: u in visited ==> Shortest(adj, start, u, dist[u]))
  }

  /** What holds once the smallest entry `e` is popped, leaving `rest`. */
  ghost predicate Popped(adj: Adj, h: NodeId -> real, start: NodeId, startPrio: real, goals: set<NodeId>,
                         visited: set<NodeId>, dist: map<NodeId, real>, e: Entry, rest: seq<Entry>)
  {
    && Valid(adj, start, e) && Tip(e) in ReachableFrom(adj, start)
    && (visited == {} ==> Tip(e) == start && rest == [])
    && AllValid(adj, start, rest)
    && (visited != {} ==> start in visited && Formula(h, rest))
    && visited <= ReachableFrom(adj, start)
    && dist.Keys == visited && visited !! goals
    && (Consistent(adj, h) ==>
          Bound(adj, h, start, visited, e) && forall u :: u in visited ==> Shortest(adj, start, u, dist[u]))
    && (Tip(e) in visited ==> Pending(adj, rest, visited, dist, start, {}))
    && Pending(adj, rest, visited + {Tip(e)}, dist[Tip(e) := e.cost], Tip(e), Neighbors(adj, Tip(e)).Keys)
  }

  /** Pops the smallest entry. */
  method Pop(adj: Adj, h: NodeId -> real, start: NodeId, startPrio: real, goals: set<NodeId>, frontier: seq<Entry>,
             ghost visited: set<NodeId>, ghost dist: map<NodeId, real>)
    returns (e: Entry, rest: seq<Entry>)
    requires |frontier| > 0 && Inv(adj, h, start, startPrio, goals, frontier, visited, dist)
    ensures Popped(adj, h, start, startPrio, goals, visited, dist, e, rest) && |rest| == |frontier| - 1
    ensures visited == {} ==> e == Entry(startPrio, 0.0, [start])
  {
    var k := ArgMin(frontier);
    e := frontier[k];
    InReachableFrom(adj, e.path, start);
    if Consistent(adj, h) {
      PopBound(adj, h, start, startPrio, frontier, k, visited, dist);
    }
    if e.path != [] && Tip(e) in visited {
      PopPendingSkip(adj, frontier, k, visited, dist, start);
    }
    PopPendingVisit(adj, frontier, k, visited, dist, start, e.cost);
    rest := Remove(frontier, k);
  }

  /** Marks the tip of a popped entry visited and pushes its neighbours. */
  method Visit(adj: Adj, h: NodeId -> real, start: NodeId, startPrio: real, goals: set<NodeId>,
               rest: seq<Entry>, visited: set<NodeId>, ghost dist: map<NodeId, real>, e: Entry)
    returns (frontier': seq<Entry>, visited': set<NodeId>, ghost dist': map<NodeId, real>)
    requires Popped(adj, h, start, startPrio, goals, visited, dist, e, rest)
    requires Tip(e) !in visited && Tip(e) !in goals
    ensures Inv(adj, h, start, startPrio, goals, frontier', visited', dist')
    ensures visited' == visited + {Tip(e)} && |visited'| == |visited| + 1 <= |ReachableFrom(adj, start)|
    ensures |ReachableFrom(adj, start) - visited'| < |ReachableFrom(adj, start) - visited|
  {
    CardinalityStep(ReachableFrom(adj, start), visited, Tip(e));
    VisitShortest(adj, h, start, startPrio, visited, dist, e);
    visited' := visited + {Tip(e)};
    dist' := dist[Tip(e) := e.cost];
    KeysAfterUpdate(dist, Tip(e), e.cost);
    frontier' := Expand(adj, h, start, visited', dist', rest, e);
    Reassemble(adj, h, start, startPrio, goals, frontier', visited', dist');
  }

  lemma KeysAfterUpdate(m: map<NodeId, real>, k: NodeId, v: real)
    ensures m[k := v].Keys == m.Keys + {k}
  {
    forall x ensures x in m[k := v].Keys <==> x in m.Keys + {k} {
    }
  }

  lemma Reassemble(adj: Adj, h: NodeId -> real, start: NodeId, startPrio: real, goals: set<NodeId>,
                   frontier: seq<Entry>, visited: set<NodeId>, dist: map<NodeId, real>)
    requires AllValid(adj, start, frontier) && Formula(h, frontier) && start in visited
    requires visited <= ReachableFrom(adj, start) && dist.Keys == visited && visited !! goals
    requires Pending(adj, frontier, visited, dist, start, {})
    requires Consistent(adj, h) ==>
      forall u :: u in visited ==> Shortest(adj, start, u, dist[u])
    ensures Inv(adj, h, start, startPrio, goals, frontier, visited, dist)
  {
  }

  /** One iteration of the search loop: pop, then settle the popped entry. */
  method Step(adj: Adj, h: NodeId -> real, start: NodeId, startPrio: real, goals: set<NodeId>, goalFirst: bool,
              frontier: seq<Entry>, visited: set<NodeId>, ghost dist: map<NodeId, real>, expanded: nat)
    returns (found: bool, e: Entry, frontier': seq<Entry>, visited': set<NodeId>, ghost dist': map<NodeId, real>,
             expanded': nat)
    requires |frontier| > 0 && Inv(adj, h, start, startPrio, goals, frontier, visited, dist)
    requires expanded == |visited| <= |ReachableFrom(adj, start)|
    ensures expanded' <= |ReachableFrom(adj, start)|
    ensures found ==> Answer(adj, h, start, startPrio, goals, e)
    ensures !found ==> Inv(adj, h, start, startPrio, goals, frontier', visited', dist')
    ensures !found ==> expanded' == |visited'| && visited' != {}
    ensures !found ==>
      |ReachableFrom(adj, start) - visited'| < |ReachableFrom(adj, start) - visited|
      || (visited' == visited && |frontier'| < |frontier|)
    ensures goalFirst && start in goals && visited == {} ==> found && e == Entry(startPrio, 0.0, [start])
  {
    var rest;
    e, rest := Pop(adj, h, start, startPrio, goals, frontier, visited, dist);
    found, frontier', visited', dist', expanded' :=
      Settle(adj, h, start, startPrio, goals, goalFirst, e, rest, visited, dist, expanded);
  }

  /** Settles a popped entry: stop at a goal, drop an entry for a visited
      node, or visit its tip. */
  method Settle(adj: Adj, h: NodeId -> real, start: NodeId, startPrio: real, goals: set<NodeId>, goalFirst: bool,
                e: Entry, rest: seq<Entry>, visited: set<NodeId>, ghost dist: map<NodeId, real>, expanded: nat)
    returns (found: bool, frontier': seq<Entry>, visited': set<NodeId>, ghost dist': map<NodeId, real>,
             expanded': nat)
    requires Popped(adj, h, start, startPrio, goals, visited, dist, e, rest)
    requires expanded == |visited| <= |ReachableFrom(adj, start)|
    ensures expanded' <= |ReachableFrom(adj, start)|
    ensures found ==> Answer(adj, h, start, startPrio, goals, e)
    ensures !found ==> Inv(adj, h, start, startPrio, goals, frontier', visited', dist')
    ensures !found ==> expanded' == |visited'| && visited' != {}
    ensures !found ==>
      |ReachableFrom(adj, start) - visited'| < |ReachableFrom(adj, start) - visited|
      || (visited' == visited && frontier' == rest)
    ensures goalFirst && Tip(e) in goals ==> found
  {
    visited', dist', expanded' := visited, dist, expanded;
    var u := Tip(e);
    if goalFirst && u in goals {
      Arrived(adj, h, start, startPrio, goals, visited, dist, e, rest);
      return true, rest, visited', dist', expanded';
    }
    if u in visited {
      Skipped(adj, h, start, startPrio, goals, visited, dist, e, rest);
      return false, rest, visited', dist', expanded';
    }
    if u in goals {
      Arrived(adj, h, start, startPrio, goals, visited, dist, e, rest);
      CardinalityStep(ReachableFrom(adj, start), visited, u);
      return true, rest, visited', dist', expanded + 1;
    }
    frontier', visited', dist' := Visit(adj, h, start, startPrio, goals, rest, visited, dist, e);
    expanded' := expanded + 1;
    found := false;
  }

  /** The search loop from `start` towards any node of `goals`. The first
      entry has priority `startPrio`. With `goalFirst` a popped goal is
      returned before the visited test, as the older searches do; otherwise
      the node is marked visited and counted first. */
  method Run(adj: Adj, start: NodeId, goals: set<NodeId>, h: NodeId -> real, startPrio: real, goalFirst: bool)
    returns (r: Outcome)
    ensures r.Reached? ==>
      |r.path| > 0 && PathFromTo(adj, r.path, start, Last(r.path)) && Last(r.path) in goals && r.cost == PathCost(adj, r.path)
    ensures r.Reached? && Consistent(adj, h) ==>
      forall p :: IsPath(adj, p) && p[0] == start && Last(p) in goals ==>
        r.cost + h(Last(r.path)) <= PathCost(adj, p) + h(Last(p))
    ensures r.Exhausted? ==> forall t :: t in goals ==> !Reachable(adj, start, t)
    ensures r.expanded <= |ReachableFrom(adj, start)| && r.maxFrontier >= 1
    ensures goalFirst && start in goals ==> r.Reached? && r.path == [start] && r.cost == 0.0
  {
    var frontier := [Entry(startPrio, 0.0, [start])];
    var visited: set<NodeId> := {};
    ghost var dist: map<NodeId, real> := map[];
    var expanded, maxFrontier := 0, 0;
    Initial(adj, h, start, startPrio, goals);
    while |frontier| > 0
      invariant Inv(adj, h, start, startPrio, goals, frontier, visited, dist)
      invariant expanded == |visited| <= |ReachableFrom(adj, start)|
      invariant visited != {} ==> maxFrontier >= 1
      invariant goalFirst && start in goals ==> visited == {}
      decreases |ReachableFrom(adj, start) - visited|, |frontier|
    {
      maxFrontier := if |frontier| > maxFrontier then |frontier| else maxFrontier;
      var found, e;
      found, e, frontier, visited, dist, expanded :=
        Step(adj, h, start, startPrio, goals, goalFirst, frontier, visited, dist, expanded);
      if found {
        return Reached(e.cost, e.path, expanded, maxFrontier);
      }
    }
    NoneLeft(adj, start, goals, visited, dist);
    return Exhausted(expanded, maxFrontier);
  }

  /** `e` answers the search: its path runs from `start` to a goal at the
      path's cost, and with a consistent heuristic no path to a goal is
      cheaper once the heuristic is added. */
  ghost predicate Answer(adj: Adj, h: NodeId -> real, start: NodeId, startPrio: real, goals: set<NodeId>, e: Entry)
  {
    && |e.path| > 0 && PathFromTo(adj, e.path, start, Last(e.path)) && Last(e.path) in goals
    && e.cost == PathCost(adj, e.path)
    && (Consistent(adj, h) ==>
          forall p :: IsPath(adj, p) && p[0] == start && Last(p) in goals ==>
            e.cost + h(Last(e.path)) <= PathCost(adj, p) + h(Last(p)))
  }

  lemma Initial(adj: Adj, h: NodeId -> real, start: NodeId, startPrio: real, goals: set<NodeId>)
    ensures Inv(adj, h, start, startPrio, goals, [Entry(startPrio, 0.0, [start])], {}, map[])
  {
    assert PathFromTo(adj, [start], start, start);
  }

  /** An entry for an already visited node is dropped without further change. */
  lemma Skipped(adj: Adj, h: NodeId -> real, start: NodeId, startPrio: real, goals: set<NodeId>,
                visited: set<NodeId>, dist: map<NodeId, real>, e: Entry, rest: seq<Entry>)
    requires Popped(adj, h, start, startPrio, goals, visited, dist, e, rest) && Tip(e) in visited
    ensures Inv(adj, h, start, startPrio, goals, rest, visited, dist)
  {
  }

  /** A popped entry for a goal answers the search: optimally when the
      heuristic is consistent. */
  lemma Arrived(adj: Adj, h: NodeId -> real, start: NodeId, startPrio: real, goals: set<NodeId>,
                visited: set<NodeId>, dist: map<NodeId, real>, e: Entry, rest: seq<Entry>)
    requires Popped(adj, h, start, startPrio, goals, visited, dist, e, rest) && Tip(e) in goals
    ensures Answer(adj, h, start, startPrio, goals, e)
  {
  }

  /** The entry that visits a node carries a shortest distance to it. */
  lemma VisitShortest(adj: Adj, h: NodeId -> real, start: NodeId, startPrio: real,
                      visited: set<NodeId>, dist: map<NodeId, real>, e: Entry)
    requires Valid(adj, start, e) && Tip(e) !in visited && visited <= dist.Keys
    requires Consistent(adj, h) ==>
      Bound(adj, h, start, visited, e) && forall u :: u in visited ==> Shortest(adj, start, u, dist[u])
    ensures Consistent(adj, h) ==>
      forall u :: u in visited + {Tip(e)} ==> Shortest(adj, start, u, dist[Tip(e) := e.cost][u])
  {
    if Consistent(adj, h) {
      forall p | PathFromTo(adj, p, start, Tip(e)) ensures e.cost <= PathCost(adj, p) {
      }
    }
  }

  /** With the queue empty every edge out of the visited set stays inside it,
      so no goal can be reached. */
  lemma NoneLeft(adj: Adj, start: NodeId, goals: set<NodeId>, visited: set<NodeId>, dist: map<NodeId, real>)
    requires Pending(adj, [], visited, dist, start, {}) && dist.Keys == visited
    requires start in visited && visited !! goals
    ensures forall t :: t in goals ==> !Reachable(adj, start, t)
  {
    assert ClosedUnder(adj, visited);
    forall t | t in goals ensures !Reachable(adj, start, t) {
      ClosedUnreachable(adj, visited, start, t);
    }
  }

  lemma CardinalityStep(u: set<NodeId>, v: set<NodeId>, c: NodeId)
    requires c in u && c !in v && v <= u
    ensures |u - (v + {c})| < |u - v| && |v + {c}| <= |u|
  {
    assert u - v == (u - (v + {c})) + {c};
    assert v + {c} <= u;
  }
}
