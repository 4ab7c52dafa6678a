/** The campus graph: node coordinates plus a weighted adjacency mapping, the
    check that decides whether a graph may be loaded or saved, and the four
    mutators. Every mutator returns the graph together with an outcome; a
    rejected request leaves the graph exactly as it was. */
module GraphStore {
  import opened Values
  import opened Paths

  datatype Coord = Coord(lat: real, lng: real)

  datatype Graph = Graph(nodes: map<NodeId, Coord>, edges: Adj)

  datatype GraphError =
    | EmptyNodeId
    | CoordinatesNotNumbers
    | CoordinatesOutOfRange
    | NodeExists(id: NodeId)
    | EndpointMissing
    | SelfEdgeRequested
    | CostNotNumber
    | CostNotPositive
    | NodeMissing(id: NodeId)
    | EdgeMissing(a: NodeId, b: NodeId)

  /** The status message of a mutator, reduced to success or its error. */
  datatype Outcome = Done | Rejected(error: GraphError)

  /** The first problem `validate_graph` reports, or `Fine`. */
  datatype Violation =
    | Fine
    | BadCoordinates(node: NodeId)
    | MissingNode(node: NodeId)
    | MissingNeighbor(node: NodeId, neighbor: NodeId)
    | SelfEdge(node: NodeId)
    | NonPositiveWeight(node: NodeId, neighbor: NodeId)

  predicate InRange(c: Coord)
  {
    -90.0 <= c.lat <= 90.0 && -180.0 <= c.lng <= 180.0
  }

  predicate CoordinatesOk(g: Graph)
  {
    forall n :: n in g.nodes ==> InRange(g.nodes[n])
  }

  /** No adjacency list, and no entry of one, names a node that does not exist. */
  predicate ReferencesOk(g: Graph)
  {
    && (forall a :: a in g.edges ==> a in g.nodes)
    && (forall a, b :: a in g.edges && b in g.edges[a] ==> b in g.nodes)
  }

  predicate WeightsOk(g: Graph)
  {
    forall a, b :: a in g.edges && b in g.edges[a] ==> b != a && g.edges[a][b] > 0.0
  }

  /** What `validate_graph` accepts. */
  predicate ValidGraph(g: Graph)
  {
    CoordinatesOk(g) && ReferencesOk(g) && WeightsOk(g)
  }

  /** Both directions of every edge are present with the same weight. The
      mutators keep this, although the validity check does not demand it. */
  predicate Symmetric(g: Graph)
  {
    forall a, b :: a in g.edges && b in g.edges[a] ==>
      b in g.edges && a in g.edges[b] && g.edges[b][a] == g.edges[a][b]
  }

  /** Every node has an adjacency mapping (possibly empty). */
  predicate AdjacencyForAll(g: Graph)
  {
    g.nodes.Keys <= g.edges.Keys
  }

  /** The adjacency of `g'` agrees with that of `g` on every ordered pair
      outside `except`. */
  ghost predicate SameEdgesExcept(g: Graph, g': Graph, except: set<(NodeId, NodeId)>)
  {
    forall x, y :: (x, y) !in except ==>
      (HasEdge(g'.edges, x, y) <==> HasEdge(g.edges, x, y))
      && (HasEdge(g.edges, x, y) ==> g'.edges[x][y] == g.edges[x][y])
  }

  // ---------------------------------------------------------------------
  // validate_graph
  // ---------------------------------------------------------------------

  method FindBadCoordinates(nodes: map<NodeId, Coord>) returns (bad: Option<NodeId>)
    ensures bad.None? <==> forall n :: n in nodes ==> InRange(nodes[n])
    ensures bad.Some? ==> bad.value in nodes && !InRange(nodes[bad.value])
  {
    var todo := nodes.Keys;
    while todo != {}
      invariant todo <= nodes.Keys
      invariant forall n :: n in nodes && n !in todo ==> InRange(nodes[n])
      decreases todo
    {
      var n :| n in todo;
      if !InRange(nodes[n]) {
        return Some(n);
      }
      todo := todo - {n};
    }
    return None;
  }

  method FindBadReference(g: Graph) returns (v: Violation)
    ensures v.Fine? || v.MissingNode? || v.MissingNeighbor?
    ensures v.Fine? <==> ReferencesOk(g)
    ensures v.MissingNode? ==> v.node in g.edges && v.node !in g.nodes
    ensures v.MissingNeighbor? ==>
      v.node in g.edges && v.neighbor in g.edges[v.node] && v.neighbor !in g.nodes
  {
    var todo := g.edges.Keys;
    while todo != {}
      invariant todo <= g.edges.Keys
      invariant forall a :: a in g.edges && a !in todo ==> a in g.nodes
      invariant forall a, b :: a in g.edges && a !in todo && b in g.edges[a] ==> b in g.nodes
      decreases todo
    {
      var a :| a in todo;
      if a !in g.nodes {
        return MissingNode(a);
      }
      var nbrs := g.edges[a].Keys;
      while nbrs != {}
        invariant nbrs <= g.edges[a].Keys
        invariant forall b :: b in g.edges[a] && b !in nbrs ==> b in g.nodes
        decreases nbrs
      {
        var b :| b in nbrs;
        if b !in g.nodes {
          return MissingNeighbor(a, b);
        }
        nbrs := nbrs - {b};
      }
      todo := todo - {a};
    }
    return Fine;
  }

  method FindBadWeight(g: Graph) returns (v: Violation)
    ensures v.Fine? || v.SelfEdge? || v.NonPositiveWeight?
    ensures v.Fine? <==> WeightsOk(g)
    ensures v.SelfEdge? ==> v.node in g.edges && v.node in g.edges[v.node]
    ensures v.NonPositiveWeight? ==>
      v.node in g.edges && v.neighbor in g.edges[v.node]
      && v.neighbor != v.node && g.edges[v.node][v.neighbor] <= 0.0
  {
    var todo := g.edges.Keys;
    while todo != {}
      invariant todo <= g.edges.Keys
      invariant forall a, b :: a in g.edges && a !in todo && b in g.edges[a] ==>
        b != a && g.edges[a][b] > 0.0
      decreases todo
    {
      var a :| a in todo;
      var nbrs := g.edges[a].Keys;
      while nbrs != {}
        invariant nbrs <= g.edges[a].Keys
        invariant forall b :: b in g.edges[a] && b !in nbrs ==> b != a && g.edges[a][b] > 0.0
        decreases nbrs
      {
        var b :| b in nbrs;
        if b == a {
          return SelfEdge(a);
        }
        if g.edges[a][b] <= 0.0 {
          return NonPositiveWeight(a, b);
        }
        nbrs := nbrs - {b};
      }
      todo := todo - {a};
    }
    return Fine;
  }

  /** `validate_graph`: coordinates are checked first, then references, then
      weights; the first problem found is reported. */
  method ValidateGraph(g: Graph) returns (v: Violation)
    ensures v.Fine? <==> ValidGraph(g)
    ensures v.BadCoordinates? ==> v.node in g.nodes && !InRange(g.nodes[v.node])
    ensures v.MissingNode? ==> CoordinatesOk(g) && v.node in g.edges && v.node !in g.nodes
    ensures v.MissingNeighbor? ==>
      CoordinatesOk(g) && v.node in g.edges && v.neighbor in g.edges[v.node]
      && v.neighbor !in g.nodes
    ensures v.SelfEdge? ==>
      CoordinatesOk(g) && ReferencesOk(g) && v.node in g.edges && v.node in g.edges[v.node]
    ensures v.NonPositiveWeight? ==>
      CoordinatesOk(g) && ReferencesOk(g) && v.node in g.edges && v.neighbor in g.edges[v.node]
      && v.neighbor != v.node && g.edges[v.node][v.neighbor] <= 0.0
  {
    var bad := FindBadCoordinates(g.nodes);
    if bad.Some? {
      return BadCoordinates(bad.value);
    }
    v := FindBadReference(g);
    if !v.Fine? {
      return v;
    }
    v := FindBadWeight(g);
  }

  // ---------------------------------------------------------------------
  // Mutators
  // ---------------------------------------------------------------------

  /** `add_node`: rejects a blank id, non-numeric or out-of-range coordinates
      and an existing id, in that order; otherwise adds the node with an
      empty adjacency mapping. */
  function AddNode(g: Graph, id: NodeId, lat: Value, lng: Value): (r: (Graph, Outcome))
    ensures r.1.Rejected? ==> r.0 == g
    ensures Strip(id) == [] ==> r.1 == Rejected(EmptyNodeId)
    ensures Strip(id) != [] && (ToFloat(lat).None? || ToFloat(lng).None?) ==>
      r.1 == Rejected(CoordinatesNotNumbers)
    ensures (Strip(id) != [] && ToFloat(lat).Some? && ToFloat(lng).Some?
             && !InRange(Coord(ToFloat(lat).value, ToFloat(lng).value))) ==> r.1 == Rejected(CoordinatesOutOfRange)
    ensures (Strip(id) != [] && ToFloat(lat).Some? && ToFloat(lng).Some?
             && InRange(Coord(ToFloat(lat).value, ToFloat(lng).value)) && id in g.nodes) ==>
      r.1 == Rejected(NodeExists(id))
    ensures r.1.Done? <==>
      Strip(id) != [] && ToFloat(lat).Some? && ToFloat(lng).Some?
      && InRange(Coord(ToFloat(lat).value, ToFloat(lng).value)) && id !in g.nodes
    ensures r.1.Done? ==>
      && r.0.nodes == g.nodes[id := Coord(ToFloat(lat).value, ToFloat(lng).value)]
      && id in r.0.edges && r.0.edges[id] == map[]
      && forall x :: x in g.edges && x != id ==> x in r.0.edges && r.0.edges[x] == g.edges[x]
    ensures ValidGraph(g) ==> ValidGraph(r.0)
    ensures Symmetric(g) && ReferencesOk(g) ==> Symmetric(r.0)
    ensures AdjacencyForAll(g) ==> AdjacencyForAll(r.0)
  {
    if Strip(id) == [] then (g, Rejected(EmptyNodeId))
    else if ToFloat(lat).None? || ToFloat(lng).None? then (g, Rejected(CoordinatesNotNumbers))
    else
      var c := Coord(ToFloat(lat).value, ToFloat(lng).value);
      if !InRange(c) then (g, Rejected(CoordinatesOutOfRange))
      else if id in g.nodes then (g, Rejected(NodeExists(id)))
      else
        var g' := Graph(g.nodes[id := c], g.edges[id := map[]]);
        NodeAddedKeeps(g, id, c);
        (g', Done)
  }

  /** A new in-range node with an empty adjacency mapping keeps a graph
      valid, symmetric and fully indexed. */
  lemma NodeAddedKeeps(g: Graph, id: NodeId, c: Coord)
    requires InRange(c) && id !in g.nodes
    ensures ValidGraph(g) ==> ValidGraph(Graph(g.nodes[id := c], g.edges[id := map[]]))
    ensures Symmetric(g) && ReferencesOk(g) ==> Symmetric(Graph(g.nodes[id := c], g.edges[id := map[]]))
    ensures AdjacencyForAll(g) ==> AdjacencyForAll(Graph(g.nodes[id := c], g.edges[id := map[]]))
  {
    var g' := Graph(g.nodes[id := c], g.edges[id := map[]]);
    if Symmetric(g) && ReferencesOk(g) {
      forall x, y | x in g'.edges && y in g'.edges[x]
        ensures y in g'.edges && x in g'.edges[y] && g'.edges[y][x] == g'.edges[x][y]
      {
        assert x != id && x in g.edges && y in g.edges[x];
        assert y != id;
      }
    }
  }

  /** `add_edge`: rejects a missing endpoint, a self-edge and a non-numeric or
      non-positive cost, in that order; otherwise sets both directions. */
  function AddEdge(g: Graph, a: NodeId, b: NodeId, cost: Value): (r: (Graph, Outcome))
    requires a in g.nodes && b in g.nodes && a != b && ToFloat(cost).Some? && ToFloat(cost).value > 0.0 ==>
      a in g.edges && b in g.edges
    ensures r.1.Rejected? ==> r.0 == g
    ensures a !in g.nodes || b !in g.nodes ==> r.1 == Rejected(EndpointMissing)
    ensures a in g.nodes && b in g.nodes && a == b ==> r.1 == Rejected(SelfEdgeRequested)
    ensures a in g.nodes && b in g.nodes && a != b && ToFloat(cost).None? ==> r.1 == Rejected(CostNotNumber)
    ensures a in g.nodes && b in g.nodes && a != b && ToFloat(cost).Some? && ToFloat(cost).value <= 0.0 ==>
      r.1 == Rejected(CostNotPositive)
    ensures r.1.Done? <==>
      a in g.nodes && b in g.nodes && a != b && ToFloat(cost).Some? && ToFloat(cost).value > 0.0
    ensures r.1.Done? ==>
      && r.0.nodes == g.nodes
      && HasEdge(r.0.edges, a, b) && HasEdge(r.0.edges, b, a)
      && r.0.edges[a][b] == ToFloat(cost).value == r.0.edges[b][a]
      && r.0.edges.Keys == g.edges.Keys
      && SameEdgesExcept(g, r.0, {(a, b), (b, a)})
    ensures ValidGraph(g) ==> ValidGraph(r.0)
    ensures Symmetric(g) ==> Symmetric(r.0)
    ensures AdjacencyForAll(g) ==> AdjacencyForAll(r.0)
  {
    if a !in g.nodes || b !in g.nodes then (g, Rejected(EndpointMissing))
    else if a == b then (g, Rejected(SelfEdgeRequested))
    else if ToFloat(cost).None? then (g, Rejected(CostNotNumber))
    else
      var c := ToFloat(cost).value;
      if c <= 0.0 then (g, Rejected(CostNotPositive))
      else
        var withAB := g.edges[a := g.edges[a][b := c]];
        var g' := Graph(g.nodes, withAB[b := withAB[b][a := c]]);
        assert SameEdgesExcept(g, g', {(a, b), (b, a)});
        PairAddedKeeps(g, g', a, b, c);
        (g', Done)
  }

  /** Adding both directions of a positive edge between two distinct nodes
      keeps a graph valid, symmetric and fully indexed. */
  lemma PairAddedKeeps(g: Graph, g': Graph, a: NodeId, b: NodeId, c: real)
    requires a in g.nodes && b in g.nodes && a != b && c > 0.0
    requires g'.nodes == g.nodes && g'.edges.Keys == g.edges.Keys
    requires HasEdge(g'.edges, a, b) && HasEdge(g'.edges, b, a) && g'.edges[a][b] == c == g'.edges[b][a]
    requires SameEdgesExcept(g, g', {(a, b), (b, a)})
    ensures ValidGraph(g) ==> ValidGraph(g')
    ensures Symmetric(g) ==> Symmetric(g')
    ensures AdjacencyForAll(g) ==> AdjacencyForAll(g')
  {
    if ValidGraph(g) {
      ChangedPairsValid(g, g', a, b);
    }
    if Symmetric(g) {
      ChangedPairsSymmetric(g, g', a, b);
    }
  }

  /** Edges of `g'` outside the pair `a`-`b` are edges of `g`; so when the
      pair itself is absent or positive between distinct nodes, the graph
      stays valid. */
  lemma ChangedPairsValid(g: Graph, g': Graph, a: NodeId, b: NodeId)
    requires ValidGraph(g) && a in g.nodes && b in g.nodes
    requires g'.nodes == g.nodes && g'.edges.Keys == g.edges.Keys
    requires HasEdge(g'.edges, a, b) ==> a != b && g'.edges[a][b] > 0.0
    requires HasEdge(g'.edges, b, a) ==> a != b && g'.edges[b][a] > 0.0
    requires SameEdgesExcept(g, g', {(a, b), (b, a)})
    ensures ValidGraph(g')
  {
    ChangedPairsReferences(g, g', a, b);
    ChangedPairsWeights(g, g', a, b);
  }

  lemma ChangedPairsReferences(g: Graph, g': Graph, a: NodeId, b: NodeId)
    requires ReferencesOk(g) && a in g.nodes && b in g.nodes
    requires g'.nodes == g.nodes && g'.edges.Keys == g.edges.Keys
    requires SameEdgesExcept(g, g', {(a, b), (b, a)})
    ensures ReferencesOk(g')
  {
    forall x, y | x in g'.edges && y in g'.edges[x] ensures y in g'.nodes {
      if (x, y) != (a, b) && (x, y) != (b, a) {
        KeptEdge(g, g', a, b, x, y);
      }
    }
  }

  lemma ChangedPairsWeights(g: Graph, g': Graph, a: NodeId, b: NodeId)
    requires WeightsOk(g)
    requires HasEdge(g'.edges, a, b) ==> a != b && g'.edges[a][b] > 0.0
    requires HasEdge(g'.edges, b, a) ==> a != b && g'.edges[b][a] > 0.0
    requires SameEdgesExcept(g, g', {(a, b), (b, a)})
    ensures WeightsOk(g')
  {
    forall x, y | x in g'.edges && y in g'.edges[x] ensures y != x && g'.edges[x][y] > 0.0 {
      if (x, y) != (a, b) && (x, y) != (b, a) {
        KeptEdge(g, g', a, b, x, y);
      }
    }
  }

  /** An edge of `g'` outside the pair `a`-`b` is an edge of `g` with the
      same weight. */
  lemma KeptEdge(g: Graph, g': Graph, a: NodeId, b: NodeId, x: NodeId, y: NodeId)
    requires SameEdgesExcept(g, g', {(a, b), (b, a)})
    requires HasEdge(g'.edges, x, y) && (x, y) != (a, b) && (x, y) != (b, a)
    ensures HasEdge(g.edges, x, y) && g'.edges[x][y] == g.edges[x][y]
  {
    assert (x, y) !in {(a, b), (b, a)};
  }

  /** When the pair `a`-`b` is either present in both directions with one
      weight or absent in both, and nothing else changed, symmetry carries
      over. */
  lemma ChangedPairsSymmetric(g: Graph, g': Graph, a: NodeId, b: NodeId)
    requires Symmetric(g)
    requires HasEdge(g'.edges, a, b) <==> HasEdge(g'.edges, b, a)
    requires HasEdge(g'.edges, a, b) ==> g'.edges[a][b] == g'.edges[b][a]
    requires SameEdgesExcept(g, g', {(a, b), (b, a)})
    ensures Symmetric(g')
  {
    forall x, y | x in g'.edges && y in g'.edges[x]
      ensures y in g'.edges && x in g'.edges[y] && g'.edges[y][x] == g'.edges[x][y]
    {
      if (x, y) != (a, b) && (x, y) != (b, a) {
        KeptEdge(g, g', a, b, x, y);
        assert (y, x) !in {(a, b), (b, a)} && HasEdge(g.edges, y, x);
      }
    }
  }

  /** `remove_node`: rejects an unknown id; otherwise deletes the node, its
      adjacency mapping and every reference to it. */
  function RemoveNode(g: Graph, id: NodeId): (r: (Graph, Outcome))
    ensures r.1.Rejected? ==> r.0 == g
    ensures r.1 == Done <==> id in g.nodes
    ensures r.1.Rejected? ==> r.1.error == NodeMissing(id)
    ensures r.1.Done? ==>
      && r.0.nodes == g.nodes - {id}
      && id !in r.0.edges
      && (forall x :: x in r.0.edges ==> id !in r.0.edges[x])
      && r.0.edges.Keys == g.edges.Keys - {id}
      && forall x, y :: x != id && y != id ==>
           (HasEdge(r.0.edges, x, y) <==> HasEdge(g.edges, x, y))
           && (HasEdge(g.edges, x, y) ==> r.0.edges[x][y] == g.edges[x][y])
    ensures ValidGraph(g) ==> ValidGraph(r.0)
    ensures Symmetric(g) ==> Symmetric(r.0)
    ensures AdjacencyForAll(g) ==> AdjacencyForAll(r.0)
  {
    if id !in g.nodes then (g, Rejected(NodeMissing(id)))
    else
      var edges := map x | x in g.edges && x != id :: g.edges[x] - {id};
      (Graph(g.nodes - {id}, edges), Done)
  }

  /** `remove_edge`: rejects a missing endpoint, and a pair with no edge in
      either direction; otherwise deletes whichever directions exist. */
  function RemoveEdge(g: Graph, a: NodeId, b: NodeId): (r: (Graph, Outcome))
    ensures r.1.Rejected? ==> r.0 == g
    ensures a !in g.nodes || b !in g.nodes ==> r.1 == Rejected(EndpointMissing)
    ensures a in g.nodes && b in g.nodes && !HasEdge(g.edges, a, b) && !HasEdge(g.edges, b, a) ==>
      r.1 == Rejected(EdgeMissing(a, b))
    ensures r.1.Done? <==>
      a in g.nodes && b in g.nodes && (HasEdge(g.edges, a, b) || HasEdge(g.edges, b, a))
    ensures r.1.Done? ==>
      && r.0.nodes == g.nodes
      && !HasEdge(r.0.edges, a, b) && !HasEdge(r.0.edges, b, a)
      && r.0.edges.Keys == g.edges.Keys
      && SameEdgesExcept(g, r.0, {(a, b), (b, a)})
    ensures ValidGraph(g) ==> ValidGraph(r.0)
    ensures Symmetric(g) ==> Symmetric(r.0)
    ensures AdjacencyForAll(g) ==> AdjacencyForAll(r.0)
  {
    if a !in g.nodes || b !in g.nodes then (g, Rejected(EndpointMissing))
    else if !HasEdge(g.edges, a, b) && !HasEdge(g.edges, b, a) then (g, Rejected(EdgeMissing(a, b)))
    else
      var e1 := if HasEdge(g.edges, a, b) then g.edges[a := g.edges[a] - {b}] else g.edges;
      var e2 := if HasEdge(e1, b, a) then e1[b := e1[b] - {a}] else e1;
      var g' := Graph(g.nodes, e2);
      assert SameEdgesExcept(g, g', {(a, b), (b, a)});
      PairRemovedKeeps(g, g', a, b);
      (g', Done)
  }

  /** Removing both directions of an edge keeps a graph valid, symmetric and
      fully indexed. */
  lemma PairRemovedKeeps(g: Graph, g': Graph, a: NodeId, b: NodeId)
    requires a in g.nodes && b in g.nodes
    requires g'.nodes == g.nodes && g'.edges.Keys == g.edges.Keys
    requires !HasEdge(g'.edges, a, b) && !HasEdge(g'.edges, b, a)
    requires SameEdgesExcept(g, g', {(a, b), (b, a)})
    ensures ValidGraph(g) ==> ValidGraph(g')
    ensures Symmetric(g) ==> Symmetric(g')
    ensures AdjacencyForAll(g) ==> AdjacencyForAll(g')
  {
    if ValidGraph(g) {
      ChangedPairsValid(g, g', a, b);
    }
    if Symmetric(g) {
      ChangedPairsSymmetric(g, g', a, b);
    }
  }

  // ---------------------------------------------------------------------
  // Round trips
  // ---------------------------------------------------------------------

  /** Adding an edge between two unconnected nodes and removing it again
      restores the graph. */
  lemma AddThenRemoveEdge(g: Graph, a: NodeId, b: NodeId, cost: Value)
    requires a in g.nodes && b in g.nodes && a != b && ToFloat(cost).Some? && ToFloat(cost).value > 0.0 ==>
      a in g.edges && b in g.edges
    requires !HasEdge(g.edges, a, b) && !HasEdge(g.edges, b, a)
    requires AddEdge(g, a, b, cost).1.Done?
    ensures RemoveEdge(AddEdge(g, a, b, cost).0, a, b) == (g, Done)
  {
    var g1 := AddEdge(g, a, b, cost).0;
    var r2 := RemoveEdge(g1, a, b);
    PairRestored(g, g1, r2.0, a, b);
  }

  /** Two graphs that agree with a third outside the pair a-b, on nodes and
      adjacency keys, and that both lack the pair, are equal. */
  lemma PairRestored(g: Graph, g1: Graph, g2: Graph, a: NodeId, b: NodeId)
    requires !HasEdge(g.edges, a, b) && !HasEdge(g.edges, b, a)
    requires !HasEdge(g2.edges, a, b) && !HasEdge(g2.edges, b, a)
    requires g1.nodes == g.nodes && g1.edges.Keys == g.edges.Keys && SameEdgesExcept(g, g1, {(a, b), (b, a)})
    requires g2.nodes == g1.nodes && g2.edges.Keys == g1.edges.Keys && SameEdgesExcept(g1, g2, {(a, b), (b, a)})
    ensures g2 == g
  {
    forall x | x in g.edges ensures g2.edges[x] == g.edges[x] {
      forall y ensures y in g2.edges[x] <==> y in g.edges[x] {
        if (x, y) !in {(a, b), (b, a)} {
          assert HasEdge(g2.edges, x, y) <==> HasEdge(g1.edges, x, y);
        }
      }
      forall y | y in g.edges[x] ensures g2.edges[x][y] == g.edges[x][y] {
        assert (x, y) !in {(a, b), (b, a)};
        assert HasEdge(g1.edges, x, y);
      }
    }
    assert g2.edges == g.edges;
  }

  /** Adding a fresh node and removing it again restores the graph, provided
      nothing referred to the id beforehand. */
  lemma AddThenRemoveNode(g: Graph, id: NodeId, lat: Value, lng: Value)
    requires id !in g.edges && id !in Targets(g.edges)
    requires AddNode(g, id, lat, lng).1.Done?
    ensures RemoveNode(AddNode(g, id, lat, lng).0, id) == (g, Done)
  {
    var c := Coord(ToFloat(lat).value, ToFloat(lng).value);
    assert AddNode(g, id, lat, lng) == (Graph(g.nodes[id := c], g.edges[id := map[]]), Done);
    RemoveFreshNode(g, id, c);
  }

  lemma RemoveFreshNode(g: Graph, id: NodeId, c: Coord)
    requires id !in g.nodes && id !in g.edges && id !in Targets(g.edges)
    ensures RemoveNode(Graph(g.nodes[id := c], g.edges[id := map[]]), id) == (g, Done)
  {
    var g1 := Graph(g.nodes[id := c], g.edges[id := map[]]);
    var edges := map x | x in g1.edges && x != id :: g1.edges[x] - {id};
    forall x | x in g.edges ensures edges[x] == g.edges[x] {
      assert id in g.edges[x] ==> id in Targets(g.edges);
    }
    assert edges == g.edges;
    assert g1.nodes - {id} == g.nodes;
  }
}
