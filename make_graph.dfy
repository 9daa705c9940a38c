/** One refinement pass (make_graph.py, create_graph): build a graph from an
    edge list, test every pair of its edges for an intersection, schedule
    sub-edges and removals, then apply all additions and then all removals.
    The graph of networkx is modelled as a node set and a set of undirected
    edges, each stored with its endpoints in ascending order. */
module MakeGraph {
  import opened Geometry

  datatype Graph = Graph(nodes: set<Point>, edges: set<Edge>)

  /** Lexicographic order on points, as Python compares coordinate tuples. */
  predicate PointLe(a: Point, b: Point)
  {
    a.x < b.x || (a.x == b.x && a.y <= b.y)
  }

  predicate IsCanonical(e: Edge)
  {
    PointLe(e.p, e.q)
  }

  /** The stored form of an undirected edge: its endpoints in sorted order. */
  function Canon(e: Edge): (c: Edge)
    ensures IsCanonical(c)
    ensures c == e || c == Reversed(e)
  {
    if PointLe(e.p, e.q) then e else Reversed(e)
  }

  /** Two ordered edges have the same stored form exactly when they are the
      same undirected edge. */
  lemma CanonUndirected(e1: Edge, e2: Edge)
    ensures Canon(e1) == Canon(e2) <==> (e1 == e2 || e1 == Reversed(e2))
  {
    if e1 == Reversed(e2) && PointLe(e1.p, e1.q) && PointLe(e2.p, e2.q) {
      assert e1.p == e1.q;
    }
  }

  /** The graph invariant: edges are stored canonically and join nodes. */
  ghost predicate Valid(g: Graph)
  {
    forall e | e in g.edges :: IsCanonical(e) && e.p in g.nodes && e.q in g.nodes
  }

  // The three graph operations of networkx that create_graph uses.

  function AddEdge(g: Graph, a: Point, b: Point): Graph
  {
    Graph(g.nodes + {a, b}, g.edges + {Canon(Edge(a, b))})
  }

  function AddNode(g: Graph, a: Point): Graph
  {
    Graph(g.nodes + {a}, g.edges)
  }

  /** networkx raises an error when the edge is absent. */
  function RemoveEdge(g: Graph, a: Point, b: Point): Graph
    requires Canon(Edge(a, b)) in g.edges
  {
    Graph(g.nodes, g.edges - {Canon(Edge(a, b))})
  }

  function AsSet(s: seq<Edge>): set<Edge>
  {
    set e | e in s
  }

  function CanonAll(s: set<Edge>): set<Edge>
  {
    set e | e in s :: Canon(e)
  }

  predicate Distinct(s: seq<Edge>)
  {
    forall a, b | 0 <= a < b < |s| :: s[a] != s[b]
  }

  /** The nodes that adding all input edges creates. */
  function Endpoints(edges: seq<Edge>): set<Point>
  {
    if edges == [] then {}
    else Endpoints(edges[..|edges| - 1]) + {edges[|edges| - 1].p, edges[|edges| - 1].q}
  }

  /** The graph's edge list after the input edges are added: each undirected edge
      once, in the order it was first added. */
  function OriginalEdges(edges: seq<Edge>): seq<Edge>
  {
    if edges == [] then []
    else
      var prev := OriginalEdges(edges[..|edges| - 1]);
      var c := Canon(edges[|edges| - 1]);
      if c in prev then prev else prev + [c]
  }

  lemma EndpointsOf(edges: seq<Edge>, x: Point)
    ensures x in Endpoints(edges) <==> exists k :: 0 <= k < |edges| && (x == edges[k].p || x == edges[k].q)
  {
    if edges != [] {
      var init := edges[..|edges| - 1];
      EndpointsOf(init, x);
      if x in Endpoints(init) {
        var k :| 0 <= k < |init| && (x == init[k].p || x == init[k].q);
        assert edges[k] == init[k];
      }
      if exists k :: 0 <= k < |edges| && (x == edges[k].p || x == edges[k].q) {
        var k :| 0 <= k < |edges| && (x == edges[k].p || x == edges[k].q);
        if k < |init| { assert init[k] == edges[k]; }
      }
    }
  }

  /** The edge list a pass scans: no repeats, every edge canonical, each the
      stored form of some input edge and joining endpoints of the input. */
  lemma {:induction false} OriginalEdgesShape(edges: seq<Edge>)
    ensures Distinct(OriginalEdges(edges))
    ensures forall e | e in OriginalEdges(edges) ::
              IsCanonical(e) && e.p in Endpoints(edges) && e.q in Endpoints(edges)
    ensures AsSet(OriginalEdges(edges)) == CanonAll(AsSet(edges))
  {
    if edges != [] {
      var init := edges[..|edges| - 1];
      var last := edges[|edges| - 1];
      OriginalEdgesShape(init);
      assert edges == init + [last];
      assert AsSet(edges) == AsSet(init) + {last};
      assert CanonAll(AsSet(edges)) == CanonAll(AsSet(init)) + {Canon(last)};
      var prev := OriginalEdges(init);
      if Canon(last) !in prev {
        assert AsSet(prev + [Canon(last)]) == AsSet(prev) + {Canon(last)};
      }
      assert Endpoints(init) <= Endpoints(edges);
    }
  }

  /** A list that is already canonical and free of repeats is scanned as it
      is: the canonicalisation between passes fixes the next pass's order. */
  lemma {:induction false} CanonicalListScannedAsIs(edges: seq<Edge>)
    requires Distinct(edges)
    requires forall e | e in edges :: IsCanonical(e)
    ensures OriginalEdges(edges) == edges
  {
    if edges != [] {
      var init := edges[..|edges| - 1];
      var last := edges[|edges| - 1];
      CanonicalListScannedAsIs(init);
      assert last !in init;
      assert last in edges;
      assert Canon(last) == last;
      assert OriginalEdges(edges) == init + [last];
      assert edges == init + [last];
    }
  }

  /** The sub-edges scheduled when point p is found on edge e: p joined to
      each endpoint, unless p is one of them. */
  function SubEdges(p: Point, e: Edge): set<Edge>
  {
    if p != e.p && p != e.q then {Edge(p, e.p), Edge(p, e.q)} else {}
  }

  /** The edge scheduled for removal: e itself, unless p is an endpoint. */
  function Cut(p: Point, e: Edge): set<Edge>
  {
    if p != e.p && p != e.q then {Edge(e.p, e.q)} else {}
  }

  /** What the pass schedules: intersection points found, sub-edges to add
      (new_edges) and edges to remove (removal_edges). */
  datatype Schedule = Schedule(hits: set<Point>, splits: set<Edge>, cuts: set<Edge>)

  function Merge(s1: Schedule, s2: Schedule): Schedule
  {
    Schedule(s1.hits + s2.hits, s1.splits + s2.splits, s1.cuts + s2.cuts)
  }

  const Nothing := Schedule({}, {}, {})

  /** What the pair (a, b) contributes. */
  function PairSchedule(es: seq<Edge>, meet: (Edge, Edge) -> Option<Point>, a: int, b: int): Schedule
    requires 0 <= a < |es| && 0 <= b < |es|
  {
    match meet(es[a], es[b])
    case None => Nothing
    case Some(p) => Schedule({p}, SubEdges(p, es[a]) + SubEdges(p, es[b]), Cut(p, es[a]) + Cut(p, es[b]))
  }

  /** What the pairs (i, b) with i < b < j contribute. */
  function RowSchedule(es: seq<Edge>, meet: (Edge, Edge) -> Option<Point>, i: int, j: int): Schedule
    requires 0 <= i < |es| && i < j <= |es|
    decreases j
  {
    if j == i + 1 then Nothing
    else Merge(RowSchedule(es, meet, i, j - 1), PairSchedule(es, meet, i, j - 1))
  }

  /** What the rows a < i contribute. */
  function ScanSchedule(es: seq<Edge>, meet: (Edge, Edge) -> Option<Point>, i: int): Schedule
    requires 0 <= i <= |es|
  {
    if i == 0 then Nothing
    else Merge(ScanSchedule(es, meet, i - 1), RowSchedule(es, meet, i - 1, |es|))
  }

  /** The whole pass over the pairs a < b of es. */
  function PassSchedule(es: seq<Edge>, meet: (Edge, Edge) -> Option<Point>): Schedule
  {
    ScanSchedule(es, meet, |es|)
  }

  /** The schedule of the pass create_graph runs on the input edges. */
  function Pass(edges: seq<Edge>, meet: (Edge, Edge) -> Option<Point>): Schedule
  {
    PassSchedule(OriginalEdges(edges), meet)
  }

  /** The points of the pass that were not already nodes. */
  function NewPoints(edges: seq<Edge>, meet: (Edge, Edge) -> Option<Point>): set<Point>
  {
    Pass(edges, meet).hits - Endpoints(edges)
  }

  /** The scan covers every pair a < b of a finished row. */
  lemma {:induction false} ScanHasPair(es: seq<Edge>, meet: (Edge, Edge) -> Option<Point>, i: int, a: int, b: int)
    requires 0 <= a < b < |es| && a < i <= |es|
    ensures PairSchedule(es, meet, a, b).hits <= ScanSchedule(es, meet, i).hits
    ensures PairSchedule(es, meet, a, b).splits <= ScanSchedule(es, meet, i).splits
    ensures PairSchedule(es, meet, a, b).cuts <= ScanSchedule(es, meet, i).cuts
  {
    if a < i - 1 {
      ScanHasPair(es, meet, i - 1, a, b);
    } else {
      RowHasPair(es, meet, a, |es|, b);
    }
  }

  lemma {:induction false} RowHasPair(es: seq<Edge>, meet: (Edge, Edge) -> Option<Point>, i: int, j: int, b: int)
    requires 0 <= i < b < j <= |es|
    ensures PairSchedule(es, meet, i, b).hits <= RowSchedule(es, meet, i, j).hits
    ensures PairSchedule(es, meet, i, b).splits <= RowSchedule(es, meet, i, j).splits
    ensures PairSchedule(es, meet, i, b).cuts <= RowSchedule(es, meet, i, j).cuts
  {
    if b < j - 1 {
      RowHasPair(es, meet, i, j - 1, b);
    }
  }

  /** Everything the scan holds was contributed by some pair a < b. */
  lemma {:induction false} ScanFromPair(es: seq<Edge>, meet: (Edge, Edge) -> Option<Point>, i: int,
                                        x: Point, t: Edge)
    requires 0 <= i <= |es|
    ensures x in ScanSchedule(es, meet, i).hits ==>
              exists a, b :: 0 <= a < b < |es| && a < i && x in PairSchedule(es, meet, a, b).hits
    ensures t in ScanSchedule(es, meet, i).splits ==>
              exists a, b :: 0 <= a < b < |es| && a < i && t in PairSchedule(es, meet, a, b).splits
    ensures t in ScanSchedule(es, meet, i).cuts ==>
              exists a, b :: 0 <= a < b < |es| && a < i && t in PairSchedule(es, meet, a, b).cuts
  {
    if i > 0 {
      ScanFromPair(es, meet, i - 1, x, t);
      RowFromPair(es, meet, i - 1, |es|, x, t);
    }
  }

  lemma {:induction false} RowFromPair(es: seq<Edge>, meet: (Edge, Edge) -> Option<Point>, i: int, j: int,
                                       x: Point, t: Edge)
    requires 0 <= i < |es| && i < j <= |es|
    ensures x in RowSchedule(es, meet, i, j).hits ==>
              exists b :: i < b < j && x in PairSchedule(es, meet, i, b).hits
    ensures t in RowSchedule(es, meet, i, j).splits ==>
              exists b :: i < b < j && t in PairSchedule(es, meet, i, b).splits
    ensures t in RowSchedule(es, meet, i, j).cuts ==>
              exists b :: i < b < j && t in PairSchedule(es, meet, i, b).cuts
    decreases j
  {
    if j > i + 1 {
      RowFromPair(es, meet, i, j - 1, x, t);
    }
  }

  /** Adds every scheduled sub-edge to the graph, in the iteration order of
      the set, which does not matter. */
  method AddEdges(g: Graph, s: set<Edge>) returns (g': Graph)
    requires forall t | t in s :: t.p in g.nodes && t.q in g.nodes
    ensures g'.nodes == g.nodes
    ensures g'.edges == g.edges + CanonAll(s)
  {
    g' := g;
    var pending := s;
    while pending != {}
      invariant pending <= s
      invariant g'.nodes == g.nodes
      invariant g'.edges == g.edges + CanonAll(s - pending)
      decreases |pending|
    {
      var t :| t in pending;
      assert CanonAll(s - (pending - {t})) == CanonAll(s - pending) + {Canon(t)};
      g' := AddEdge(g', t.p, t.q);
      pending := pending - {t};
    }
    assert s - pending == s;
  }

  /** Removes every scheduled edge from the graph; each removal finds its
      edge present, so networkx never raises here. */
  method RemoveEdges(g: Graph, s: set<Edge>) returns (g': Graph)
    requires forall t | t in s :: IsCanonical(t) && t in g.edges
    ensures g'.nodes == g.nodes
    ensures g'.edges == g.edges - s
  {
    g' := g;
    var pending := s;
    while pending != {}
      invariant pending <= s
      invariant g'.nodes == g.nodes
      invariant g'.edges == g.edges - (s - pending)
      decreases |pending|
    {
      var t :| t in pending;
      assert Canon(Edge(t.p, t.q)) == t;
      g' := RemoveEdge(g', t.p, t.q);
      pending := pending - {t};
    }
  }

  /** The first loop of create_graph: every input edge is added to the graph. */
  method AddInputEdges(edges: seq<Edge>) returns (g: Graph, original: seq<Edge>)
    ensures g.nodes == Endpoints(edges)
    ensures original == OriginalEdges(edges)
    ensures g.edges == AsSet(original)
  {
    g := Graph({}, {});
    original := [];
    for k := 0 to |edges|
      invariant g.nodes == Endpoints(edges[..k])
      invariant original == OriginalEdges(edges[..k])
      invariant g.edges == AsSet(original)
    {
      assert edges[..k + 1][..k] == edges[..k];
      if Canon(edges[k]) !in g.edges {
        original := original + [Canon(edges[k])];
      }
      g := AddEdge(g, edges[k].p, edges[k].q);
    }
    assert edges[..|edges|] == edges;
  }

  /** The body of the inner loop of create_graph for the pair (i, j). */
  method ScanPair(original: seq<Edge>, i: int, j: int, meet: (Edge, Edge) -> Option<Point>,
                  g: Graph, newEdges: set<Edge>, removalEdges: set<Edge>,
                  intersections: set<Point>, lastIntersection: int)
    returns (g': Graph, newEdges': set<Edge>, removalEdges': set<Edge>,
             intersections': set<Point>, lastIntersection': int)
    requires 0 <= i < j < |original|
    ensures Advances(PairSchedule(original, meet, i, j), g, newEdges, removalEdges, intersections, lastIntersection,
                     g', newEdges', removalEdges', intersections', lastIntersection')
  {
    g', newEdges', removalEdges', intersections', lastIntersection' :=
      g, newEdges, removalEdges, intersections, lastIntersection;
    var intersect := meet(original[i], original[j]);
    if intersect.Some? {
      var p := intersect.value;
      var nEdges: set<Edge> := {};
      var rEdges: set<Edge> := {};
      if p != original[i].p && p != original[i].q {
        nEdges := nEdges + {Edge(p, original[i].p), Edge(p, original[i].q)};
        rEdges := rEdges + {Edge(original[i].p, original[i].q)};
      }
      if p != original[j].p && p != original[j].q {
        nEdges := nEdges + {Edge(p, original[j].p), Edge(p, original[j].q)};
        rEdges := rEdges + {Edge(original[j].p, original[j].q)};
      }
      newEdges' := newEdges' + nEdges;
      removalEdges' := removalEdges' + rEdges;
      if p !in g'.nodes {
        lastIntersection' := 3;
        intersections' := intersections' + {p};
        g' := AddNode(g', p);
      }
    }
  }

  /** The scan state after it has taken in the schedule s. */
  ghost predicate Advances(s: Schedule, g: Graph, newEdges: set<Edge>, removalEdges: set<Edge>,
                           intersections: set<Point>, lastIntersection: int,
                           g': Graph, newEdges': set<Edge>, removalEdges': set<Edge>,
                           intersections': set<Point>, lastIntersection': int)
  {
    && g'.edges == g.edges
    && g'.nodes == g.nodes + s.hits
    && newEdges' == newEdges + s.splits
    && removalEdges' == removalEdges + s.cuts
    && intersections' == intersections + (s.hits - g.nodes)
    && lastIntersection' == if s.hits - g.nodes != {} then 3 else lastIntersection
  }

  lemma AdvancesTwice(s1: Schedule, s2: Schedule, g: Graph, newEdges: set<Edge>, removalEdges: set<Edge>,
                      intersections: set<Point>, lastIntersection: int,
                      g1: Graph, newEdges1: set<Edge>, removalEdges1: set<Edge>,
                      intersections1: set<Point>, lastIntersection1: int,
                      g2: Graph, newEdges2: set<Edge>, removalEdges2: set<Edge>,
                      intersections2: set<Point>, lastIntersection2: int)
    requires Advances(s1, g, newEdges, removalEdges, intersections, lastIntersection,
                      g1, newEdges1, removalEdges1, intersections1, lastIntersection1)
    requires Advances(s2, g1, newEdges1, removalEdges1, intersections1, lastIntersection1,
                      g2, newEdges2, removalEdges2, intersections2, lastIntersection2)
    ensures Advances(Merge(s1, s2), g, newEdges, removalEdges, intersections, lastIntersection,
                     g2, newEdges2, removalEdges2, intersections2, lastIntersection2)
  {
    assert s2.hits - g1.nodes == s2.hits - (g.nodes + s1.hits);
    assert (s1.hits + s2.hits) - g.nodes == (s1.hits - g.nodes) + (s2.hits - g1.nodes);
  }

  /** The inner loop of create_graph: the pairs (i, j) for i < j, in order. */
  method ScanRow(original: seq<Edge>, i: int, meet: (Edge, Edge) -> Option<Point>,
                 g: Graph, newEdges: set<Edge>, removalEdges: set<Edge>,
                 intersections: set<Point>, lastIntersection: int)
    returns (g': Graph, newEdges': set<Edge>, removalEdges': set<Edge>,
             intersections': set<Point>, lastIntersection': int)
    requires 0 <= i < |original|
    ensures Advances(RowSchedule(original, meet, i, |original|),
                     g, newEdges, removalEdges, intersections, lastIntersection,
                     g', newEdges', removalEdges', intersections', lastIntersection')
  {
    g', newEdges', removalEdges', intersections', lastIntersection' :=
      g, newEdges, removalEdges, intersections, lastIntersection;
    for j := i + 1 to |original|
      invariant Advances(RowSchedule(original, meet, i, j),
                         g, newEdges, removalEdges, intersections, lastIntersection,
                         g', newEdges', removalEdges', intersections', lastIntersection')
    {
      var g1, n1, r1, s1, l1 := g', newEdges', removalEdges', intersections', lastIntersection';
      g', newEdges', removalEdges', intersections', lastIntersection' :=
        ScanPair(original, i, j, meet, g', newEdges', removalEdges', intersections', lastIntersection');
      AdvancesTwice(RowSchedule(original, meet, i, j), PairSchedule(original, meet, i, j),
                    g, newEdges, removalEdges, intersections, lastIntersection,
                    g1, n1, r1, s1, l1, g', newEdges', removalEdges', intersections', lastIntersection');
    }
  }

  /** The nested loops of create_graph over all pairs i < j. */
  method ScanPairs(original: seq<Edge>, meet: (Edge, Edge) -> Option<Point>, g: Graph,
                   intersections: set<Point>, lastIntersection: int)
    returns (g': Graph, newEdges: set<Edge>, removalEdges: set<Edge>,
             intersections': set<Point>, lastIntersection': int)
    ensures Advances(PassSchedule(original, meet), g, {}, {}, intersections, lastIntersection,
                     g', newEdges, removalEdges, intersections', lastIntersection')
  {
    g', newEdges, removalEdges := g, {}, {};
    intersections', lastIntersection' := intersections, lastIntersection;
    for i := 0 to |original|
      invariant Advances(ScanSchedule(original, meet, i), g, {}, {}, intersections, lastIntersection,
                         g', newEdges, removalEdges, intersections', lastIntersection')
    {
      var g1, n1, r1, s1, l1 := g', newEdges, removalEdges, intersections', lastIntersection';
      g', newEdges, removalEdges, intersections', lastIntersection' :=
        ScanRow(original, i, meet, g', newEdges, removalEdges, intersections', lastIntersection');
      AdvancesTwice(ScanSchedule(original, meet, i), RowSchedule(original, meet, i, |original|),
                    g, {}, {}, intersections, lastIntersection,
                    g1, n1, r1, s1, l1, g', newEdges, removalEdges, intersections', lastIntersection');
    }
  }

  /** Each scheduled sub-edge joins an intersection point to an endpoint of
      a scanned edge that is scheduled for removal, the point not being an
      endpoint of that edge. */
  lemma SplitsEndpoints(es: seq<Edge>, meet: (Edge, Edge) -> Option<Point>, t: Edge)
    requires t in PassSchedule(es, meet).splits
    ensures t.p in PassSchedule(es, meet).hits
    ensures exists e | e in es ::
              && e in PassSchedule(es, meet).cuts
              && (t.q == e.p || t.q == e.q) && t.p != e.p && t.p != e.q
  {
    ScanFromPair(es, meet, |es|, t.p, t);
    var a, b :| 0 <= a < b < |es| && t in PairSchedule(es, meet, a, b).splits;
    ScanHasPair(es, meet, |es|, a, b);
    var p := meet(es[a], es[b]).value;
    if t in SubEdges(p, es[a]) {
      assert es[a] in es && es[a] in Cut(p, es[a]);
    } else {
      assert es[b] in es && es[b] in Cut(p, es[b]);
    }
  }

  /** make_graph.py, create_graph: one refinement pass over the input edges,
      with the intersection test as the parameter meet. */
  method CreateGraph(edges: seq<Edge>, intersections: set<Point>, lastIntersection: int,
                     meet: (Edge, Edge) -> Option<Point>)
    returns (g: Graph, intersections': set<Point>, lastIntersection': int)
    ensures Valid(g)
    ensures g.nodes == Endpoints(edges) + Pass(edges, meet).hits
    ensures g.edges == (AsSet(OriginalEdges(edges)) + CanonAll(Pass(edges, meet).splits)) - Pass(edges, meet).cuts
    ensures intersections <= intersections'
    ensures intersections' == intersections + NewPoints(edges, meet)
    ensures lastIntersection' == if NewPoints(edges, meet) != {} then 3 else lastIntersection
  {
    var original;
    g, original := AddInputEdges(edges);
    OriginalEdgesShape(edges);
    var newEdges, removalEdges;
    g, newEdges, removalEdges, intersections', lastIntersection' :=
      ScanPairs(original, meet, g, intersections, lastIntersection);
    forall t | t in newEdges ensures t.p in g.nodes && t.q in g.nodes {
      SplitsEndpoints(original, meet, t);
    }
    g := AddEdges(g, newEdges);
    forall t | t in removalEdges ensures t in AsSet(original) {
      ScanFromPair(original, meet, |original|, t.p, t);
    }
    g := RemoveEdges(g, removalEdges);
  }

  /** The pair (a, b) of es changes nothing: either the edges do not meet,
      or they meet at a point that is an endpoint of both. */
  predicate PairQuiet(es: seq<Edge>, meet: (Edge, Edge) -> Option<Point>, a: int, b: int)
    requires 0 <= a < |es| && 0 <= b < |es|
  {
    match meet(es[a], es[b])
    case None => true
    case Some(p) => (p == es[a].p || p == es[a].q) && (p == es[b].p || p == es[b].q)
  }

  predicate Quiet(es: seq<Edge>, meet: (Edge, Edge) -> Option<Point>)
  {
    forall a, b | 0 <= a < b < |es| :: PairQuiet(es, meet, a, b)
  }

  /** A point is found by the pass exactly when some pair a < b meets there. */
  lemma HitsExactly(es: seq<Edge>, meet: (Edge, Edge) -> Option<Point>, x: Point)
    ensures x in PassSchedule(es, meet).hits <==>
              exists a, b :: 0 <= a < b < |es| && meet(es[a], es[b]) == Some(x)
  {
    ScanFromPair(es, meet, |es|, x, Edge(x, x));
    if exists a, b :: 0 <= a < b < |es| && meet(es[a], es[b]) == Some(x) {
      var a, b :| 0 <= a < b < |es| && meet(es[a], es[b]) == Some(x);
      ScanHasPair(es, meet, |es|, a, b);
      assert x in PairSchedule(es, meet, a, b).hits;
    }
  }

  /** An edge is removed exactly when it is one of a pair a < b that meets
      at a point other than the edge's endpoints. */
  lemma CutsExactly(es: seq<Edge>, meet: (Edge, Edge) -> Option<Point>, t: Edge)
    ensures t in PassSchedule(es, meet).cuts <==>
              exists a, b :: 0 <= a < b < |es| && meet(es[a], es[b]).Some? &&
                var p := meet(es[a], es[b]).value;
                (t == es[a] && p != t.p && p != t.q) || (t == es[b] && p != t.p && p != t.q)
  {
    ScanFromPair(es, meet, |es|, t.p, t);
    if exists a, b :: 0 <= a < b < |es| && meet(es[a], es[b]).Some? &&
         var p := meet(es[a], es[b]).value;
         (t == es[a] && p != t.p && p != t.q) || (t == es[b] && p != t.p && p != t.q) {
      var a, b :| 0 <= a < b < |es| && meet(es[a], es[b]).Some? &&
         var p := meet(es[a], es[b]).value;
         (t == es[a] && p != t.p && p != t.q) || (t == es[b] && p != t.p && p != t.q);
      ScanHasPair(es, meet, |es|, a, b);
      assert t in PairSchedule(es, meet, a, b).cuts;
    }
    if t in PassSchedule(es, meet).cuts {
      var a, b :| 0 <= a < b < |es| && t in PairSchedule(es, meet, a, b).cuts;
      assert meet(es[a], es[b]).Some?;
    }
  }

  /** The pass schedules no sub-edge exactly when it is quiet, and then it
      removes nothing either. */
  lemma QuietExactly(es: seq<Edge>, meet: (Edge, Edge) -> Option<Point>)
    ensures PassSchedule(es, meet).splits == {} <==> Quiet(es, meet)
    ensures PassSchedule(es, meet).cuts == {} <==> Quiet(es, meet)
  {
    if !Quiet(es, meet) {
      var a, b :| 0 <= a < b < |es| && !PairQuiet(es, meet, a, b);
      ScanHasPair(es, meet, |es|, a, b);
      var p := meet(es[a], es[b]).value;
      if p != es[a].p && p != es[a].q {
        assert Edge(p, es[a].p) in PairSchedule(es, meet, a, b).splits;
        assert es[a] in PairSchedule(es, meet, a, b).cuts;
      } else {
        assert Edge(p, es[b].p) in PairSchedule(es, meet, a, b).splits;
        assert es[b] in PairSchedule(es, meet, a, b).cuts;
      }
    } else {
      forall a, b | 0 <= a < b < |es|
        ensures PairSchedule(es, meet, a, b).splits == {} && PairSchedule(es, meet, a, b).cuts == {}
      {
        assert PairQuiet(es, meet, a, b);
      }
      forall t: Edge ensures t !in PassSchedule(es, meet).splits && t !in PassSchedule(es, meet).cuts {
        ScanFromPair(es, meet, |es|, t.p, t);
      }
    }
  }

  /** A point that was not a node before the pass lies strictly inside both
      edges of a pair that meets there: both are removed and all four
      sub-edges are added. */
  lemma NewPointSplitsBoth(edges: seq<Edge>, meet: (Edge, Edge) -> Option<Point>, x: Point)
    requires x in NewPoints(edges, meet)
    ensures exists a, b :: 0 <= a < b < |OriginalEdges(edges)| &&
              var ea, eb := OriginalEdges(edges)[a], OriginalEdges(edges)[b];
              && meet(ea, eb) == Some(x)
              && ea in Pass(edges, meet).cuts && eb in Pass(edges, meet).cuts
              && {Edge(x, ea.p), Edge(x, ea.q), Edge(x, eb.p), Edge(x, eb.q)} <= Pass(edges, meet).splits
  {
    var es := OriginalEdges(edges);
    OriginalEdgesShape(edges);
    HitsExactly(es, meet, x);
    var a, b :| 0 <= a < b < |es| && meet(es[a], es[b]) == Some(x);
    assert es[a] in es && es[b] in es;
    ScanHasPair(es, meet, |es|, a, b);
    assert es[a] in PairSchedule(es, meet, a, b).cuts && es[b] in PairSchedule(es, meet, a, b).cuts;
  }

  /** A quiet pass leaves the graph as the input edges built it: no new
      node, no new edge, nothing removed, and the flag unchanged. */
  lemma QuietPassKeepsGraph(edges: seq<Edge>, meet: (Edge, Edge) -> Option<Point>)
    requires Quiet(OriginalEdges(edges), meet)
    ensures NewPoints(edges, meet) == {}
    ensures Endpoints(edges) + Pass(edges, meet).hits == Endpoints(edges)
    ensures (AsSet(OriginalEdges(edges)) + CanonAll(Pass(edges, meet).splits)) - Pass(edges, meet).cuts
            == CanonAll(AsSet(edges))
  {
    var es := OriginalEdges(edges);
    QuietExactly(es, meet);
    OriginalEdgesShape(edges);
    forall x | x in Pass(edges, meet).hits ensures x in Endpoints(edges) {
      HitsExactly(es, meet, x);
      var a, b :| 0 <= a < b < |es| && meet(es[a], es[b]) == Some(x);
      assert PairQuiet(es, meet, a, b);
      assert es[a] in es;
    }
  }

  /** With the geometric test of make_graph.py, every point the pass finds
      lies on two scanned segments. */
  lemma HitsOnSegments(edges: seq<Edge>, x: Point)
    requires x in Pass(edges, EdgeIntersect).hits
    ensures exists a, b :: 0 <= a < b < |OriginalEdges(edges)| &&
              OnSegment(x, OriginalEdges(edges)[a]) && OnSegment(x, OriginalEdges(edges)[b])
  {
    HitsExactly(OriginalEdges(edges), EdgeIntersect, x);
  }
}
