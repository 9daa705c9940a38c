/** The driver (main.py, perimeter_product): refinement passes until the
    flag last_intersection runs down to 0, then the unique cycles of the
    final graph and the product of their perimeters. */
module Pipeline {
  import opened Geometry
  import opened MakeGraph
  import opened PerimeterCycles

  // ---------------------------------------------------------------------
  // The flag last_intersection
  // ---------------------------------------------------------------------

  /** last_intersection after the passes whose discoveries are listed in
      trace: it starts at 1, a pass that finds a new node sets it to 3,
      and every pass ends by decrementing it. */
  function Counter(trace: seq<bool>): int
  {
    if trace == [] then 1
    else (if trace[|trace| - 1] then 3 else Counter(trace[..|trace| - 1])) - 1
  }

  /** The loop went on after each pass of trace but the last. */
  predicate Running(trace: seq<bool>)
  {
    forall k | 0 <= k < |trace| :: Counter(trace[..k]) != 0
  }

  lemma RunningPrefix(trace: seq<bool>, k: int)
    requires Running(trace) && 0 <= k <= |trace|
    ensures Running(trace[..k])
  {
    forall m | 0 <= m < k ensures Counter(trace[..k][..m]) != 0 {
      assert trace[..k][..m] == trace[..m];
    }
  }

  /** At the head of the loop the flag is 0, 1 or 2. */
  lemma {:induction false} CounterRange(trace: seq<bool>)
    requires Running(trace)
    ensures 0 <= Counter(trace) <= 2
    ensures Counter(trace) == 2 <==> trace != [] && trace[|trace| - 1]
  {
    if trace != [] {
      var prev := trace[..|trace| - 1];
      RunningPrefix(trace, |trace| - 1);
      CounterRange(prev);
    }
  }

  /** The loop stops after a pass exactly when that pass is the only one and
      found nothing, or when it is the second quiet pass after a discovery. */
  lemma ExitExactly(trace: seq<bool>)
    requires Running(trace) && trace != []
    ensures Counter(trace) == 0 <==>
              || (|trace| == 1 && !trace[0])
              || (|trace| >= 3 && trace[|trace| - 3] && !trace[|trace| - 2] && !trace[|trace| - 1])
  {
    var n := |trace|;
    var prev := trace[..n - 1];
    RunningPrefix(trace, n - 1);
    CounterRange(prev);
    if n >= 2 {
      var prev2 := trace[..n - 2];
      assert prev[..n - 2] == prev2;
      RunningPrefix(trace, n - 2);
      CounterRange(prev2);
      assert prev[n - 2] == trace[n - 2];
      if n >= 3 {
        assert prev2[n - 3] == trace[n - 3];
      } else {
        assert prev2 == [];
      }
    }
  }

  /** If the first pass finds no new node, it is the only pass. */
  lemma QuietFirstPass(trace: seq<bool>)
    requires Running(trace) && Counter(trace) == 0
    requires trace != [] && !trace[0]
    ensures |trace| == 1
  {
    assert |trace| > 1 ==> Counter(trace[..1]) == 0;
  }

  /** A pass that finds a new node is followed by at least two more. */
  lemma TwoMorePasses(trace: seq<bool>, k: int)
    requires Running(trace) && Counter(trace) == 0
    requires 0 <= k < |trace| && trace[k]
    ensures |trace| >= k + 3
  {
    var t1 := trace[..k + 1];
    assert t1[..k] == trace[..k];
    assert Counter(t1) == 2;
    assert |trace| == k + 1 ==> trace == t1;
    if |trace| >= k + 2 {
      var t2 := trace[..k + 2];
      assert t2[..k + 1] == t1;
      RunningPrefix(trace, k + 1);
      CounterRange(t1);
      assert Counter(t2) >= 1;
      assert |trace| == k + 2 ==> trace == t2;
    }
  }

  // ---------------------------------------------------------------------
  // Between two passes
  // ---------------------------------------------------------------------

  /** Line 58 of main.py: the stored form of each edge of the graph, once,
      in whatever order the set yields them. */
  method EdgeListOf(es: set<Edge>) returns (l: seq<Edge>)
    ensures Distinct(l)
    ensures forall e | e in l :: IsCanonical(e)
    ensures AsSet(l) == CanonAll(es)
  {
    var pending := CanonAll(es);
    l := [];
    while pending != {}
      invariant forall e | e in pending :: e !in l
      invariant AsSet(l) + pending == CanonAll(es)
      invariant Distinct(l)
      invariant forall e | e in l :: IsCanonical(e)
      decreases |pending|
    {
      var e :| e in pending;
      assert e in CanonAll(es);
      assert AsSet(l + [e]) == AsSet(l) + {e};
      l := l + [e];
      pending := pending - {e};
    }
  }

  /** The intersection points found over a sequence of passes. */
  function Accumulated(passes: seq<seq<Edge>>, meet: (Edge, Edge) -> Option<Point>): set<Point>
  {
    if passes == [] then {}
    else Accumulated(passes[..|passes| - 1], meet) + NewPoints(passes[|passes| - 1], meet)
  }

  /** The intersection set is never reset: what the earlier passes found is
      still there after the later ones. */
  lemma {:induction false} AccumulatedGrows(passes: seq<seq<Edge>>, meet: (Edge, Edge) -> Option<Point>, k: int)
    requires 0 <= k <= |passes|
    ensures Accumulated(passes[..k], meet) <= Accumulated(passes, meet)
  {
    if k < |passes| {
      var prev := passes[..|passes| - 1];
      assert prev[..k] == passes[..k];
      AccumulatedGrows(prev, meet, k);
    } else {
      assert passes[..k] == passes;
    }
  }

  /** What perimeter_product returns. */
  datatype Outcome = Outcome(graph: Graph, edges: seq<Edge>, intersections: set<Point>,
                             uniqueCycles: seq<Cycle>, perimeters: seq<real>, productOfPerimeters: real)

  /** An edge list as line 58 of main.py builds it: each edge once, stored canonically. */
  predicate EdgeList(l: seq<Edge>)
  {
    Distinct(l) && forall e | e in l :: IsCanonical(e)
  }

  /** The edges of the graph create_graph builds from the edge list last. */
  ghost function RefinedEdges(last: seq<Edge>, meet: (Edge, Edge) -> Option<Point>): set<Edge>
  {
    (AsSet(OriginalEdges(last)) + CanonAll(Pass(last, meet).splits)) - Pass(last, meet).cuts
  }

  /** g is the graph create_graph builds from the edge list last. */
  ghost predicate Refined(g: Graph, last: seq<Edge>, meet: (Edge, Edge) -> Option<Point>)
  {
    && Valid(g)
    && g.nodes == Endpoints(last) + Pass(last, meet).hits
    && g.edges == RefinedEdges(last, meet)
  }

  /** The passes and their discoveries are those of the loop of lines 54-60 of main.py. */
  ghost predicate Passes(edges0: seq<Edge>, meet: (Edge, Edge) -> Option<Point>,
                         trace: seq<bool>, passes: seq<seq<Edge>>)
  {
    && Running(trace) && |trace| == |passes|
    && (forall k | 0 <= k < |trace| :: trace[k] == (NewPoints(passes[k], meet) != {}))
    && (passes != [] ==> passes[0] == edges0)
    && (forall k | 0 < k < |passes| :: EdgeList(passes[k]))
    && (forall k | 0 < k < |passes| :: AsSet(passes[k]) == RefinedEdges(passes[k - 1], meet))
  }

  /** What perimeter_product returns after the passes: the last pass's
      graph and edge list, every intersection found, the unique cycles of
      the graph and their perimeters. */
  ghost predicate Delivers(o: Outcome, passes: seq<seq<Edge>>, meet: (Edge, Edge) -> Option<Point>,
                           simpleCycles: Graph -> seq<Cycle>, dist: (Point, Point) -> real)
  {
    && passes != []
    && Refined(o.graph, passes[|passes| - 1], meet)
    && EdgeList(o.edges) && AsSet(o.edges) == o.graph.edges
    && o.intersections == Accumulated(passes, meet)
    && o.uniqueCycles == Refine(SortByLength(simpleCycles(o.graph)), [])
    && |o.perimeters| == |o.uniqueCycles|
    && (forall k | 0 <= k < |o.perimeters| :: o.perimeters[k] == Perimeter(o.uniqueCycles[k], dist))
    && o.productOfPerimeters == Product(o.perimeters)
  }

  /** main.py, perimeter_product. The pass's intersection test, the cycle
      enumeration and the distance are parameters; fuel bounds the number of
      passes, and None means it ran out. passes lists the edge list each
      pass scanned and trace whether it found a new node. */
  method PerimeterProduct(edges0: seq<Edge>, fuel: nat, meet: (Edge, Edge) -> Option<Point>,
                          simpleCycles: Graph -> seq<Cycle>, dist: (Point, Point) -> real)
    returns (r: Option<Outcome>, ghost trace: seq<bool>, ghost passes: seq<seq<Edge>>)
    ensures Passes(edges0, meet, trace, passes) && |trace| <= fuel
    ensures r.None? <==> Counter(trace) != 0
    ensures r.None? ==> |trace| == fuel
    ensures r.Some? ==> Delivers(r.value, passes, meet, simpleCycles, dist)
  {
    var edges := edges0;
    var iteration := 1;
    var lastIntersection := 1;
    var intersections: set<Point> := {};
    var g := Graph({}, {});
    var fuelLeft := fuel;
    trace, passes := [], [];
    while lastIntersection != 0
      invariant lastIntersection == Counter(trace)
      invariant Passes(edges0, meet, trace, passes)
      invariant |trace| == iteration - 1
      invariant |trace| + fuelLeft == fuel
      invariant intersections == Accumulated(passes, meet)
      invariant passes == [] ==> edges == edges0
      invariant passes != [] ==> Refined(g, passes[|passes| - 1], meet) && EdgeList(edges) && AsSet(edges) == g.edges
      decreases fuelLeft
    {
      if fuelLeft == 0 {
        return None, trace, passes;
      }
      fuelLeft := fuelLeft - 1;
      ghost var found := NewPoints(edges, meet) != {};
      var intersections', lastIntersection';
      g, intersections', lastIntersection' := CreateGraph(edges, intersections, lastIntersection, meet);
      NextPass(edges0, meet, trace, passes, edges, found);
      trace, passes := trace + [found], passes + [edges];
      intersections, lastIntersection := intersections', lastIntersection';
      edges := EdgeListOf(g.edges);
      CanonicalEdgesKept(g);
      lastIntersection := lastIntersection - 1;
      iteration := iteration + 1;
    }
    var uniqueCycles := FindUniqueCycles(simpleCycles(g));
    var perimeters, productOfPerimeters := CalculatePerimeters(uniqueCycles, dist);
    r := Some(Outcome(g, edges, intersections, uniqueCycles, perimeters, productOfPerimeters));
  }

  /** One more pass keeps the record of the passes consistent. */
  lemma NextPass(edges0: seq<Edge>, meet: (Edge, Edge) -> Option<Point>,
                 trace: seq<bool>, passes: seq<seq<Edge>>, edges: seq<Edge>, found: bool)
    requires Passes(edges0, meet, trace, passes) && Counter(trace) != 0
    requires passes == [] ==> edges == edges0
    requires passes != [] ==> EdgeList(edges) && AsSet(edges) == RefinedEdges(passes[|passes| - 1], meet)
    requires found == (NewPoints(edges, meet) != {})
    ensures Passes(edges0, meet, trace + [found], passes + [edges])
    ensures Counter(trace + [found]) == (if found then 3 else Counter(trace)) - 1
    ensures Accumulated(passes + [edges], meet) == Accumulated(passes, meet) + NewPoints(edges, meet)
  {
    assert (trace + [found])[..|trace|] == trace;
    assert (passes + [edges])[..|passes|] == passes;
    forall k | 0 <= k < |trace| + 1 ensures Counter((trace + [found])[..k]) != 0 {
      if k < |trace| {
        assert (trace + [found])[..k] == trace[..k];
      }
    }
  }

  /** Every pass after the first scans the list line 58 built in its own
      order, so it works on exactly the edges the previous pass left. */
  lemma FedBackScannedAsIs(edges0: seq<Edge>, meet: (Edge, Edge) -> Option<Point>,
                           trace: seq<bool>, passes: seq<seq<Edge>>, k: int)
    requires Passes(edges0, meet, trace, passes) && 0 < k < |passes|
    ensures OriginalEdges(passes[k]) == passes[k]
    ensures AsSet(OriginalEdges(passes[k])) == RefinedEdges(passes[k - 1], meet)
  {
    CanonicalListScannedAsIs(passes[k]);
  }

  /** A graph whose edges are stored canonically is its own canonical edge set. */
  lemma CanonicalEdgesKept(g: Graph)
    requires Valid(g)
    ensures CanonAll(g.edges) == g.edges
  {
    forall e | e in g.edges ensures Canon(e) == e {
      CanonUndirected(e, e);
    }
  }

  /** An input whose edges meet only at shared endpoints is refined in one pass. */
  lemma QuietInputOnePass(edges0: seq<Edge>, meet: (Edge, Edge) -> Option<Point>,
                          trace: seq<bool>, passes: seq<seq<Edge>>)
    requires Running(trace) && Counter(trace) == 0 && |trace| == |passes|
    requires passes != [] && passes[0] == edges0
    requires trace[0] == (NewPoints(passes[0], meet) != {})
    requires Quiet(OriginalEdges(edges0), meet)
    ensures |trace| == 1
  {
    QuietPassKeepsGraph(edges0, meet);
    QuietFirstPass(trace);
  }

  /** The last pass of a run that stopped found no new node. */
  lemma LastPassQuiet(trace: seq<bool>)
    requires Running(trace) && Counter(trace) == 0 && trace != []
    ensures !trace[|trace| - 1]
  {
    ExitExactly(trace);
  }
}
