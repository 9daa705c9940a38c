/** The geometry kernel: exact line–line intersection of two segments with a
    bounding-box test (make_graph.py, edge_intersect). Coordinates are exact
    reals; the source's rounding to six digits is not modelled. */
module Geometry {

  datatype Option<T> = None | Some(value: T)

  datatype Point = Point(x: real, y: real)

  /** An edge as the source holds it: an ordered pair of endpoints. */
  datatype Edge = Edge(p: Point, q: Point)

  function Min(a: real, b: real): real { if a <= b then a else b }
  function Max(a: real, b: real): real { if a <= b then b else a }

  /** The same edge traversed from its other end. */
  function Reversed(e: Edge): Edge { Edge(e.q, e.p) }

  /** The determinant of the 2x2 system; zero exactly when the two lines are
      parallel or coincide. */
  function Denominator(e1: Edge, e2: Edge): real
  {
    (e1.p.x - e1.q.x) * (e2.p.y - e2.q.y) - (e1.p.y - e1.q.y) * (e2.p.x - e2.q.x)
  }

  /** r lies on the (infinite) line through the endpoints of e. */
  predicate OnLine(r: Point, e: Edge)
  {
    (r.x - e.p.x) * (e.q.y - e.p.y) == (r.y - e.p.y) * (e.q.x - e.p.x)
  }

  /** r lies in the closed axis-parallel bounding box of e. */
  predicate InBox(r: Point, e: Edge)
  {
    Min(e.p.x, e.q.x) <= r.x <= Max(e.p.x, e.q.x) &&
    Min(e.p.y, e.q.y) <= r.y <= Max(e.p.y, e.q.y)
  }

  /** r lies on the closed segment e. */
  predicate OnSegment(r: Point, e: Edge)
  {
    OnLine(r, e) && InBox(r, e)
  }

  /** The candidate point: the intersection of the two lines, by the
      determinant formula of the source. */
  function Crossing(e1: Edge, e2: Edge): (r: Point)
    requires Denominator(e1, e2) != 0.0
    ensures OnLine(r, e1) && OnLine(r, e2)
  {
    var x1, y1, x2, y2 := e1.p.x, e1.p.y, e1.q.x, e1.q.y;
    var x3, y3, x4, y4 := e2.p.x, e2.p.y, e2.q.x, e2.q.y;
    var denom := Denominator(e1, e2);
    var r := Point(((x1 * y2 - y1 * x2) * (x3 - x4) - (x1 - x2) * (x3 * y4 - y3 * x4)) / denom,
                   ((x1 * y2 - y1 * x2) * (y3 - y4) - (y1 - y2) * (x3 * y4 - y3 * x4)) / denom);
    CrossingOnLines(e1, e2, r);
    r
  }

  /** The determinant formula yields a point on both lines: written as
      p1 + t * (p1 - p2) and as p3 + s * (p3 - p4). */
  lemma CrossingOnLines(e1: Edge, e2: Edge, r: Point)
    requires Denominator(e1, e2) != 0.0
    requires r.x == ((e1.p.x * e1.q.y - e1.p.y * e1.q.x) * (e2.p.x - e2.q.x)
                     - (e1.p.x - e1.q.x) * (e2.p.x * e2.q.y - e2.p.y * e2.q.x)) / Denominator(e1, e2)
    requires r.y == ((e1.p.x * e1.q.y - e1.p.y * e1.q.x) * (e2.p.y - e2.q.y)
                     - (e1.p.y - e1.q.y) * (e2.p.x * e2.q.y - e2.p.y * e2.q.x)) / Denominator(e1, e2)
    ensures OnLine(r, e1) && OnLine(r, e2)
  {
    var x1, y1, x2, y2 := e1.p.x, e1.p.y, e1.q.x, e1.q.y;
    var x3, y3, x4, y4 := e2.p.x, e2.p.y, e2.q.x, e2.q.y;
    var den := Denominator(e1, e2);
    var d1, d2 := x1 * y2 - y1 * x2, x3 * y4 - y3 * x4;
    var nx := d1 * (x3 - x4) - (x1 - x2) * d2;
    var ny := d1 * (y3 - y4) - (y1 - y2) * d2;
    assert r.x == nx / den && r.y == ny / den;
    var k := y1 * (x3 - x4) - x1 * (y3 - y4) - d2;
    var l := d1 + x3 * (y1 - y2) - y3 * (x1 - x2);
    assert nx == x1 * den + (x1 - x2) * k by { NumeratorX(x1, y1, x2, y2, x3, y3, x4, y4); }
    assert ny == y1 * den + (y1 - y2) * k by { NumeratorY(x1, y1, x2, y2, x3, y3, x4, y4); }
    assert nx == x3 * den + (x3 - x4) * l by { NumeratorX2(x1, y1, x2, y2, x3, y3, x4, y4); }
    assert ny == y3 * den + (y3 - y4) * l by { NumeratorY2(x1, y1, x2, y2, x3, y3, x4, y4); }
    OnLineByParameter(r, e1, nx, ny, den, k);
    OnLineByParameter(r, e2, nx, ny, den, l);
  }

  /** The x numerator, regrouped around the third endpoint. */
  lemma NumeratorX2(x1: real, y1: real, x2: real, y2: real, x3: real, y3: real, x4: real, y4: real)
    ensures (x1 * y2 - y1 * x2) * (x3 - x4) - (x1 - x2) * (x3 * y4 - y3 * x4)
         == x3 * ((x1 - x2) * (y3 - y4) - (y1 - y2) * (x3 - x4))
            + (x3 - x4) * ((x1 * y2 - y1 * x2) + x3 * (y1 - y2) - y3 * (x1 - x2))
  {
  }

  /** The y numerator, regrouped around the third endpoint. */
  lemma NumeratorY2(x1: real, y1: real, x2: real, y2: real, x3: real, y3: real, x4: real, y4: real)
    ensures (x1 * y2 - y1 * x2) * (y3 - y4) - (y1 - y2) * (x3 * y4 - y3 * x4)
         == y3 * ((x1 - x2) * (y3 - y4) - (y1 - y2) * (x3 - x4))
            + (y3 - y4) * ((x1 * y2 - y1 * x2) + x3 * (y1 - y2) - y3 * (x1 - x2))
  {
  }

  /** The x numerator, regrouped around the first endpoint. */
  lemma NumeratorX(x1: real, y1: real, x2: real, y2: real, x3: real, y3: real, x4: real, y4: real)
    ensures (x1 * y2 - y1 * x2) * (x3 - x4) - (x1 - x2) * (x3 * y4 - y3 * x4)
         == x1 * ((x1 - x2) * (y3 - y4) - (y1 - y2) * (x3 - x4))
            + (x1 - x2) * (y1 * (x3 - x4) - x1 * (y3 - y4) - (x3 * y4 - y3 * x4))
  {
  }

  /** The y numerator, regrouped around the first endpoint. */
  lemma NumeratorY(x1: real, y1: real, x2: real, y2: real, x3: real, y3: real, x4: real, y4: real)
    ensures (x1 * y2 - y1 * x2) * (y3 - y4) - (y1 - y2) * (x3 * y4 - y3 * x4)
         == y1 * ((x1 - x2) * (y3 - y4) - (y1 - y2) * (x3 - x4))
            + (y1 - y2) * (y1 * (x3 - x4) - x1 * (y3 - y4) - (x3 * y4 - y3 * x4))
  {
  }

  /** Dividing numerators of the form p * den + (p - q) * k by den gives a
      point p + t * (p - q) of the line. */
  lemma OnLineByParameter(r: Point, e: Edge, nx: real, ny: real, den: real, k: real)
    requires den != 0.0 && r.x == nx / den && r.y == ny / den
    requires nx == e.p.x * den + (e.p.x - e.q.x) * k
    requires ny == e.p.y * den + (e.p.y - e.q.y) * k
    ensures OnLine(r, e)
  {
    DivideSum(nx, e.p.x, e.p.x - e.q.x, k, den);
    DivideSum(ny, e.p.y, e.p.y - e.q.y, k, den);
    PointOnLine(r, e, k / den);
  }

  /** A point p + t * (p - q) lies on the line through p and q. */
  lemma PointOnLine(r: Point, e: Edge, t: real)
    requires r.x - e.p.x == (e.p.x - e.q.x) * t && r.y - e.p.y == (e.p.y - e.q.y) * t
    ensures OnLine(r, e)
  {
    assert (r.x - e.p.x) * (e.q.y - e.p.y) == -t * (e.p.x - e.q.x) * (e.p.y - e.q.y);
  }

  lemma DivideSum(n: real, a: real, b: real, k: real, den: real)
    requires den != 0.0
    requires n == a * den + b * k
    ensures n / den - a == b * (k / den)
  {
  }

  /** Two lines that are not parallel meet in at most one point. */
  lemma {:induction false} LinesMeetOnce(e1: Edge, e2: Edge, u: Point, v: Point)
    requires Denominator(e1, e2) != 0.0
    requires OnLine(u, e1) && OnLine(u, e2) && OnLine(v, e1) && OnLine(v, e2)
    ensures u == v
  {
    var dx, dy := u.x - v.x, u.y - v.y;
    var a, b := e1.q.y - e1.p.y, e1.q.x - e1.p.x;
    var c, d := e2.q.y - e2.p.y, e2.q.x - e2.p.x;
    assert dx * a == dy * b;
    assert dx * c == dy * d;
    assert Denominator(e1, e2) == b * c - a * d;
    assert dx * (b * c - a * d) == b * (dx * c) - d * (dx * a);
    assert dy * (b * c - a * d) == c * (dy * b) - a * (dy * d);
    ProductZero(dx, b * c - a * d);
    ProductZero(dy, b * c - a * d);
  }

  lemma ProductZero(u: real, w: real)
    requires w != 0.0 && u * w == 0.0
    ensures u == 0.0
  {
  }

  /** make_graph.py, edge_intersect: the common point of two segments, if the
      lines are not parallel and the crossing of the lines lies in both
      bounding boxes. */
  function EdgeIntersect(e1: Edge, e2: Edge): (r: Option<Point>)
    ensures Denominator(e1, e2) == 0.0 ==> r == None
    ensures r.Some? ==> OnSegment(r.value, e1) && OnSegment(r.value, e2)
  {
    var denom := Denominator(e1, e2);
    if denom == 0.0 then None
    else
      var c := Crossing(e1, e2);
      if InBox(c, e1) && InBox(c, e2) then Some(c) else None
  }

  /** Completeness: a point on both segments of a non-parallel pair is found. */
  lemma EdgeIntersectFinds(e1: Edge, e2: Edge, r: Point)
    requires Denominator(e1, e2) != 0.0
    requires OnSegment(r, e1) && OnSegment(r, e2)
    ensures EdgeIntersect(e1, e2) == Some(r)
  {
    LinesMeetOnce(e1, e2, r, Crossing(e1, e2));
  }

  /** Exchanging the two edges changes neither whether nor where they meet. */
  lemma EdgeIntersectSymmetric(e1: Edge, e2: Edge)
    ensures EdgeIntersect(e1, e2) == EdgeIntersect(e2, e1)
  {
    assert Denominator(e2, e1) == -Denominator(e1, e2);
    if Denominator(e1, e2) != 0.0 {
      LinesMeetOnce(e1, e2, Crossing(e1, e2), Crossing(e2, e1));
    }
  }

  lemma OnLineReversed(r: Point, e: Edge)
    ensures OnLine(r, Reversed(e)) <==> OnLine(r, e)
  {
    var ux, uy := r.x - e.p.x, r.y - e.p.y;
    var vx, vy := e.q.x - e.p.x, e.q.y - e.p.y;
    assert (r.x - e.q.x) * (e.p.y - e.q.y) - (r.y - e.q.y) * (e.p.x - e.q.x) == uy * vx - ux * vy;
  }

  /** Traversing the first edge the other way round changes nothing either. */
  lemma EdgeIntersectReversed(e1: Edge, e2: Edge)
    ensures EdgeIntersect(Reversed(e1), e2) == EdgeIntersect(e1, e2)
  {
    assert Denominator(Reversed(e1), e2) == -Denominator(e1, e2);
    if Denominator(e1, e2) != 0.0 {
      var c, c' := Crossing(e1, e2), Crossing(Reversed(e1), e2);
      OnLineReversed(c', e1);
      LinesMeetOnce(e1, e2, c, c');
    }
  }
}
