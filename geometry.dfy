/**
 * Exact plane geometry standing in for java.awt.geom.Point2D and Line2D:
 * points compared by exact coordinate equality, the segment intersection test
 * of Line2D (relativeCCW / linesIntersect) evaluated in exact arithmetic, and
 * polylines (a sequence of points walked in order) with their length under a
 * distance function supplied by the caller.
 */
module Geometry {

  /** A point of the plane (Point2D); two points are the same exactly when their coordinates are. */
  datatype Point = Point(x: real, y: real)

  /** A straight segment between two points (Line2D.Double): a wall, or one line of a path. */
  datatype Segment = Segment(p1: Point, p2: Point)

  /** A distance function between points, as Point2D.distance is used by the search. */
  type Distance = (Point, Point) -> real

  /** Going by way of a third point is never shorter, as with Point2D.distance. */
  ghost predicate TriangleInequality(dist: Distance)
  {
    forall p, q, r :: dist(p, r) <= dist(p, q) + dist(q, r)
  }

  function Sign(v: real): (s: int)
    ensures s < 0 <==> v < 0.0
    ensures s > 0 <==> v > 0.0
    ensures -1 <= s <= 1
  {
    if v < 0.0 then -1 else if v > 0.0 then 1 else 0
  }

  /**
   * Where p lies relative to the directed segment a->b (Line2D.relativeCCW):
   * off the line, the sign of the cross product (b - a) x (p - a) with the
   * JDK's orientation; on the line, -1 before a, 1 beyond b and 0 on the
   * closed segment itself.
   */
  function RelativeCcw(a: Point, b: Point, p: Point): (s: int)
    ensures -1 <= s <= 1
  {
    var dx, dy := b.x - a.x, b.y - a.y;
    var px, py := p.x - a.x, p.y - a.y;
    var cross := px * dy - py * dx;
    if cross != 0.0 then Sign(cross)
    else
      var along := px * dx + py * dy;
      if along <= 0.0 then Sign(along)
      else
        var beyond := (px - dx) * dx + (py - dy) * dy;
        if beyond < 0.0 then 0 else Sign(beyond)
  }

  /**
   * The closed segments s and t share a point (Line2D.linesIntersect): each
   * segment has the two endpoints of the other on different sides of it or
   * on it.
   */
  predicate LinesIntersect(s: Segment, t: Segment)
  {
    RelativeCcw(s.p1, s.p2, t.p1) * RelativeCcw(s.p1, s.p2, t.p2) <= 0 &&
    RelativeCcw(t.p1, t.p2, s.p1) * RelativeCcw(t.p1, t.p2, s.p2) <= 0
  }

  /** The endpoints of a segment lie on it. */
  lemma {:induction false} EndpointsOnSegment(a: Point, b: Point)
    ensures RelativeCcw(a, b, a) == 0
    ensures RelativeCcw(a, b, b) == 0
  {
    var dx, dy := b.x - a.x, b.y - a.y;
    assert dx * dy - dy * dx == 0.0;
    assert dx * dx + dy * dy >= 0.0 by {
      assert dx * dx >= 0.0 && dy * dy >= 0.0;
    }
  }

  /**
   * Two segments that share an endpoint intersect: the reason the visibility
   * test must exempt a wall whose own endpoint is where a path segment starts
   * or ends.
   */
  lemma {:induction false} SharedEndpointIntersects(s: Segment, t: Segment)
    requires s.p1 == t.p1 || s.p1 == t.p2 || s.p2 == t.p1 || s.p2 == t.p2
    ensures LinesIntersect(s, t)
  {
    EndpointsOnSegment(s.p1, s.p2);
    EndpointsOnSegment(t.p1, t.p2);
  }

  /** The length of the polyline through pts under dist: the sum over its consecutive pairs. */
  function PolylineLength(pts: seq<Point>, dist: Distance): real
    decreases |pts|
  {
    if |pts| < 2 then 0.0
    else PolylineLength(pts[..|pts| - 1], dist) + dist(pts[|pts| - 2], pts[|pts| - 1])
  }

  /** The segments of the polyline through pts, in walking order. */
  function Segments(pts: seq<Point>): (segs: seq<Segment>)
    ensures |segs| == if |pts| < 2 then 0 else |pts| - 1
    ensures forall i :: 0 <= i < |segs| ==> segs[i] == Segment(pts[i], pts[i + 1])
  {
    if |pts| < 2 then [] else [Segment(pts[0], pts[1])] + Segments(pts[1..])
  }
  /** The segments of a polyline run from its first point to its last, each starting where the previous one ends. */
  lemma {:induction false} SegmentsJoined(pts: seq<Point>)
    ensures var segs := Segments(pts);
      segs != [] ==> segs[0].p1 == pts[0] && segs[|segs| - 1].p2 == pts[|pts| - 1]
    ensures var segs := Segments(pts);
      forall i :: 0 < i < |segs| ==> segs[i - 1].p2 == segs[i].p1
  {
    var segs := Segments(pts);
    forall i | 0 < i < |segs|
      ensures segs[i - 1].p2 == segs[i].p1
    {
      assert segs[i - 1] == Segment(pts[i - 1], pts[i]) && segs[i] == Segment(pts[i], pts[i + 1]);
    }
  }

  lemma {:induction false} ConcatAssoc<T>(a: seq<T>, b: seq<T>, c: seq<T>)
    ensures (a + b) + c == a + (b + c)
  {
  }

  /** A single move is a single line. */
  lemma {:induction false} SegmentsOfMove(p: Point, q: Point)
    ensures Segments([p, q]) == [Segment(p, q)]
  {
    assert [p, q][1..] == [q];
  }

  /** Putting a point in front of a polyline puts its first segment in front of the others. */
  lemma {:induction false} SegmentsCons(p: Point, q: Point, rest: seq<Point>)
    ensures Segments([p] + ([q] + rest)) == [Segment(p, q)] + Segments([q] + rest)
  {
    assert ([p] + ([q] + rest))[1..] == [q] + rest;
  }

  /** Walking a segment the other way round mirrors every point's side of it. */
  lemma {:induction false} RelativeCcwReversed(a: Point, b: Point, p: Point)
    ensures RelativeCcw(b, a, p) == -RelativeCcw(a, b, p)
  {
    var dx, dy := b.x - a.x, b.y - a.y;
    var px, py := p.x - a.x, p.y - a.y;
    var qx, qy := p.x - b.x, p.y - b.y;
    assert qx == px - dx && qy == py - dy;
    var cross := px * dy - py * dx;
    var cross' := qx * (-dy) - qy * (-dx);
    assert cross' == -cross by {
      calc {
        cross';
        == (px - dx) * (-dy) - (py - dy) * (-dx);
        == -(px * dy) + dx * dy + py * dx - dy * dx;
        == -cross;
      }
    }
    var along := px * dx + py * dy;
    var beyond := (px - dx) * dx + (py - dy) * dy;
    var along' := qx * (-dx) + qy * (-dy);
    var beyond' := (qx + dx) * (-dx) + (qy + dy) * (-dy);
    assert along' == -beyond;
    assert beyond' == -along;
    assert beyond == along - (dx * dx + dy * dy);
    assert dx * dx + dy * dy >= 0.0 by {
      assert dx * dx >= 0.0 && dy * dy >= 0.0;
    }
  }

  /**
   * Whether two segments intersect depends neither on which of the two is
   * asked nor on the order in which either stores its endpoints.
   */
  lemma {:induction false} IntersectionIgnoresOrientation(s: Segment, t: Segment)
    ensures LinesIntersect(s, t) == LinesIntersect(t, s)
    ensures LinesIntersect(Segment(s.p2, s.p1), t) == LinesIntersect(s, t)
    ensures LinesIntersect(s, Segment(t.p2, t.p1)) == LinesIntersect(s, t)
  {
    RelativeCcwReversed(s.p1, s.p2, t.p1);
    RelativeCcwReversed(s.p1, s.p2, t.p2);
    RelativeCcwReversed(t.p1, t.p2, s.p1);
    RelativeCcwReversed(t.p1, t.p2, s.p2);
  }

  /** Under a non-negative distance, a polyline is never shorter than any of its prefixes. */
  lemma {:induction false} PrefixNoLonger(pts: seq<Point>, k: nat, dist: Distance)
    requires forall p, q :: dist(p, q) >= 0.0
    requires 1 <= k <= |pts|
    ensures PolylineLength(pts[..k], dist) <= PolylineLength(pts, dist)
    decreases |pts| - k
  {
    if k < |pts| {
      PrefixNoLonger(pts, k + 1, dist);
      assert pts[..k + 1][..k] == pts[..k];
    } else {
      assert pts[..k] == pts;
    }
  }

  /**
   * Under a distance that obeys the triangle inequality, no polyline is
   * shorter than the straight line between its ends.
   */
  lemma {:induction false} PolylineNoShorterThanLine(pts: seq<Point>, dist: Distance)
    requires TriangleInequality(dist)
    requires |pts| >= 2
    ensures PolylineLength(pts, dist) >= dist(pts[0], pts[|pts| - 1])
    decreases |pts|
  {
    if |pts| > 2 {
      var init := pts[..|pts| - 1];
      PolylineNoShorterThanLine(init, dist);
      assert dist(pts[0], pts[|pts| - 1]) <= dist(pts[0], pts[|pts| - 2]) + dist(pts[|pts| - 2], pts[|pts| - 1]);
    } else {
      assert pts[..1] == [pts[0]];
    }
  }
}
