/**
 * The search tree of the labyrinth search (Labyrinth.Step): immutable nodes,
 * each holding the point reached, the node it was reached from and the length
 * walked from the root. A node's back-link chain is read as the polyline of
 * points from the root to it.
 */
module Steps {
  import opened Geometry

  datatype Option<T> = None | Some(value: T)

  /** A search-tree node: `back` is None exactly for the root. */
  datatype Step = Step(back: Option<Step>, point: Point, pathLength: real)

  /** The points of the back-link chain of s, from the root to s itself. */
  function ChainPoints(s: Step): (pts: seq<Point>)
    ensures |pts| >= 1 && pts[|pts| - 1] == s.point
    ensures s.back.None? <==> |pts| == 1
    decreases s
  {
    match s.back
    case None => [s.point]
    case Some(b) => ChainPoints(b) + [s.point]
  }

  /** The point of the root at the end of the back-link chain of s. */
  function Origin(s: Step): Point
  {
    ChainPoints(s)[0]
  }

  /**
   * Every node of the chain carries the length the constructors give it: the
   * root 0, every other node its predecessor's length plus the distance
   * between their points.
   */
  ghost predicate WellFormed(s: Step, dist: Distance)
    decreases s
  {
    match s.back
    case None => s.pathLength == 0.0
    case Some(b) => WellFormed(b, dist) && s.pathLength == b.pathLength + dist(b.point, s.point)
  }

  /** new Step(point): the root of a search, standing at p. */
  function Root(p: Point): (s: Step)
    ensures ChainPoints(s) == [p]
    ensures forall dist: Distance :: WellFormed(s, dist)
  {
    Step(None, p, 0.0)
  }

  /** new Step(back, point): one more straight move, from back's point to p. */
  function Extend(back: Step, p: Point, dist: Distance): (s: Step)
    ensures s.back == Some(back) && s.point == p
    ensures ChainPoints(s) == ChainPoints(back) + [p]
    ensures Origin(s) == Origin(back)
    ensures WellFormed(back, dist) ==> WellFormed(s, dist)
  {
    Step(Some(back), p, back.pathLength + dist(back.point, p))
  }

  /** A well-formed node's length is the length of the polyline its chain walks. */
  lemma {:induction false} LengthIsPolylineLength(s: Step, dist: Distance)
    requires WellFormed(s, dist)
    ensures s.pathLength == PolylineLength(ChainPoints(s), dist)
    decreases s
  {
    match s.back
    case None =>
    case Some(b) =>
      LengthIsPolylineLength(b, dist);
      var pts := ChainPoints(s);
      assert pts[..|pts| - 1] == ChainPoints(b);
  }
}
