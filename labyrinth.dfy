/**
 * The labyrinth (class Labyrinth): a list of walls that no path may cross,
 * the visibility test between two points, and the generator of the steps
 * that can follow a given step. The candidate waypoints are the destination
 * and every wall endpoint.
 */
module Labyrinth {
  import opened Geometry
  import opened Steps

  /**
   * The walls, in their iteration order, and the distance the search uses as
   * edge weight (Point2D.distance).
   */
  datatype Labyrinth = Labyrinth(walls: seq<Segment>, dist: Distance)

  /** What the search needs of Point2D.distance: it is never negative. */
  ghost predicate IsDistance(dist: Distance)
  {
    forall p, q :: dist(p, q) >= 0.0
  }

  /**
   * The wall stops the straight move from -> to: it intersects the move and
   * none of its own endpoints is where the move starts or ends.
   */
  predicate Blocks(wall: Segment, from: Point, to: Point)
  {
    LinesIntersect(Segment(from, to), wall) &&
    wall.p1 != from && wall.p1 != to && wall.p2 != from && wall.p2 != to
  }

  /** No wall stops the straight move from -> to. */
  predicate Clear(from: Point, to: Point, walls: seq<Segment>)
  {
    forall w :: w in walls ==> !Blocks(w, from, to)
  }

  /** allowedPathSegment: scans the walls and answers false at the first one that blocks. */
  method AllowedPathSegment(from: Point, to: Point, walls: seq<Segment>) returns (allowed: bool)
    ensures allowed <==> forall i :: 0 <= i < |walls| ==> !Blocks(walls[i], from, to)
    ensures allowed == Clear(from, to, walls)
  {
    for i := 0 to |walls|
      invariant forall j :: 0 <= j < i ==> !Blocks(walls[j], from, to)
    {
      if Blocks(walls[i], from, to) {
        return false;
      }
    }
    return true;
  }

  /** A move may always end or start on an endpoint of the only wall it touches. */
  lemma {:induction false} EndpointMoveAllowed(from: Point, wall: Segment)
    ensures Clear(from, wall.p1, [wall]) && Clear(from, wall.p2, [wall])
    ensures Clear(wall.p1, from, [wall]) && Clear(wall.p2, from, [wall])
  {
  }

  /**
   * Visibility is symmetric, and does not depend on the order in which a wall
   * stores its endpoints.
   */
  lemma {:induction false} ClearIgnoresOrientation(a: Point, b: Point, walls: seq<Segment>, flipped: seq<Segment>)
    requires |flipped| == |walls|
    requires forall i :: 0 <= i < |walls| ==>
      flipped[i] == walls[i] || flipped[i] == Segment(walls[i].p2, walls[i].p1)
    ensures Clear(a, b, walls) == Clear(b, a, walls)
    ensures Clear(a, b, walls) == Clear(a, b, flipped)
  {
    forall w | w in walls
      ensures Blocks(w, a, b) == Blocks(w, b, a)
    {
      IntersectionIgnoresOrientation(Segment(a, b), w);
    }
    forall i | 0 <= i < |walls|
      ensures Blocks(walls[i], a, b) == Blocks(flipped[i], a, b)
    {
      IntersectionIgnoresOrientation(Segment(a, b), walls[i]);
    }
    assert Clear(a, b, walls) == Clear(a, b, flipped) by {
      if Clear(a, b, walls) {
        forall w | w in flipped ensures !Blocks(w, a, b) {
          var i :| 0 <= i < |flipped| && flipped[i] == w;
        }
      }
      if Clear(a, b, flipped) {
        forall w | w in walls ensures !Blocks(w, a, b) {
          var i :| 0 <= i < |walls| && walls[i] == w;
        }
      }
    }
  }

  /** A wall standing across the straight move blocks it: (0,0) -> (10,0) across the wall (5,-5) - (5,5). */
  lemma {:induction false} CrossingWallBlocks()
    ensures !Clear(Point(0.0, 0.0), Point(10.0, 0.0), [Segment(Point(5.0, -5.0), Point(5.0, 5.0))])
  {
    var w := Segment(Point(5.0, -5.0), Point(5.0, 5.0));
    assert RelativeCcw(Point(0.0, 0.0), Point(10.0, 0.0), w.p1) == 1;
    assert RelativeCcw(Point(0.0, 0.0), Point(10.0, 0.0), w.p2) == -1;
    assert RelativeCcw(w.p1, w.p2, Point(0.0, 0.0)) == -1;
    assert RelativeCcw(w.p1, w.p2, Point(10.0, 0.0)) == 1;
    assert Blocks(w, Point(0.0, 0.0), Point(10.0, 0.0));
  }

  /**
   * A zero-length wall lying on the move blocks it too: the intersection test
   * treats it as a point, and any point strictly between the move's ends is
   * on the move.
   */
  lemma {:induction false} ZeroLengthWallBlocks(a: Point, b: Point, t: real)
    requires 0.0 < t < 1.0 && a != b
    ensures var w := Point(a.x + t * (b.x - a.x), a.y + t * (b.y - a.y));
      !Clear(a, b, [Segment(w, w)])
  {
    var w := Point(a.x + t * (b.x - a.x), a.y + t * (b.y - a.y));
    InsideMove(a, b, t);
    assert RelativeCcw(w, w, a) == 0;
    assert Blocks(Segment(w, w), a, b);
    assert Segment(w, w) in [Segment(w, w)];
  }

  /** A point strictly between the ends of a move lies on it, and is neither of its ends. */
  lemma {:induction false} InsideMove(a: Point, b: Point, t: real)
    requires 0.0 < t < 1.0 && a != b
    ensures var w := Point(a.x + t * (b.x - a.x), a.y + t * (b.y - a.y));
      RelativeCcw(a, b, w) == 0 && w != a && w != b
  {
    var dx, dy := b.x - a.x, b.y - a.y;
    var w := Point(a.x + t * dx, a.y + t * dy);
    var px, py := w.x - a.x, w.y - a.y;
    assert px == t * dx && py == t * dy;
    SquareSumPositive(dx, dy);
    var len := dx * dx + dy * dy;
    assert px * dy - py * dx == t * (dx * dy) - t * (dy * dx);
    assert px * dx + py * dy == t * len;
    assert (px - dx) * dx + (py - dy) * dy == (t - 1.0) * len;
    SignOfProduct(t, len);
    SignOfProduct(1.0 - t, len);
    assert RelativeCcw(a, b, w) == 0;
    assert w != a by {
      if w == a {
        NonZeroFactor(t, dx);
        NonZeroFactor(t, dy);
      }
    }
    assert w != b by {
      if w == b {
        assert (t - 1.0) * dx == 0.0 && (t - 1.0) * dy == 0.0;
        NonZeroFactor(t - 1.0, dx);
        NonZeroFactor(t - 1.0, dy);
      }
    }
  }

  lemma {:induction false} SignOfProduct(x: real, y: real)
    requires x > 0.0 && y > 0.0
    ensures x * y > 0.0 && -x * y < 0.0
  {
  }

  lemma {:induction false} NonZeroFactor(x: real, y: real)
    requires x != 0.0 && x * y == 0.0
    ensures y == 0.0
  {
  }

  /** Two reals that are not both zero have a positive sum of squares. */
  lemma {:induction false} SquareSumPositive(dx: real, dy: real)
    requires dx != 0.0 || dy != 0.0
    ensures dx * dx + dy * dy > 0.0
  {
    if dx != 0.0 {
      assert dx * dx > 0.0;
    } else {
      assert dy * dy > 0.0;
    }
  }

  /** The endpoints of the walls, wall by wall in iteration order, each wall's P1 before its P2. */
  function WallEnds(walls: seq<Segment>): (ends: seq<Point>)
    ensures |ends| == 2 * |walls|
    ensures forall i :: 0 <= i < |walls| ==> ends[2 * i] == walls[i].p1 && ends[2 * i + 1] == walls[i].p2
    decreases |walls|
  {
    if walls == [] then []
    else
      var last := walls[|walls| - 1];
      WallEnds(walls[..|walls| - 1]) + [last.p1, last.p2]
  }

  /** The candidate waypoints, in the order they are tried: the destination first, then the wall endpoints. */
  function Targets(to: Point, walls: seq<Segment>): seq<Point>
  {
    [to] + WallEnds(walls)
  }

  /** One step from `from` to each target in ts that it sees, in the order of ts. */
  function StepsTo(from: Step, ts: seq<Point>, lab: Labyrinth): (ways: seq<Step>)
    ensures |ways| <= |ts|
    ensures forall s :: s in ways ==>
      s == Extend(from, s.point, lab.dist) && s.point in ts && Clear(from.point, s.point, lab.walls)
    ensures forall t :: t in ts && Clear(from.point, t, lab.walls) ==> Extend(from, t, lab.dist) in ways
    decreases |ts|
  {
    if ts == [] then []
    else
      var t := ts[|ts| - 1];
      StepsTo(from, ts[..|ts| - 1], lab) +
      (if Clear(from.point, t, lab.walls) then [Extend(from, t, lab.dist)] else [])
  }

  /** The steps that can follow `from` towards `to` (getWays). */
  function Ways(from: Step, to: Point, lab: Labyrinth): seq<Step>
  {
    StepsTo(from, Targets(to, lab.walls), lab)
  }

  /**
   * getWays: tries the destination, then each wall's P1 and P2, and keeps a
   * step to every one of them that `from` sees.
   */
  method GetWays(from: Step, to: Point, lab: Labyrinth) returns (ways: seq<Step>)
    ensures ways == Ways(from, to, lab)
  {
    ways := [];
    var allowed := AllowedPathSegment(from.point, to, lab.walls);
    if allowed {
      ways := ways + [Extend(from, to, lab.dist)];
    }
    StepsToSnoc(from, [], to, lab);
    assert [] + [to] == Targets(to, lab.walls[..0]);
    for i := 0 to |lab.walls|
      invariant ways == StepsTo(from, Targets(to, lab.walls[..i]), lab)
    {
      var wall := lab.walls[i];
      StepsToNextWall(from, to, lab, i);
      allowed := AllowedPathSegment(from.point, wall.p1, lab.walls);
      if allowed {
        ways := ways + [Extend(from, wall.p1, lab.dist)];
      }
      allowed := AllowedPathSegment(from.point, wall.p2, lab.walls);
      if allowed {
        ways := ways + [Extend(from, wall.p2, lab.dist)];
      }
    }
    assert lab.walls[..|lab.walls|] == lab.walls;
  }

  /** Taking one more wall into account adds the steps to its P1 and then to its P2, if `from` sees them. */
  lemma {:induction false} StepsToNextWall(from: Step, to: Point, lab: Labyrinth, i: nat)
    requires i < |lab.walls|
    ensures StepsTo(from, Targets(to, lab.walls[..i + 1]), lab) ==
      StepsTo(from, Targets(to, lab.walls[..i]), lab) +
      (if Clear(from.point, lab.walls[i].p1, lab.walls) then [Extend(from, lab.walls[i].p1, lab.dist)] else []) +
      (if Clear(from.point, lab.walls[i].p2, lab.walls) then [Extend(from, lab.walls[i].p2, lab.dist)] else [])
  {
    var wall := lab.walls[i];
    var done := Targets(to, lab.walls[..i]);
    assert Targets(to, lab.walls[..i + 1]) == done + [wall.p1] + [wall.p2] by {
      assert lab.walls[..i + 1][..i] == lab.walls[..i];
    }
    StepsToSnoc(from, done, wall.p1, lab);
    StepsToSnoc(from, done + [wall.p1], wall.p2, lab);
  }

  lemma {:induction false} StepsToSnoc(from: Step, ts: seq<Point>, t: Point, lab: Labyrinth)
    ensures StepsTo(from, ts + [t], lab) ==
      StepsTo(from, ts, lab) + (if Clear(from.point, t, lab.walls) then [Extend(from, t, lab.dist)] else [])
  {
    assert (ts + [t])[..|ts|] == ts;
  }

  lemma {:induction false} StepsToAppend(from: Step, a: seq<Point>, b: seq<Point>, lab: Labyrinth)
    ensures StepsTo(from, a + b, lab) == StepsTo(from, a, lab) + StepsTo(from, b, lab)
    decreases |b|
  {
    if b == [] {
      assert a + b == a;
    } else {
      var b' := b[..|b| - 1];
      assert (a + b)[..|a + b| - 1] == a + b';
      StepsToAppend(from, a, b', lab);
    }
  }

  /**
   * The steps that follow `from`: the move straight to the destination first
   * (if it is clear), then the clear moves to the wall endpoints in wall order;
   * at most one per candidate, each a move from `from` that is clear, and every
   * clear move to a candidate among them.
   */
  lemma {:induction false} WaysShape(from: Step, to: Point, lab: Labyrinth)
    ensures Ways(from, to, lab) ==
      (if Clear(from.point, to, lab.walls) then [Extend(from, to, lab.dist)] else []) +
      StepsTo(from, WallEnds(lab.walls), lab)
    ensures |Ways(from, to, lab)| <= 1 + 2 * |lab.walls|
    ensures forall s :: s in Ways(from, to, lab) <==>
      s.point in Targets(to, lab.walls) && Clear(from.point, s.point, lab.walls) &&
      s == Extend(from, s.point, lab.dist)
  {
    StepsToAppend(from, [to], WallEnds(lab.walls), lab);
    assert [to][..0] == [];
  }

  /** A step reached by the search: its chain starts at `from` and walks only clear moves between candidates. */
  ghost predicate IsWalk(pts: seq<Point>, from: Point, to: Point, lab: Labyrinth)
  {
    |pts| >= 1 && pts[0] == from &&
    forall i :: 1 <= i < |pts| ==> pts[i] in Targets(to, lab.walls) && Clear(pts[i - 1], pts[i], lab.walls)
  }

  /** A route of the visibility graph: at least one clear move, from `from` through candidates to `to`. */
  ghost predicate IsRoute(pts: seq<Point>, from: Point, to: Point, lab: Labyrinth)
  {
    |pts| >= 2 && IsWalk(pts, from, to, lab) && pts[|pts| - 1] == to
  }
}
