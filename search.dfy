/**
 * The search (Labyrinth.findPath and its callers): a FIFO label-correcting
 * relaxation over the implicit visibility graph whose vertices are the
 * origin, the destination and the wall endpoints, and the conversion of the
 * winning back-link chain into the lines of the path, in travel order.
 */
module Search {
  import opened Geometry
  import opened Steps
  import opened Labyrinth
  import opened Relaxation
  import opened SearchInvariants

  /**
   * The inner loop of findPath: offers each candidate step to the table and
   * appends to the queue each one that becomes its point's new entry.
   */
  method Relax(best: Table, queue: seq<Step>, ways: seq<Step>) returns (best': Table, queue': seq<Step>)
    ensures best' == Offer(best, ways).0 && queue' == queue + Offer(best, ways).1
  {
    best', queue' := best, queue;
    assert ways[..0] == [] && queue'[|queue|..] == [];
    assert Offer(best, []) == (best, []);
    for i := 0 to |ways|
      invariant |queue'| >= |queue| && queue'[..|queue|] == queue
      invariant (best', queue'[|queue|..]) == Offer(best, ways[..i])
    {
      var nextStep := ways[i];
      assert ways[..i + 1][..i] == ways[..i] && ways[..i + 1][i] == nextStep;
      if nextStep.point !in best' || best'[nextStep.point].pathLength > nextStep.pathLength {
        assert (queue' + [nextStep])[|queue|..] == queue'[|queue|..] + [nextStep];
        best' := best'[nextStep.point := nextStep];
        queue' := queue' + [nextStep];
      }
    }
    assert ways[..|ways|] == ways;
    assert queue' == queue'[..|queue|] + queue'[|queue|..];
  }

  /**
   * Every step that is not waiting in the queue, the root and each table
   * entry, has had its followers offered since it became what it is.
   */
  ghost predicate Covered(best: Table, queue: seq<Step>, from: Point, to: Point, lab: Labyrinth)
  {
    (Root(from) in queue || Settled(best, Root(from), to, lab)) &&
    forall k :: k in best ==> best[k] in queue || Settled(best, best[k], to, lab)
  }

  /** A round leaves covered every step that was covered, and the polled step too. */
  lemma {:induction false} CoveredAfterRound(best: Table, best': Table, here: Step, rest: seq<Step>, taken: seq<Step>,
                          from: Point, to: Point, lab: Labyrinth)
    requires Covered(best, [here] + rest, from, to, lab)
    requires Below(best', best) && Settled(best', here, to, lab)
    requires forall k :: k in best' ==> (k in best && best'[k] == best[k]) || best'[k] in taken
    ensures Covered(best', rest + taken, from, to, lab)
  {
    forall s | s == Root(from) || (exists k :: k in best && best[k] == s)
      ensures s in rest + taken || Settled(best', s, to, lab)
    {
      assert s in [here] + rest || Settled(best, s, to, lab);
      if Settled(best, s, to, lab) {
        SettledBelow(s, best, best', to, lab);
      } else if s != here {
        assert s in rest;
      }
    }
    forall k | k in best'
      ensures best'[k] in rest + taken || Settled(best', best'[k], to, lab)
    {
      if best'[k] !in taken {
        assert k in best && best'[k] == best[k];
      }
    }
  }

  lemma {:induction false} QueueStaysRecorded(queue: seq<Step>, b: Table, b': Table, from: Point, to: Point, lab: Labyrinth)
    requires Below(b', b)
    requires forall x :: x in queue ==> Tracked(x, b, from, to, lab)
    ensures forall x :: x in queue ==> Tracked(x, b', from, to, lab)
  {
    forall x | x in queue
      ensures Recorded(x, b', lab.dist)
    {
      RecordedBelow(x, b, b', lab.dist);
    }
  }

  /**
   * One turn of findPath's outer loop (poll `here`, offer its followers)
   * keeps the invariants, and either takes something, shrinking the
   * potential, or leaves the table alone with one step fewer queued.
   */
  lemma {:induction false} Round(best: Table, queue: seq<Step>, ways: seq<Step>, best': Table, taken: seq<Step>,
              from: Point, to: Point, lab: Labyrinth)
    requires IsDistance(lab.dist)
    requires TableOk(best, from, to, lab)
    requires forall s :: s in queue ==> Tracked(s, best, from, to, lab)
    requires Covered(best, queue, from, to, lab)
    requires queue != [] && ways == Ways(queue[0], to, lab)
    requires (best', taken) == Offer(best, ways)
    ensures TableOk(best', from, to, lab)
    ensures forall s :: s in queue[1..] + taken ==> Tracked(s, best', from, to, lab)
    ensures Covered(best', queue[1..] + taken, from, to, lab)
    ensures taken == [] ==> best' == best
    ensures taken != [] ==> |Potential(best', from, to, lab)| < |Potential(best, from, to, lab)|
  {
    var here, rest := queue[0], queue[1..];
    assert queue == [here] + rest;
    WaysShape(here, to, lab);
    OfferKeepsInvariants(best, here, ways, from, to, lab);
    OfferEffect(best, ways);
    QueueStaysRecorded(rest, best, best', from, to, lab);
    CoveredAfterRound(best, best', here, rest, taken, from, to, lab);
    if taken != [] {
      ShrinkingCard(Potential(best', from, to, lab), Potential(best, from, to, lab));
    }
  }

  /** Extending a table entry to the next point of a walk gives a step among that entry's followers. */
  lemma {:induction false} WalkPrefixRecorded(best: Table, from: Point, to: Point, lab: Labyrinth, route: seq<Point>, i: nat)
    requires forall k :: k in best ==> best[k].point == k && Settled(best, best[k], to, lab)
    requires Settled(best, Root(from), to, lab)
    requires IsWalk(route, from, to, lab)
    requires 1 <= i < |route|
    ensures route[i] in best && best[route[i]].pathLength <= PolylineLength(route[..i + 1], lab.dist)
    decreases i
  {
    if i > 1 {
      WalkPrefixRecorded(best, from, to, lab, route, i - 1);
    }
    var prev := if i == 1 then Root(from) else best[route[i - 1]];
    assert prev.point == route[i - 1];
    assert prev.pathLength <= PolylineLength(route[..i], lab.dist);
    var w := Extend(prev, route[i], lab.dist);
    assert w in Ways(prev, to, lab);
    assert route[..i + 1][..i] == route[..i];
  }

  /**
   * Once no step is left unsettled, the table's entry for the destination
   * exists and is no longer than any route of the visibility graph.
   */
  lemma {:induction false} SettledTableIsShortest(best: Table, from: Point, to: Point, lab: Labyrinth, route: seq<Point>)
    requires forall k :: k in best ==> best[k].point == k && Settled(best, best[k], to, lab)
    requires Settled(best, Root(from), to, lab)
    requires IsRoute(route, from, to, lab)
    ensures to in best && best[to].pathLength <= PolylineLength(route, lab.dist)
  {
    WalkPrefixRecorded(best, from, to, lab, route, |route| - 1);
    assert route[..|route|] == route;
  }

  /** The search starts with an empty table and the root alone in the queue. */
  lemma {:induction false} Start(from: Point, to: Point, lab: Labyrinth)
    ensures TableOk(map[], from, to, lab)
    ensures forall s :: s in [Root(from)] ==> Tracked(s, map[], from, to, lab)
    ensures Covered(map[], [Root(from)], from, to, lab)
  {
    assert ChainPoints(Root(from)) == [from];
  }

  /**
   * When the queue has run dry, the table's entry for the destination, if
   * any, is a shortest route, and there is none exactly when no route exists.
   */
  lemma {:induction false} Finish(best: Table, from: Point, to: Point, lab: Labyrinth)
    requires TableOk(best, from, to, lab) && Covered(best, [], from, to, lab)
    ensures to in best ==>
      best[to].point == to && best[to].back.Some? && WellFormed(best[to], lab.dist) &&
      IsRoute(ChainPoints(best[to]), from, to, lab) && Simple(ChainPoints(best[to])) &&
      best[to].pathLength == PolylineLength(ChainPoints(best[to]), lab.dist)
    ensures forall route :: IsRoute(route, from, to, lab) ==>
      to in best && best[to].pathLength <= PolylineLength(route, lab.dist)
  {
    if to in best {
      LengthIsPolylineLength(best[to], lab.dist);
    }
    forall route | IsRoute(route, from, to, lab)
      ensures to in best && best[to].pathLength <= PolylineLength(route, lab.dist)
    {
      SettledTableIsShortest(best, from, to, lab, route);
    }
  }

  /**
   * The direct move from `from` to `to` as the search builds it: the root
   * extended by one step.
   */
  function Direct(from: Point, to: Point, lab: Labyrinth): (s: Step)
    ensures s.point == to && ChainPoints(s) == [from, to]
    ensures s.pathLength == lab.dist(from, to)
  {
    Extend(Root(from), to, lab.dist)
  }

  /**
   * Before the first round, or once the direct move holds the destination's
   * entry: what findPath keeps when the straight move is clear.
   */
  ghost predicate DirectHeld(best: Table, queue: seq<Step>, from: Point, to: Point, lab: Labyrinth)
  {
    (queue == [Root(from)] && best == map[]) || (to in best && best[to] == Direct(from, to, lab))
  }

  /** Under the triangle inequality no step the search reaches ends at `to` shorter than the direct move. */
  lemma {:induction false} NothingBeatsDirect(here: Step, from: Point, to: Point, lab: Labyrinth)
    requires TriangleInequality(lab.dist) && Reached(here, from, to, lab)
    ensures Extend(here, to, lab.dist).pathLength >= Direct(from, to, lab).pathLength
  {
    var s := Extend(here, to, lab.dist);
    var chain := ChainPoints(s);
    assert chain == ChainPoints(here) + [to];
    assert chain[0] == from && chain[|chain| - 1] == to;
    LengthIsPolylineLength(s, lab.dist);
    PolylineNoShorterThanLine(chain, lab.dist);
  }

  /**
   * With the straight move clear, the destination is the first step offered
   * in the first round, into the empty table, and no later step is strictly
   * shorter: after every round the direct move holds the destination's entry.
   */
  lemma {:induction false} DirectRound(best: Table, queue: seq<Step>, ways: seq<Step>, from: Point, to: Point, lab: Labyrinth)
    requires TriangleInequality(lab.dist) && Clear(from, to, lab.walls)
    requires forall s :: s in queue ==> Tracked(s, best, from, to, lab)
    requires queue != [] && ways == Ways(queue[0], to, lab)
    requires DirectHeld(best, queue, from, to, lab)
    ensures to in Offer(best, ways).0 && Offer(best, ways).0[to] == Direct(from, to, lab)
  {
    var e := Direct(from, to, lab);
    var here := queue[0];
    assert here in queue;
    WaysShape(here, to, lab);
    forall w | w in ways && w.point == e.point
      ensures w.pathLength >= e.pathLength
    {
      NothingBeatsDirect(here, from, to, lab);
    }
    if !(to in best && best[to] == e) {
      assert here == Root(from) && best == map[];
      assert ways[0] == e;
    }
    OfferKeepsEntry(best, ways, e);
  }

  /**
   * findPath: the shortest route of the visibility graph from `from` to `to`
   * as the last step of its back-link chain, or None when there is no route.
   */
  method FindPath(from: Point, to: Point, lab: Labyrinth) returns (result: Option<Step>)
    requires IsDistance(lab.dist)
    ensures result.Some? ==>
      result.value.point == to && result.value.back.Some? && WellFormed(result.value, lab.dist) &&
      IsRoute(ChainPoints(result.value), from, to, lab) && Simple(ChainPoints(result.value)) &&
      result.value.pathLength == PolylineLength(ChainPoints(result.value), lab.dist)
    ensures result.Some? ==> forall route :: IsRoute(route, from, to, lab) ==>
      result.value.pathLength <= PolylineLength(route, lab.dist)
    ensures result.None? <==> forall route :: !IsRoute(route, from, to, lab)
    ensures Clear(from, to, lab.walls) && TriangleInequality(lab.dist) ==> result == Some(Direct(from, to, lab))
  {
    var bestPaths: Table := map[];
    var queue := [Root(from)];
    Start(from, to, lab);
    while queue != []
      invariant TableOk(bestPaths, from, to, lab)
      invariant forall s :: s in queue ==> Tracked(s, bestPaths, from, to, lab)
      invariant Covered(bestPaths, queue, from, to, lab)
      invariant Clear(from, to, lab.walls) && TriangleInequality(lab.dist) ==> DirectHeld(bestPaths, queue, from, to, lab)
      decreases |Potential(bestPaths, from, to, lab)|, |queue|
    {
      var here := queue[0];
      ghost var waiting := queue;
      queue := queue[1..];
      var ways := GetWays(here, to, lab);
      Round(bestPaths, waiting, ways, Offer(bestPaths, ways).0, Offer(bestPaths, ways).1, from, to, lab);
      if Clear(from, to, lab.walls) && TriangleInequality(lab.dist) {
        DirectRound(bestPaths, waiting, ways, from, to, lab);
      }
      bestPaths, queue := Relax(bestPaths, queue, ways);
    }
    Finish(bestPaths, from, to, lab);
    if to in bestPaths {
      result := Some(bestPaths[to]);
    } else {
      result := None;
    }
  }

  /**
   * When the straight move is clear it is a route, and under a distance with
   * the triangle inequality no route is shorter. (FindPath then answers with
   * exactly the direct step, and FindLinePath with exactly that one line.)
   */
  lemma {:induction false} ClearLineIsShortest(from: Point, to: Point, lab: Labyrinth)
    requires Clear(from, to, lab.walls)
    requires TriangleInequality(lab.dist)
    ensures IsRoute([from, to], from, to, lab)
    ensures PolylineLength([from, to], lab.dist) == lab.dist(from, to)
    ensures forall route :: IsRoute(route, from, to, lab) ==> PolylineLength(route, lab.dist) >= lab.dist(from, to)
  {
    assert [from, to][..1] == [from];
    forall route | IsRoute(route, from, to, lab)
      ensures PolylineLength(route, lab.dist) >= lab.dist(from, to)
    {
      PolylineNoShorterThanLine(route, lab.dist);
    }
  }

  /**
   * From a point to itself, the one-move route that stays put is a route
   * whenever that move is clear, and nothing is shorter: there is no route
   * without a line. (FindLinePath answers with exactly the one line from
   * the point to itself, not with an empty path.)
   */
  lemma {:induction false} StayingPutIsShortest(p: Point, lab: Labyrinth)
    requires IsDistance(lab.dist) && lab.dist(p, p) == 0.0
    requires Clear(p, p, lab.walls)
    ensures IsRoute([p, p], p, p, lab) && PolylineLength([p, p], lab.dist) == 0.0
    ensures forall route :: IsRoute(route, p, p, lab) ==> PolylineLength(route, lab.dist) >= 0.0 && |route| >= 2
  {
    assert [p, p][..1] == [p];
    forall route | IsRoute(route, p, p, lab)
      ensures PolylineLength(route, lab.dist) >= 0.0
    {
      PrefixNoLonger(route, 1, lab.dist);
    }
  }

  /**
   * A single wall across the straight line: (0,0) to (10,0) cannot go
   * straight past the wall (5,-5) - (5,5), but can go round its upper end.
   */
  lemma {:induction false} DetourAroundWall(dist: Distance)
    ensures var lab := Labyrinth([Segment(Point(5.0, -5.0), Point(5.0, 5.0))], dist);
      !IsRoute([Point(0.0, 0.0), Point(10.0, 0.0)], Point(0.0, 0.0), Point(10.0, 0.0), lab) &&
      IsRoute([Point(0.0, 0.0), Point(5.0, 5.0), Point(10.0, 0.0)], Point(0.0, 0.0), Point(10.0, 0.0), lab)
  {
    var lab := Labyrinth([Segment(Point(5.0, -5.0), Point(5.0, 5.0))], dist);
    CrossingWallBlocks();
    assert Targets(Point(10.0, 0.0), lab.walls)[2] == Point(5.0, 5.0);
  }

  /** One turn of stepToLines keeps its loop invariant. */
  lemma {:induction false} WalkBack(result: Step, step: Step, walked: seq<Point>, lines: seq<Segment>)
    requires step.back.Some?
    requires ChainPoints(result) == ChainPoints(step) + walked
    requires lines == Segments([step.point] + walked)
    ensures ChainPoints(result) == ChainPoints(step.back.value) + ([step.point] + walked)
    ensures [Segment(step.back.value.point, step.point)] + lines == Segments([step.back.value.point] + ([step.point] + walked))
    ensures |ChainPoints(step.back.value)| < |ChainPoints(step)|
  {
    var back := step.back.value;
    var chain := ChainPoints(back);
    assert ChainPoints(step) == chain + [step.point];
    ConcatAssoc(chain, [step.point], walked);
    SegmentsCons(back.point, step.point, walked);
  }

  /**
   * stepToLines: walks the back-links from `result` to the root, putting
   * each link's line in front of those collected so far, so the lines come
   * out in travel order.
   */
  method StepToLines(result: Step) returns (lines: seq<Segment>)
    ensures lines == Segments(ChainPoints(result))
    ensures |lines| == |ChainPoints(result)| - 1
    ensures forall i :: 0 <= i < |lines| ==>
      lines[i] == Segment(ChainPoints(result)[i], ChainPoints(result)[i + 1])
    ensures lines != [] ==> lines[0].p1 == Origin(result) && lines[|lines| - 1].p2 == result.point
    ensures forall i :: 0 < i < |lines| ==> lines[i - 1].p2 == lines[i].p1
  {
    lines := [];
    var step := result;
    ghost var walked: seq<Point> := [];
    while step.back.Some?
      invariant ChainPoints(result) == ChainPoints(step) + walked
      invariant lines == Segments([step.point] + walked)
      decreases |ChainPoints(step)|
    {
      var back := step.back.value;
      WalkBack(result, step, walked, lines);
      lines := [Segment(back.point, step.point)] + lines;
      walked := [step.point] + walked;
      step := back;
    }
    assert ChainPoints(step) == [step.point];
    SegmentsJoined(ChainPoints(result));
  }

  /**
   * findLinePath: the lines of a shortest route from `from` to `to`, in
   * travel order, or None when no route exists.
   */
  method FindLinePath(from: Point, to: Point, lab: Labyrinth) returns (path: Option<seq<Segment>>)
    requires IsDistance(lab.dist)
    ensures path.None? <==> forall route :: !IsRoute(route, from, to, lab)
    ensures path.Some? ==>
      exists route :: IsRoute(route, from, to, lab) && path.value == Segments(route) &&
        forall other :: IsRoute(other, from, to, lab) ==> PolylineLength(route, lab.dist) <= PolylineLength(other, lab.dist)
    ensures Clear(from, to, lab.walls) && TriangleInequality(lab.dist) ==> path == Some([Segment(from, to)])
  {
    var result := FindPath(from, to, lab);
    if result.None? {
      return None;
    } else {
      var lines := StepToLines(result.value);
      path := Some(lines);
      ShortestLines(result.value, from, to, lab);
      if Clear(from, to, lab.walls) && TriangleInequality(lab.dist) {
        SegmentsOfMove(from, to);
      }
    }
  }

  /** The lines of a shortest route found by the search are the lines of a route no longer than any other. */
  lemma {:induction false} ShortestLines(s: Step, from: Point, to: Point, lab: Labyrinth)
    requires IsRoute(ChainPoints(s), from, to, lab)
    requires s.pathLength == PolylineLength(ChainPoints(s), lab.dist)
    requires forall route :: IsRoute(route, from, to, lab) ==> s.pathLength <= PolylineLength(route, lab.dist)
    ensures exists route ::
      IsRoute(route, from, to, lab) && Segments(ChainPoints(s)) == Segments(route) &&
      forall other :: IsRoute(other, from, to, lab) ==> PolylineLength(route, lab.dist) <= PolylineLength(other, lab.dist)
  {
    var route := ChainPoints(s);
    assert IsRoute(route, from, to, lab) && Segments(ChainPoints(s)) == Segments(route);
  }
}
