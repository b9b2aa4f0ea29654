/**
 * What holds of the best-path table and the queue throughout findPath, and
 * why the search stops: every step it stores walks a chain of clear moves
 * from the origin through distinct candidates, and each replacement in the
 * table removes at least one such chain from a finite set of chains that
 * could still improve it.
 */
module SearchInvariants {
  import opened Geometry
  import opened Steps
  import opened Labyrinth
  import opened Relaxation

  /** No candidate is visited twice after the root (the root's point may come back once). */
  ghost predicate Simple(pts: seq<Point>)
  {
    forall i, j :: 1 <= i < j < |pts| ==> pts[i] != pts[j]
  }

  /** A step the search may produce: well formed, walking clear moves from `from` through distinct candidates. */
  ghost predicate Reached(s: Step, from: Point, to: Point, lab: Labyrinth)
  {
    WellFormed(s, lab.dist) && IsWalk(ChainPoints(s), from, to, lab) && Simple(ChainPoints(s))
  }

  /** Every point s passed after the root has a table entry no longer than the walk up to it. */
  ghost predicate Recorded(s: Step, best: Table, dist: Distance)
  {
    var pts := ChainPoints(s);
    forall i {:trigger WalkTo(pts, i)} :: 1 <= i < |pts| ==> Within(best, WalkTo(pts, i), dist)
  }

  /** The last point of walk w has a table entry no longer than w. */
  ghost predicate Within(best: Table, w: seq<Point>, dist: Distance)
    requires w != []
  {
    w[|w| - 1] in best && best[w[|w| - 1]].pathLength <= PolylineLength(w, dist)
  }

  /** The points of a walk up to and including its i-th. */
  function WalkTo(pts: seq<Point>, i: nat): (w: seq<Point>)
    requires i < |pts|
    ensures |w| == i + 1 && w[i] == pts[i]
  {
    pts[..i + 1]
  }

  /** A step the search has produced, whose every point after the root has a table entry no longer than the walk up to it. */
  ghost predicate Tracked(s: Step, best: Table, from: Point, to: Point, lab: Labyrinth)
  {
    Reached(s, from, to, lab) && Recorded(s, best, lab.dist)
  }

  /** The table's entries are non-root steps reached by the search, each stored under its own point. */
  ghost predicate TableOk(best: Table, from: Point, to: Point, lab: Labyrinth)
  {
    forall k :: k in best ==> EntryOk(best, k, from, to, lab)
  }

  /** The entry under k is a non-root reached step stored under its own point. */
  ghost predicate EntryOk(best: Table, k: Point, from: Point, to: Point, lab: Labyrinth)
    requires k in best
  {
    best[k].point == k && best[k].back.Some? &&
    Tracked(best[k], best, from, to, lab)
  }

  /** Every step that can follow s already has a table entry at least as short. */
  ghost predicate Settled(best: Table, s: Step, to: Point, lab: Labyrinth)
  {
    forall w :: w in Ways(s, to, lab) ==> w.point in best && best[w.point].pathLength <= w.pathLength
  }

  lemma {:induction false} RecordedBelow(s: Step, b: Table, b': Table, dist: Distance)
    requires Recorded(s, b, dist) && Below(b', b)
    ensures Recorded(s, b', dist)
  {
  }

  lemma {:induction false} SettledBelow(s: Step, b: Table, b': Table, to: Point, lab: Labyrinth)
    requires Settled(b, s, to, lab) && Below(b', b)
    ensures Settled(b', s, to, lab)
  {
  }

  /**
   * A step the table takes from a reached step never revisits a candidate: a
   * repeated point would already have an entry no longer than the new step.
   */
  lemma {:induction false} TakenPointIsNew(here: Step, t: Point, best: Table, dist: Distance)
    requires forall p, q :: dist(p, q) >= 0.0
    requires WellFormed(here, dist) && Recorded(here, best, dist)
    requires Improves(best, Extend(here, t, dist))
    ensures forall i :: 1 <= i < |ChainPoints(here)| ==> ChainPoints(here)[i] != t
  {
    var pts := ChainPoints(here);
    LengthIsPolylineLength(here, dist);
    forall i | 1 <= i < |pts|
      ensures pts[i] in best && best[pts[i]].pathLength <= here.pathLength
    {
      assert PolylineLength(WalkTo(pts, i), dist) <= here.pathLength by {
        PrefixNoLonger(pts, i + 1, dist);
      }
    }
    assert dist(here.point, t) >= 0.0;
  }

  /** Once taken, a step's chain is recorded in the table that now holds it. */
  lemma {:induction false} TakenStepRecorded(here: Step, t: Point, best: Table, dist: Distance)
    requires forall p, q :: dist(p, q) >= 0.0
    requires WellFormed(here, dist) && Recorded(here, best, dist)
    requires Improves(best, Extend(here, t, dist))
    ensures Recorded(Extend(here, t, dist), best[t := Extend(here, t, dist)], dist)
  {
    var s := Extend(here, t, dist);
    var best' := best[t := s];
    var pts := ChainPoints(here);
    var pts' := ChainPoints(s);
    assert pts' == pts + [t];
    TakenPointIsNew(here, t, best, dist);
    LengthIsPolylineLength(s, dist);
    assert best'[t] == s;
    forall i | 1 <= i < |pts'|
      ensures Within(best', WalkTo(pts', i), dist)
    {
      if i < |pts| {
        var p := pts[i];
        PrefixOfSnoc(pts, t, i + 1);
        assert WalkTo(pts', i) == WalkTo(pts, i);
        assert pts'[i] == p && p != t;
        assert best'[p] == best[p];
      } else {
        assert WalkTo(pts', i) == pts' && pts'[i] == t;
      }
    }
  }

  lemma {:induction false} PrefixOfSnoc<T>(a: seq<T>, x: T, n: nat)
    requires n <= |a|
    ensures (a + [x])[..n] == a[..n]
  {
  }

  lemma {:induction false} TakenStepReached(here: Step, t: Point, best: Table, from: Point, to: Point, lab: Labyrinth)
    requires IsDistance(lab.dist)
    requires Tracked(here, best, from, to, lab)
    requires t in Targets(to, lab.walls) && Clear(here.point, t, lab.walls)
    requires Improves(best, Extend(here, t, lab.dist))
    ensures Reached(Extend(here, t, lab.dist), from, to, lab)
    ensures Recorded(Extend(here, t, lab.dist), best[t := Extend(here, t, lab.dist)], lab.dist)
  {
    var s := Extend(here, t, lab.dist);
    var pts := ChainPoints(here);
    var pts' := ChainPoints(s);
    assert pts' == pts + [t];
    TakenPointIsNew(here, t, best, lab.dist);
    assert Simple(pts');
    assert IsWalk(pts', from, to, lab) by {
      forall i | 1 <= i < |pts'|
        ensures pts'[i] in Targets(to, lab.walls) && Clear(pts'[i - 1], pts'[i], lab.walls)
      {
        if i < |pts| {
          assert pts'[i] == pts[i] && pts'[i - 1] == pts[i - 1];
        }
      }
    }
    TakenStepRecorded(here, t, best, lab.dist);
  }

  /** All sequences over T of length at most n. */
  ghost function Words(T: set<Point>, n: nat): set<seq<Point>>
  {
    if n == 0 then {[]}
    else Words(T, n - 1) + (set w, t | w in Words(T, n - 1) && t in T :: w + [t])
  }

  lemma {:induction false} InWords(c: seq<Point>, T: set<Point>, n: nat)
    requires |c| <= n
    requires forall i :: 0 <= i < |c| ==> c[i] in T
    ensures c in Words(T, n)
    decreases n
  {
    if n > 0 {
      if |c| <= n - 1 {
        InWords(c, T, n - 1);
      } else {
        var w := c[..|c| - 1];
        InWords(w, T, n - 1);
        assert c == w + [c[|c| - 1]];
      }
    }
  }

  lemma {:induction false} SubsetCard<X>(a: set<X>, b: set<X>)
    requires a <= b
    ensures |a| <= |b|
    decreases |a|
  {
    if a != {} {
      var x :| x in a;
      SubsetCard(a - {x}, b - {x});
    }
  }

  /** A sequence of distinct elements of T is no longer than T is large. */
  lemma {:induction false} DistinctFits(c: seq<Point>, T: set<Point>)
    requires forall i, j :: 0 <= i < j < |c| ==> c[i] != c[j]
    requires forall i :: 0 <= i < |c| ==> c[i] in T
    ensures |c| <= |T|
    decreases |c|
  {
    if c != [] {
      var x := c[|c| - 1];
      DistinctFits(c[..|c| - 1], T - {x});
    }
  }

  /** The candidates, as a set. */
  ghost function TargetSet(to: Point, lab: Labyrinth): set<Point>
  {
    set t | t in Targets(to, lab.walls)
  }

  /** A chain of candidates after `from` that would still improve the table's entry for its last point. */
  ghost predicate Open(best: Table, from: Point, c: seq<Point>, dist: Distance)
    requires c != []
  {
    c[|c| - 1] !in best || PolylineLength([from] + c, dist) < best[c[|c| - 1]].pathLength
  }

  /**
   * The chains of at most as many candidates as there are that could still
   * improve the table: a finite set that every replacement shrinks.
   */
  ghost function Potential(best: Table, from: Point, to: Point, lab: Labyrinth): set<seq<Point>>
  {
    var T := TargetSet(to, lab);
    set c | c in Words(T, |T|) && c != [] && Open(best, from, c, lab.dist)
  }

  lemma {:induction false} PotentialBelow(b: Table, b': Table, from: Point, to: Point, lab: Labyrinth)
    requires Below(b', b)
    ensures Potential(b', from, to, lab) <= Potential(b, from, to, lab)
  {
  }

  /** The chain after the root of a reached non-root step is one of the chains the potential ranges over. */
  lemma {:induction false} ChainInWords(s: Step, from: Point, to: Point, lab: Labyrinth)
    requires Reached(s, from, to, lab) && s.back.Some?
    ensures ChainPoints(s)[1..] != []
    ensures ChainPoints(s)[1..] in Words(TargetSet(to, lab), |TargetSet(to, lab)|)
    ensures [from] + ChainPoints(s)[1..] == ChainPoints(s)
  {
    var T := TargetSet(to, lab);
    var pts := ChainPoints(s);
    var c := pts[1..];
    forall i | 0 <= i < |c| ensures c[i] in T {
      assert c[i] == pts[i + 1];
    }
    forall i, j | 0 <= i < j < |c| ensures c[i] != c[j] {
      assert c[i] == pts[i + 1] && c[j] == pts[j + 1];
    }
    DistinctFits(c, T);
    InWords(c, T, |T|);
  }

  /** Taking a reached step removes its own chain from the potential, and adds nothing. */
  lemma {:induction false} TakingShrinks(best: Table, s: Step, from: Point, to: Point, lab: Labyrinth)
    requires Reached(s, from, to, lab) && s.back.Some? && Improves(best, s)
    ensures Potential(best[s.point := s], from, to, lab) < Potential(best, from, to, lab)
  {
    var best' := best[s.point := s];
    var c := ChainPoints(s)[1..];
    ChainInWords(s, from, to, lab);
    LengthIsPolylineLength(s, lab.dist);
    assert c[|c| - 1] == s.point;
    assert Open(best, from, c, lab.dist);
    assert !Open(best', from, c, lab.dist);
    assert Below(best', best);
    PotentialBelow(best, best', from, to, lab);
    assert c in Potential(best, from, to, lab);
  }

  lemma {:induction false} ShrinkingCard(a: set<seq<Point>>, b: set<seq<Point>>)
    requires a < b
    ensures |a| < |b|
  {
    var x :| x in b && x !in a;
    SubsetCard(a, b - {x});
  }

  /** Storing a reached step that improves the table keeps the table's invariants. */
  lemma {:induction false} TakeKeepsTable(b: Table, s: Step, from: Point, to: Point, lab: Labyrinth)
    requires TableOk(b, from, to, lab) && Improves(b, s)
    requires s.back.Some? && Tracked(s, b[s.point := s], from, to, lab)
    ensures TableOk(b[s.point := s], from, to, lab)
  {
    var b' := b[s.point := s];
    assert Below(b', b);
    forall k | k in b'
      ensures EntryOk(b', k, from, to, lab)
    {
      if k != s.point {
        KeptEntry(b, b', k, from, to, lab);
      }
    }
  }

  /** An entry that a better table still holds unchanged is still a good entry. */
  lemma {:induction false} KeptEntry(b: Table, b': Table, k: Point, from: Point, to: Point, lab: Labyrinth)
    requires k in b && EntryOk(b, k, from, to, lab)
    requires Below(b', b) && b'[k] == b[k]
    ensures EntryOk(b', k, from, to, lab)
  {
    RecordedBelow(b[k], b, b', lab.dist);
  }

  /** What holds of every step taken so far still holds once the table has improved. */
  lemma {:induction false} TakenStayRecorded(taken: seq<Step>, b: Table, b': Table, from: Point, to: Point, lab: Labyrinth)
    requires Below(b', b)
    requires forall x :: x in taken ==> x.back.Some? && Tracked(x, b, from, to, lab)
    ensures forall x :: x in taken ==> x.back.Some? && Tracked(x, b', from, to, lab)
  {
    forall x | x in taken
      ensures Recorded(x, b', lab.dist)
    {
      RecordedBelow(x, b, b', lab.dist);
    }
  }

  lemma {:induction false} ImprovedBelow(b: Table, s: Step)
    requires Improves(b, s)
    ensures Below(b[s.point := s], b)
  {
  }

  /** Taking one more improving step after `here`, in the middle of a round. */
  lemma {:induction false} TakeOne(b: Table, taken: seq<Step>, here: Step, s: Step, from: Point, to: Point, lab: Labyrinth)
    requires IsDistance(lab.dist)
    requires TableOk(b, from, to, lab)
    requires Tracked(here, b, from, to, lab)
    requires forall x :: x in taken ==> x.back.Some? && Tracked(x, b, from, to, lab)
    requires s.point in Targets(to, lab.walls) && Clear(here.point, s.point, lab.walls)
    requires s == Extend(here, s.point, lab.dist) && Improves(b, s)
    ensures TableOk(b[s.point := s], from, to, lab)
    ensures Recorded(here, b[s.point := s], lab.dist)
    ensures forall x :: x in taken + [s] ==>
      x.back.Some? && Tracked(x, b[s.point := s], from, to, lab)
    ensures Potential(b[s.point := s], from, to, lab) < Potential(b, from, to, lab)
  {
    var b' := b[s.point := s];
    TakenStepReached(here, s.point, b, from, to, lab);
    ImprovedBelow(b, s);
    RecordedBelow(here, b, b', lab.dist);
    TakeKeepsTable(b, s, from, to, lab);
    TakenStayRecorded(taken, b, b', from, to, lab);
    TakingShrinks(b, s, from, to, lab);
    forall x | x in taken + [s]
      ensures x.back.Some? && Tracked(x, b', from, to, lab)
    {
      if x != s {
        assert x in taken;
      }
    }
  }

  /**
   * Offering the steps that follow a reached step keeps the table's
   * invariants; every step taken is reached and recorded; and a round that
   * takes anything strictly shrinks the potential.
   */
  lemma {:induction false} OfferKeepsInvariants(best: Table, here: Step, ways: seq<Step>, from: Point, to: Point, lab: Labyrinth)
    requires IsDistance(lab.dist)
    requires TableOk(best, from, to, lab)
    requires Tracked(here, best, from, to, lab)
    requires forall w :: w in ways ==>
      w.point in Targets(to, lab.walls) && Clear(here.point, w.point, lab.walls) &&
      w == Extend(here, w.point, lab.dist)
    ensures TableOk(Offer(best, ways).0, from, to, lab)
    ensures Recorded(here, Offer(best, ways).0, lab.dist)
    ensures forall s :: s in Offer(best, ways).1 ==>
      s.back.Some? && Tracked(s, Offer(best, ways).0, from, to, lab)
    ensures Offer(best, ways).1 != [] ==>
      Potential(Offer(best, ways).0, from, to, lab) < Potential(best, from, to, lab)
    decreases |ways|
  {
    if ways != [] {
      var prefix := ways[..|ways| - 1];
      var s := ways[|ways| - 1];
      assert forall w :: w in prefix ==> w in ways;
      OfferKeepsInvariants(best, here, prefix, from, to, lab);
      var r := Offer(best, prefix);
      if Improves(r.0, s) {
        assert s in ways;
        TakeOne(r.0, r.1, here, s, from, to, lab);
        OfferEffect(best, prefix);
        PotentialBelow(best, r.0, from, to, lab);
      }
    }
  }
}
