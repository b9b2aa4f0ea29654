/**
 * One round of relaxation in findPath: each candidate step is offered to the
 * best-path table in turn, and it replaces the table's entry for its point
 * when the point has none yet or a strictly longer one; the steps taken are
 * the ones that go onto the queue.
 */
module Relaxation {
  import opened Geometry
  import opened Steps

  /** The best-path table: for each point reached, the shortest step found so far that ends there. */
  type Table = map<Point, Step>

  /** s would become the table's new entry for its point. */
  predicate Improves(best: Table, s: Step)
  {
    s.point !in best || best[s.point].pathLength > s.pathLength
  }

  /**
   * The table after offering each of ways in turn, and the steps it took, in
   * the order they were taken.
   */
  function Offer(best: Table, ways: seq<Step>): (Table, seq<Step>)
    decreases |ways|
  {
    if ways == [] then (best, [])
    else
      var r := Offer(best, ways[..|ways| - 1]);
      var s := ways[|ways| - 1];
      if Improves(r.0, s) then (r.0[s.point := s], r.1 + [s]) else r
  }

  /** Table b' is at least as good as table b: it has every point of b, at no greater length. */
  ghost predicate Below(b': Table, b: Table)
  {
    forall k :: k in b ==> k in b' && b'[k].pathLength <= b[k].pathLength
  }

  /**
   * What offering does to the table: no point is lost and no length grows; an
   * entry is replaced only by a strictly shorter step, always one of the
   * offered steps stored under its own point and taken onto the queue;
   * nothing but offered steps is taken; and afterwards every offered step's
   * point has an entry no longer than that step.
   */
  lemma {:induction false} OfferEffect(best: Table, ways: seq<Step>)
    ensures Below(Offer(best, ways).0, best)
    ensures forall k :: k in best ==>
      Offer(best, ways).0[k] == best[k] || Offer(best, ways).0[k].pathLength < best[k].pathLength
    ensures forall k :: k in Offer(best, ways).0 ==>
      (k in best && Offer(best, ways).0[k] == best[k]) ||
      (Offer(best, ways).0[k] in Offer(best, ways).1 && Offer(best, ways).0[k].point == k)
    ensures forall s :: s in Offer(best, ways).1 ==> s in ways
    ensures forall w :: w in ways ==>
      w.point in Offer(best, ways).0 && Offer(best, ways).0[w.point].pathLength <= w.pathLength
    ensures Offer(best, ways).1 == [] ==> Offer(best, ways).0 == best
    decreases |ways|
  {
    if ways != [] {
      var prefix := ways[..|ways| - 1];
      OfferEffect(best, prefix);
      var r := Offer(best, prefix);
      var s := ways[|ways| - 1];
      assert forall w :: w in ways ==> w in prefix || w == s;
    }
  }

  /**
   * An entry that no offered step at its point undercuts stays put: once e
   * is the table's entry, or is offered first to a table without its
   * point, it is the entry after the whole round.
   */
  lemma {:induction false} OfferKeepsEntry(best: Table, ways: seq<Step>, e: Step)
    requires (e.point in best && best[e.point] == e) || (ways != [] && ways[0] == e && e.point !in best)
    requires forall w :: w in ways && w.point == e.point ==> w.pathLength >= e.pathLength
    ensures e.point in Offer(best, ways).0 && Offer(best, ways).0[e.point] == e
    decreases |ways|
  {
    if ways != [] {
      var prefix := ways[..|ways| - 1];
      var s := ways[|ways| - 1];
      assert s in ways;
      if prefix == [] {
        assert Offer(best, prefix) == (best, []);
      } else {
        assert prefix[0] == ways[0];
        assert forall w :: w in prefix ==> w in ways;
        OfferKeepsEntry(best, prefix, e);
      }
    }
  }
}
