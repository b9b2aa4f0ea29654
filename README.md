# Labyrinth: shortest obstacle-avoiding path

A Dafny model of the search core of the labyrinth path finder
(`src/main/java/petrglad/labyrinth/Labyrinth.java`). Given walls (line
segments that no path may cross), an origin and a destination, the finder
searches the implicit visibility graph whose vertices are the origin, the
destination and every wall endpoint. It runs a FIFO label-correcting
relaxation (Bellman-Ford / SPFA style) with a best-path table keyed by
point, and it turns the winning chain of back-links into the path's lines in
travel order.

Modules, leaves first:

- `Geometry` (geometry.dfy): exact points and segments. It holds the segment
  intersection test that `Line2D.intersectsLine` performs (the JDK's
  `relativeCCW`/`linesIntersect`, in exact arithmetic), and polylines with
  their length under a caller-supplied distance.
- `Steps` (steps.dfy): `Labyrinth.Step` as an immutable datatype with an
  optional back-link; its two constructors; the chain of points from the root.
- `Labyrinth` (labyrinth.dfy): the labyrinth (walls plus distance), the
  visibility test `allowedPathSegment`, the candidate points, `getWays`, and
  what a route of the visibility graph is.
- `Relaxation` (relaxation.dfy): the best-path table, and one round of offering
  candidate steps to it (the inner loop of `findPath`) as a reference fold.
- `SearchInvariants` (search_invariants.dfy): what the table and the queue
  keep throughout the search. It also holds the potential that proves the
  search loop terminates.
- `Search` (search.dfy): `findPath`, `stepToLines`, `findLinePath`, and the
  theorem that the search returns a shortest route, or none exactly when no
  route exists.

The main results:

- `FindPath` always terminates, for any non-negative distance. Each
  replacement in the table removes one chain from a finite set of chains that
  could still improve the table. That set is made of distinct candidates after
  the origin. A round that replaces nothing shortens the queue.
- When `FindPath` finds something, the result's back-link chain is a route:
  it starts at the origin, moves only through candidates, visits no candidate
  twice and makes only clear moves. Its `pathLength` is that route's length,
  and no route is shorter.
- `FindPath` returns None exactly when no route exists.

## Model

| member | source | states |
|---|---|---|
| `Steps.Root` | src/main/java/petrglad/labyrinth/Labyrinth.java:30-34 | the root step has no back-link, its chain is just its own point, and it is well formed (length 0) under every distance |
| `Steps.Extend` | src/main/java/petrglad/labyrinth/Labyrinth.java:24-28 | a child step links back to its parent, its chain is the parent's chain plus the new point, it keeps the parent's origin, and it is well formed whenever the parent is |
| `Steps.ChainPoints` | src/main/java/petrglad/labyrinth/Labyrinth.java:19-22 | the chain of a step ends at the step's own point, and has a single point exactly for a root |
| `Steps.LengthIsPolylineLength` | src/main/java/petrglad/labyrinth/Labyrinth.java:24-34 | in a well-formed step (every link's length is its parent's plus the distance between them), `pathLength` is the length of the polyline its chain walks |
| `Geometry.SharedEndpointIntersects` | src/main/java/petrglad/labyrinth/Labyrinth.java:109-112 | two segments that share an endpoint always intersect, which is why the visibility test must exempt a wall's own endpoints |
| `Geometry.IntersectionIgnoresOrientation` | src/main/java/petrglad/labyrinth/Labyrinth.java:109 | the intersection test does not depend on which segment is asked or on the order of either segment's endpoints |
| `Geometry.RelativeCcwReversed` | src/main/java/petrglad/labyrinth/Labyrinth.java:109 | reversing a segment reverses the side every point lies on, including the before/beyond cases on its line |
| `Geometry.RelativeCcw` | src/main/java/petrglad/labyrinth/Labyrinth.java:109 | the side of a directed segment a point lies on, always -1, 0 or 1, as Line2D.relativeCCW computes it |
| `Geometry.LinesIntersect` | src/main/java/petrglad/labyrinth/Labyrinth.java:109 | two closed segments intersect when each has the other's two endpoints on different sides of it or on it, as Line2D.linesIntersect decides |
| `Labyrinth.AllowedPathSegment` | src/main/java/petrglad/labyrinth/Labyrinth.java:106-115 | the answer is false exactly when some wall intersects the move and none of that wall's endpoints is the move's start or end; with no walls it is true |
| `Labyrinth.Blocks` | src/main/java/petrglad/labyrinth/Labyrinth.java:109-112 | a wall stops a move when it intersects the move and neither of its endpoints is one of the move's ends |
| `Labyrinth.EndpointMoveAllowed` | src/main/java/petrglad/labyrinth/Labyrinth.java:110-112 | a move that starts or ends on an endpoint of the only wall is never blocked by that wall |
| `Labyrinth.ClearIgnoresOrientation` | src/main/java/petrglad/labyrinth/Labyrinth.java:106-115 | visibility is symmetric in the move's ends and unaffected by the order in which each wall stores its endpoints |
| `Labyrinth.CrossingWallBlocks` | src/main/java/petrglad/labyrinth/Labyrinth.java:106-115 | the move (0,0) to (10,0) is blocked by the wall (5,-5) to (5,5) |
| `Labyrinth.ZeroLengthWallBlocks` | src/main/java/petrglad/labyrinth/Labyrinth.java:106-115 | every zero-length wall standing strictly between the two ends of a move blocks it |
| `Labyrinth.InsideMove` | src/main/java/petrglad/labyrinth/Labyrinth.java:109 | a point strictly between the ends of a move lies on the move under the intersection test, and is neither end |
| `Labyrinth.WallEnds` | src/main/java/petrglad/labyrinth/Labyrinth.java:94-99 | the wall endpoints are listed wall by wall in iteration order, each wall's P1 at index 2i and its P2 at 2i+1 |
| `Labyrinth.StepsTo` | src/main/java/petrglad/labyrinth/Labyrinth.java:92-98 | at most one step per target; each step is a move from the given step to a target it sees; every target it sees gets its step |
| `Labyrinth.Ways` | src/main/java/petrglad/labyrinth/Labyrinth.java:90-101 | the steps that can follow a step: one to each candidate it sees, the destination first and then each wall's P1 and P2 |
| `Labyrinth.GetWays` | src/main/java/petrglad/labyrinth/Labyrinth.java:90-101 | the loop returns exactly the candidate steps `Ways`: one per visible candidate, tried in candidate order |
| `Labyrinth.StepsToNextWall` | src/main/java/petrglad/labyrinth/Labyrinth.java:94-99 | taking one more wall into account adds the step to its P1 and then the step to its P2, each only if it is visible |
| `Labyrinth.WaysShape` | src/main/java/petrglad/labyrinth/Labyrinth.java:90-101 | the destination's step comes first, if the destination is visible, then the wall endpoints' steps in wall order; there are at most 1 + 2 * walls steps; a step is among them exactly when it is a move from the given step to a visible candidate |
| `Labyrinth.StepsToAppend` | src/main/java/petrglad/labyrinth/Labyrinth.java:94-99 | the steps of a concatenation of targets are the steps of each part, in order |
| `Relaxation.OfferEffect` | src/main/java/petrglad/labyrinth/Labyrinth.java:74-80 | offering steps loses no point and lengthens no entry. An entry is replaced only by a strictly shorter offered step, stored under its own point and appended to the queue. Only offered steps are queued. Afterwards every offered step's point has an entry no longer than it. If nothing is taken, the table is unchanged |
| `Relaxation.OfferKeepsEntry` | src/main/java/petrglad/labyrinth/Labyrinth.java:74-80 | an entry that no offered step at its point undercuts is still the entry after the round, including a step offered first to a table without its point |
| `Relaxation.Improves` | src/main/java/petrglad/labyrinth/Labyrinth.java:76 | a step replaces the entry for its point when there is none or the entry is strictly longer |
| `Relaxation.Offer` | src/main/java/petrglad/labyrinth/Labyrinth.java:74-80 | the table and the taken steps after offering each candidate in order, taking a step exactly when it improves the table at that moment |
| `Search.Relax` | src/main/java/petrglad/labyrinth/Labyrinth.java:74-80 | the new table and the steps appended to the queue are those of offering the candidates one by one (`Offer`); a step is queued exactly when it becomes its point's new entry |
| `SearchInvariants.TakenPointIsNew` | src/main/java/petrglad/labyrinth/Labyrinth.java:75-79 | a step that the table takes never revisits a point already on its parent's chain after the root |
| `SearchInvariants.TakenStepRecorded` | src/main/java/petrglad/labyrinth/Labyrinth.java:76-77 | once a taken step is stored, every point on its chain after the root has an entry no longer than the walk up to it, the step's own point included |
| `SearchInvariants.TakenStepReached` | src/main/java/petrglad/labyrinth/Labyrinth.java:75-79 | a taken step is well formed, walks clear moves from the origin through distinct candidates, and every point on its chain has an entry no longer than the walk up to it |
| `SearchInvariants.TakeKeepsTable` | src/main/java/petrglad/labyrinth/Labyrinth.java:76-77 | storing such a step keeps every entry a non-root reached step filed under its own point |
| `SearchInvariants.ChainInWords` | src/main/java/petrglad/labyrinth/Labyrinth.java:71-79 | the chain of a reached non-root step, after its root, is among the finitely many candidate sequences the potential counts |
| `SearchInvariants.TakingShrinks` | src/main/java/petrglad/labyrinth/Labyrinth.java:76-78 | taking an improving step strictly shrinks the set of chains that could still improve the table |
| `SearchInvariants.TakeOne` | src/main/java/petrglad/labyrinth/Labyrinth.java:74-80 | taking one improving step keeps every invariant of the table and of the steps taken so far, and shrinks the potential |
| `SearchInvariants.OfferKeepsInvariants` | src/main/java/petrglad/labyrinth/Labyrinth.java:74-80 | a whole round of offers keeps the table's invariants; every step it queues is reached and recorded; a round that queues anything shrinks the potential |
| `Search.CoveredAfterRound` | src/main/java/petrglad/labyrinth/Labyrinth.java:72-80 | after a round, the polled step and every step that is neither queued nor replaced have all their followers reflected in the table |
| `Search.Round` | src/main/java/petrglad/labyrinth/Labyrinth.java:72-81 | one turn of the outer loop keeps all loop invariants. It either queues something, shrinking the potential, or leaves the table unchanged with one step fewer queued |
| `Search.Start` | src/main/java/petrglad/labyrinth/Labyrinth.java:69-71 | the empty table with only the root queued satisfies the loop invariants |
| `Search.WalkPrefixRecorded` | src/main/java/petrglad/labyrinth/Labyrinth.java:72-81 | once every step is settled, every point of a walk of clear moves has an entry no longer than the walk up to it |
| `Search.SettledTableIsShortest` | src/main/java/petrglad/labyrinth/Labyrinth.java:72-82 | once every step is settled, the destination has an entry, and it is no longer than any route |
| `Search.Finish` | src/main/java/petrglad/labyrinth/Labyrinth.java:82 | when the queue is empty, the destination's entry (if any) is a non-root, well-formed route without repeated candidates, and it is no longer than any route; every route implies an entry |
| `Search.FindPath` | src/main/java/petrglad/labyrinth/Labyrinth.java:68-83 | the loop terminates. A result is a step at the destination with a back-link, whose chain is a route of its own `pathLength`, no longer than any route. None exactly when no route exists. When the straight move is clear and the distance obeys the triangle inequality, the result is exactly the direct step from the root |
| `Search.Direct` | src/main/java/petrglad/labyrinth/Labyrinth.java:92-93 | the direct step is the root extended to the destination: its chain is the two ends, its length the distance between them |
| `Search.NothingBeatsDirect` | src/main/java/petrglad/labyrinth/Labyrinth.java:76 | under the triangle inequality, no step the search reaches and extends to the destination is shorter than the direct step |
| `Search.DirectRound` | src/main/java/petrglad/labyrinth/Labyrinth.java:72-81 | with the straight move clear, after every round the direct step holds the destination's entry: it is offered first into the empty table, and nothing later is strictly shorter |
| `Search.StepToLines` | src/main/java/petrglad/labyrinth/Labyrinth.java:58-66 | one line per back-link, in travel order: line i joins the chain's points i and i+1, the first starts at the root, the last ends at the step, consecutive lines share endpoints |
| `Search.FindLinePath` | src/main/java/petrglad/labyrinth/Labyrinth.java:50-56 | None exactly when no route exists; otherwise the lines of a route no longer than any other route. When the straight move is clear and the distance obeys the triangle inequality, exactly the one line from `from` to `to` (one zero-length line when they are the same point) |
| `Search.ClearLineIsShortest` | src/main/java/petrglad/labyrinth/Labyrinth.java:92-93 | a clear straight move is a route of length dist(from, to), and under the triangle inequality no route is shorter |
| `Search.StayingPutIsShortest` | src/main/java/petrglad/labyrinth/Labyrinth.java:68-83 | from a point to itself, the clear stay-put move is a route of length 0; every route has at least one line and is no shorter |
| `Search.DetourAroundWall` | src/main/java/petrglad/labyrinth/Labyrinth.java:90-101 | with the wall (5,-5) to (5,5), going straight from (0,0) to (10,0) is not a route, and going round the wall's upper end is |
| `Geometry.PolylineNoShorterThanLine` | src/main/java/petrglad/labyrinth/Labyrinth.java:27 | under the triangle inequality no polyline is shorter than the straight line between its ends |
| `Geometry.PrefixNoLonger` | src/main/java/petrglad/labyrinth/Labyrinth.java:27 | under a non-negative distance a polyline is never shorter than its prefixes, so lengths only grow along a chain |

Two behaviours of the code a reader may not expect:

- From a point to itself, the code does not return an empty path. The root
  is never stored in the table (`Labyrinth.java:71`). The destination is
  offered first, so under the triangle inequality the answer is exactly one
  zero-length line whenever the stay-put move is clear (`Search.FindLinePath`,
  with `Search.StayingPutIsShortest`).
- A zero-length wall is not harmless. The intersection test treats it as a
  point, and it blocks every move passing strictly through that point
  (`Labyrinth.ZeroLengthWallBlocks`).

## Left out

- Floating point: `Point2D.distance` (a square root of doubles) is not
  modelled. The labyrinth carries a distance function `dist` instead, and the
  search requires only that it is never negative. Rounding in the
  `Line2D.intersectsLine` test is also not modelled; the test is evaluated in
  exact real arithmetic.
- `Line2D.intersectsLine` is not part of the shown source. `Geometry.RelativeCcw`
  and `Geometry.LinesIntersect` follow the JDK's published `relativeCCW` /
  `linesIntersect` algorithm.
- `Search.FindPath`: does not state which of several equally short routes
  the FIFO order picks, because that depends on the queue order. It states
  that the result is a shortest route.
- `Step` objects are immutable values here. Java's sharing of back-link
  objects between steps, and reference identity, are not modelled; nothing
  in the core compares steps by reference.
- The `Labyrinth` constructor (`Labyrinth.java:39-41`) only stores the walls.
  It is the `Labyrinth` datatype's constructor. The walls become a `seq` taken
  as a snapshot, so concurrent mutation of the wall list is not modelled.
- The `HashMap` best-path table and the `LinkedList` queue are a `map` keyed
  by exact point equality and a `seq`. Hashing is not modelled.
- `Board.java` (Swing drawing and mouse and key handling), `Main.java`
  (argument parsing and printing) and `Data.java` (text load and store of
  walls via `Double.parseDouble` and string formatting) are I/O and UI, and
  are not part of this model.
