/** Bricks of sand in 3D integer space (the value types of aoc/2023/22.py):
    a brick is the axis-aligned segment between two integer positions. */
module Bricks {
  import opened Opt

  datatype Position = Position(x: int, y: int, z: int)

  /** Indexing a position as a tuple: axis 0, 1, 2 is x, y, z. */
  function Coord(p: Position, axis: int): int
    requires 0 <= axis < 3
  {
    if axis == 0 then p.x else if axis == 1 then p.y else p.z
  }

  /** Python's tuple order on positions: lexicographic in (x, y, z). */
  predicate PositionLe(p: Position, q: Position) {
    p.x < q.x || (p.x == q.x && (p.y < q.y || (p.y == q.y && p.z <= q.z)))
  }

  datatype Brick = Brick(start: Position, end: Position)

  /** Start is below or at end on every axis, as for every line the puzzle draws. */
  predicate Normalized(b: Brick) {
    b.start.x <= b.end.x && b.start.y <= b.end.y && b.start.z <= b.end.z
  }

  /** The brick is a point or a line along one axis: both endpoints agree on
      at least two coordinates. */
  predicate IsLine(p: Position, q: Position) {
    (p.x == q.x && p.y == q.y) || (p.y == q.y && p.z == q.z) || (p.x == q.x && p.z == q.z)
  }

  /** `Brick.from_str` once the two endpoints are parsed: the smaller endpoint,
      in tuple order, becomes the start. */
  function FromEndpoints(p: Position, q: Position): (b: Brick)
    ensures PositionLe(b.start, b.end)
    ensures (b.start == p && b.end == q) || (b.start == q && b.end == p)
  {
    if PositionLe(p, q) then Brick(p, q) else Brick(q, p)
  }

  /** Sorting the endpoints of a line in tuple order sorts them on every axis. */
  lemma LineIsNormalized(p: Position, q: Position)
    requires IsLine(p, q)
    ensures Normalized(FromEndpoints(p, q))
  {
  }

  function ZMax(b: Brick): (r: int)
    ensures r >= b.start.z && r >= b.end.z && (r == b.start.z || r == b.end.z)
  {
    if b.start.z >= b.end.z then b.start.z else b.end.z
  }

  function ZMin(b: Brick): (r: int)
    ensures r <= b.start.z && r <= b.end.z && (r == b.start.z || r == b.end.z)
  {
    if b.start.z <= b.end.z then b.start.z else b.end.z
  }

  /** `a` is `b` moved along z only: same x and y at both ends, same vertical extent. */
  predicate SameColumn(a: Brick, b: Brick) {
    && a.start.x == b.start.x && a.start.y == b.start.y
    && a.end.x == b.end.x && a.end.y == b.end.y
    && a.start.z - b.start.z == a.end.z - b.end.z
  }

  /** `Brick.move_down(n)`: the brick `n` units lower, or nothing when that
      would bring an end to z = 0 or below. A negative `n` moves it up. */
  function MoveDown(b: Brick, n: int): (r: Option<Brick>)
    ensures r.None? <==> b.start.z <= n || b.end.z <= n
    ensures r.Some? ==> SameColumn(r.value, b) && r.value.start.z == b.start.z - n
    ensures r.Some? ==> ZMin(r.value) == ZMin(b) - n >= 1 && ZMax(r.value) == ZMax(b) - n
  {
    if b.start.z > n && b.end.z > n then
      Some(Brick(Position(b.start.x, b.start.y, b.start.z - n), Position(b.end.x, b.end.y, b.end.z - n)))
    else
      None
  }

  /** One round of the loop in `Brick.intersects`: both bricks are constant and
      equal on axis `index`, and their ranges overlap on the two other axes. */
  predicate OverlapsAcross(a: Brick, b: Brick, index: int)
    requires 0 <= index < 3
  {
    var xi, yi, zi := index, (index + 1) % 3, (index + 2) % 3;
    && Coord(a.start, xi) == Coord(a.end, xi) == Coord(b.start, xi) == Coord(b.end, xi)
    && Coord(a.end, yi) >= Coord(b.start, yi) && Coord(a.start, yi) <= Coord(b.end, yi)
    && Coord(a.end, zi) >= Coord(b.start, zi) && Coord(a.start, zi) <= Coord(b.end, zi)
  }

  /** `Brick.intersects`: the loop returns True at the first axis that overlaps. */
  predicate Intersects(a: Brick, b: Brick) {
    OverlapsAcross(a, b, 0) || OverlapsAcross(a, b, 1) || OverlapsAcross(a, b, 2)
  }

  /** A brick as the puzzle draws it: a point or a line along one axis, its
      endpoints sorted on every axis. */
  predicate Drawn(b: Brick) {
    Normalized(b) && IsLine(b.start, b.end)
  }

  /** A drawn brick intersects itself, so two settled bricks that intersect
      nothing settled before them are never equal. */
  lemma DrawnSelfIntersects(b: Brick)
    requires Drawn(b)
    ensures Intersects(b, b)
  {
    if b.start.x == b.end.x { SelfIntersects(b, 0); } else { SelfIntersects(b, 1); }
  }

  /** The two bricks, as boxes, overlap on every axis. */
  predicate BoxesOverlap(a: Brick, b: Brick) {
    forall axis :: 0 <= axis < 3 ==>
      Coord(a.start, axis) <= Coord(b.end, axis) && Coord(b.start, axis) <= Coord(a.end, axis)
  }

  /** For drawn bricks `intersects` is box overlap: the brick pair always has
      an axis on which both are constant, and on it overlap means equality. */
  lemma DrawnIntersectsIffOverlap(a: Brick, b: Brick)
    requires Drawn(a) && Drawn(b)
    ensures Intersects(a, b) <==> BoxesOverlap(a, b)
  {
    if Intersects(a, b) {
      forall axis | 0 <= axis < 3
        ensures Coord(a.start, axis) <= Coord(b.end, axis) && Coord(b.start, axis) <= Coord(a.end, axis)
      {
        var index :| 0 <= index < 3 && OverlapsAcross(a, b, index);
        assert axis == index || axis == (index + 1) % 3 || axis == (index + 2) % 3;
      }
    }
    if BoxesOverlap(a, b) {
      var c := CommonFlatAxis(a, b);
      assert Coord(a.start, c) <= Coord(b.end, c) && Coord(b.start, c) <= Coord(a.end, c);
      forall axis | 0 <= axis < 3
        ensures Coord(a.start, axis) <= Coord(b.end, axis) && Coord(b.start, axis) <= Coord(a.end, axis)
      {
      }
      assert OverlapsAcross(a, b, c);
    }
  }

  /** Each drawn brick is constant on two of the three axes, so two of them
      share such an axis. */
  lemma CommonFlatAxis(a: Brick, b: Brick) returns (c: int)
    requires Drawn(a) && Drawn(b)
    ensures 0 <= c < 3
    ensures Coord(a.start, c) == Coord(a.end, c) && Coord(b.start, c) == Coord(b.end, c)
  {
    if a.start.x == a.end.x && b.start.x == b.end.x {
      c := 0;
    } else if a.start.y == a.end.y && b.start.y == b.end.y {
      c := 1;
    } else {
      c := 2;
    }
  }

  /** Swapping the bricks swaps the two sides of every comparison. */
  lemma IntersectsSymmetric(a: Brick, b: Brick)
    ensures Intersects(a, b) == Intersects(b, a)
  {
  }

  /** A normalized brick that is constant on some axis intersects itself. */
  lemma SelfIntersects(b: Brick, axis: int)
    requires Normalized(b) && 0 <= axis < 3 && Coord(b.start, axis) == Coord(b.end, axis)
    ensures Intersects(b, b)
  {
    assert OverlapsAcross(b, b, axis);
  }

  /** Every brick the puzzle draws (a line, endpoints sorted) intersects itself;
      this is why the support tests leave the brick itself out. */
  lemma LineSelfIntersects(p: Position, q: Position)
    requires IsLine(p, q)
    ensures Intersects(FromEndpoints(p, q), FromEndpoints(p, q))
  {
    LineIsNormalized(p, q);
    var b := FromEndpoints(p, q);
    if p.x == q.x { SelfIntersects(b, 0); } else { SelfIntersects(b, 1); }
  }

  /** Intersecting bricks share a z level: whatever the orientation, the
      start of either is not above the end of the other. */
  lemma IntersectsShareLevel(a: Brick, b: Brick)
    requires Intersects(a, b)
    ensures a.start.z <= b.end.z && b.start.z <= a.end.z
  {
  }

  /** A brick entirely above another does not intersect it. */
  lemma AboveDoesNotIntersect(a: Brick, b: Brick)
    requires ZMin(a) > ZMax(b)
    ensures !Intersects(a, b) && !Intersects(b, a)
  {
    if Intersects(a, b) { IntersectsShareLevel(a, b); }
    if Intersects(b, a) { IntersectsShareLevel(b, a); }
  }

  /**
   * `get_intersection`, with the other bricks named by their index: the
   * bricks at the indices in the result are exactly the bricks of `others`
   * that meet `b`, which is the set the source computes by value.
   */
  function Intersection(b: Brick, others: seq<Brick>): (r: set<nat>)
    ensures forall j :: j in r <==> 0 <= j < |others| && Intersects(b, others[j])
    ensures (set j | j in r :: others[j]) == (set o | o in others && Intersects(b, o))
  {
    var r := set j: nat | j < |others| && Intersects(b, others[j]);
    IntersectionByValue(b, others, r);
    r
  }

  /** An index set picking out the bricks of `others` that meet `b` names them by value. */
  lemma IntersectionByValue(b: Brick, others: seq<Brick>, r: set<nat>)
    requires forall j :: j in r <==> 0 <= j < |others| && Intersects(b, others[j])
    ensures (set j | j in r :: others[j]) == (set o | o in others && Intersects(b, o))
  {
    forall o | o in others && Intersects(b, o)
      ensures o in (set j | j in r :: others[j])
    {
      var j :| 0 <= j < |others| && others[j] == o;
      assert j in r;
    }
  }
}
