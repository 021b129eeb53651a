/** Grid coordinates and the four axis moves the search engine may take. */
module Geometry {

  /** A zero-based cell coordinate; `x` is the column, `y` the row. */
  datatype Point = Point(x: int, y: int)

  /** Component-wise sum (`Point::operator+`). */
  function Plus(p: Point, q: Point): Point
  {
    Point(p.x + q.x, p.y + q.y)
  }

  /** `Point::operator==`: both components agree. The rest of the model compares
      points with Dafny's `==`; this and `NotEquals` only serve `PointOperators`,
      which shows that doing so is faithful. */
  predicate Equals(p: Point, q: Point)
  {
    p.x == q.x && p.y == q.y
  }

  /** `Point::operator!=`, written out component-wise as the source does; used only by
      `PointOperators`, which shows it is the negation of `==`. */
  predicate NotEquals(p: Point, q: Point)
  {
    p.x != q.x || p.y != q.y
  }

  /** The neighbour offsets in expansion order; the diagonals are not among them. */
  const AllNeighbours: seq<Point> := [Point(0, -1), Point(-1, 0), Point(0, 1), Point(1, 0)]

  function Abs(n: int): nat
  {
    if n < 0 then -n else n
  }

  /** `q` is `p` moved by one of the four offsets. */
  predicate Adjacent(p: Point, q: Point)
  {
    exists k :: 0 <= k < |AllNeighbours| && Plus(p, AllNeighbours[k]) == q
  }

  /** The point operators agree with value equality, `!=` is the negation of `==`,
      and `+` is undone by subtracting the same offset. */
  lemma PointOperators(p: Point, q: Point)
    ensures Equals(p, q) <==> p == q
    ensures NotEquals(p, q) <==> !Equals(p, q)
    ensures Plus(p, q).x - q.x == p.x && Plus(p, q).y - q.y == p.y
  {
  }

  /** The offsets are exactly the four unit axis steps: no diagonal, no zero move. */
  lemma {:induction false} NeighbourOffsets(d: Point)
    ensures |AllNeighbours| == 4
    ensures d in AllNeighbours <==> Abs(d.x) + Abs(d.y) == 1
  {
    if Abs(d.x) + Abs(d.y) == 1 {
      if d.x == 0 {
        assert d == Point(0, -1) || d == Point(0, 1);
      } else {
        assert d.y == 0;
        assert d == Point(-1, 0) || d == Point(1, 0);
      }
    }
  }

  /** Adjacency is a single step of Manhattan length one, hence never reflexive. */
  lemma {:induction false} AdjacentIsUnitStep(p: Point, q: Point)
    ensures Adjacent(p, q) <==> Abs(q.x - p.x) + Abs(q.y - p.y) == 1
    ensures Adjacent(p, q) ==> p != q
  {
    var d := Point(q.x - p.x, q.y - p.y);
    NeighbourOffsets(d);
    if Abs(q.x - p.x) + Abs(q.y - p.y) == 1 {
      var k :| 0 <= k < |AllNeighbours| && AllNeighbours[k] == d;
      assert Plus(p, AllNeighbours[k]) == q;
    }
    if Adjacent(p, q) {
      var k :| 0 <= k < |AllNeighbours| && Plus(p, AllNeighbours[k]) == q;
      assert AllNeighbours[k] == d;
    }
  }
}
