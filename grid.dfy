/** The occupancy map the engine reads: `width * height` cells in row-major order,
    where the value 1 marks a wall. */
module GridMap {
  import opened Geometry

  datatype Grid = Grid(cells: seq<int>, width: int, height: int)

  /** The caller's contract: the buffer holds exactly one value per cell. */
  predicate WellFormedGrid(g: Grid)
  {
    |g.cells| == g.width * g.height
  }

  /** `isValid`: the half-open bounds test. */
  predicate IsValid(g: Grid, p: Point)
  {
    0 <= p.x < g.width && 0 <= p.y < g.height
  }

  /** Row-major position of a cell in the buffer. */
  function CellIndex(g: Grid, p: Point): int
  {
    p.y * g.width + p.x
  }

  /** Every point that passes the bounds test addresses a cell of the buffer. */
  lemma ValidCellIndex(g: Grid, p: Point)
    requires IsValid(g, p)
    ensures 0 <= CellIndex(g, p) < g.width * g.height
  {
    assert 0 <= p.y * g.width <= (g.height - 1) * g.width by {
      assert (g.height - 1 - p.y) * g.width >= 0;
    }
  }

  /** `getCost`: the raw cell value, read only after the bounds test. */
  function GetCost(g: Grid, p: Point): int
    requires WellFormedGrid(g) && IsValid(g, p)
  {
    ValidCellIndex(g, p);
    g.cells[CellIndex(g, p)]
  }

  /** The expansion filter: inside the map and not a wall. */
  predicate Walkable(g: Grid, p: Point)
    requires WellFormedGrid(g)
  {
    IsValid(g, p) && GetCost(g, p) != 1
  }
}
