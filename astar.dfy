/** The engine object: a map, a start and an end fixed at construction, and the two
    registries that `search`, `fillOpen` and `isPointRegistered` update in place. */
module Engine {
  import opened Geometry
  import opened GridMap
  import opened Registry
  import opened Search
  import opened Route

  class AStar {
    const grid: Grid
    const start: Point
    const end: Point

    var open: seq<Node>
    var closed: seq<Node>

    constructor (grid: Grid, start: Point, end: Point)
      ensures this.grid == grid && this.start == start && this.end == end
      ensures open == [] && closed == []
    {
      this.grid := grid;
      this.start := start;
      this.end := end;
      open := [];
      closed := [];
    }

    /** Both registries as one value. */
    function Registered(): Registries
      reads this
    {
      Registries(open, closed)
    }

    /** `isPointRegistered`: true means the caller skips `p`; on false at most one
        entry at `p` has been erased. */
    method IsPointRegistered(p: Point, distCost: int) returns (registered: bool)
      modifies this
      ensures Registration(registered, Registered()) == Register(old(Registered()), p, distCost)
    {
      var closedIt := FindByPosition(closed, p);
      if closedIt != -1 {
        if closed[closedIt].cost + closed[closedIt].distance < distCost {
          return true;
        } else {
          closed := RemoveAt(closed, closedIt);
          return false;
        }
      }

      var openIt := FindByPosition(open, p);
      if openIt != -1 {
        if open[openIt].cost + open[openIt].distance < distCost {
          return true;
        } else {
          open := RemoveAt(open, openIt);
          return false;
        }
      }

      return false;
    }

    /** `fillOpen`: visit the four neighbours of `node` in order. */
    method FillOpen(node: Node) returns (found: bool)
      requires WellFormedGrid(grid)
      modifies this
      ensures Expansion(found, Registered()) == Expand(grid, end, node, old(Registered()), 0)
    {
      for t := 0 to |AllNeighbours|
        invariant Expand(grid, end, node, Registered(), t) == Expand(grid, end, node, old(Registered()), 0)
      {
        var neighbour := Plus(node.position, AllNeighbours[t]);
        if neighbour == end {
          return true;
        }

        if IsValid(grid, neighbour) && GetCost(grid, neighbour) != 1 {
          var neighbourCost := node.cost + 1;
          var neighbourDistance := DistanceToEnd(end, neighbour);

          ghost var before := Registered();
          var registered := IsPointRegistered(neighbour, neighbourCost + neighbourDistance);
          if !registered {
            var child := Node(neighbour, node.position, neighbourCost, neighbourDistance);
            open := open + [child];
            assert Registered() == Offer(end, node, before, neighbour);
          }
        }
      }

      return false;
    }

    /** `search`: seed `open` with the start, then expand in FIFO order until a
        neighbour is the end (`Reached`) or `open` is empty (`Exhausted`); the model
        stops after `fuel` expansions (`OutOfFuel`). */
    method Search(fuel: nat) returns (outcome: Outcome)
      requires WellFormedGrid(grid)
      modifies this
      ensures SearchRun(outcome, Registered())
        == Run(grid, end, Registries(old(open) + [Seed(start, end)], old(closed)), fuel)
    {
      open := open + [Node(start, Point(0, 0), 0, DistanceToEnd(end, start))];

      var budget := fuel;
      while open != []
        invariant Run(grid, end, Registered(), budget)
          == Run(grid, end, Registries(old(open) + [Seed(start, end)], old(closed)), fuel)
        decreases budget
      {
        if budget == 0 {
          return OutOfFuel;
        }
        budget := budget - 1;

        var node := open[0];
        open := open[1..];
        closed := closed + [node];

        var found := FillOpen(node);
        if found {
          return Reached;
        }
      }

      return Exhausted;
    }

    /** `path`: `end`, preceded by the last closed position, preceded by whatever the
        backward scan of `closed` finds, preceded by `start`. */
    method Path() returns (path: seq<Point>)
      requires closed != []
      ensures path == RouteOf(start, end, closed)
    {
      path := [end];

      var backNode := closed[|closed| - 1];
      path := [backNode.position] + path;
      var parent := backNode.parent;

      var t := |closed| - 1;
      while t >= 0
        invariant -1 <= t < |closed|
        invariant Trace(closed, t + 1, parent, start) + path
          == Trace(closed, |closed|, backNode.parent, start) + [backNode.position, end]
      {
        var position := closed[t].position;
        if position == parent && position != start {
          path := [position] + path;
          parent := closed[t].parent;
        }
        t := t - 1;
      }
      assert t + 1 == 0;
      assert Trace(closed, 0, parent, start) == [];
      assert path == Trace(closed, |closed|, backNode.parent, start) + [backNode.position, end];

      path := [start] + path;
      assert Last(closed) == backNode;
    }
  }

  /** `computeShortestPath` (and the static `AStar::search`): a fresh engine, one
      search, and the route only when the search succeeded. */
  method ComputeShortestPath(grid: Grid, start: Point, end: Point, fuel: nat) returns (r: PathResult)
    requires WellFormedGrid(grid)
    ensures r == ShortestPath(grid, start, end, fuel)
    ensures r.Found? ==> IsRoute(grid, start, end, r.path)
  {
    var engine := new AStar(grid, start, end);
    var outcome := engine.Search(fuel);
    if outcome == Reached {
      SeedIsConsistent(grid, start, end);
      RunKeepsInvariant(grid, start, end, Registries([Seed(start, end)], []), fuel);
      var path := engine.Path();
      r := Found(path);
    } else if outcome == Exhausted {
      r := NoPath;
    } else {
      r := GaveUp;
    }
  }
}
