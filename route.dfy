/** Path reconstruction (`path`) and the composed entry point (`computeShortestPath`)
    as functions, with the shape of the route they produce. */
module Route {
  import opened Geometry
  import opened GridMap
  import opened Registry
  import opened Search

  /** The backward scan of `path` over `cl[..n]`: walking from index n-1 down to 0,
      an entry whose position is the tracked parent and is not the start is
      prepended, and its own parent becomes the tracked one. */
  function Trace(cl: seq<Node>, n: nat, parent: Point, start: Point): (ts: seq<Point>)
    requires n <= |cl|
    ensures forall i :: 0 <= i < |ts| ==> ts[i] != start && InList(cl, ts[i])
    ensures ts != [] ==> ts[|ts| - 1] == parent
    decreases n
  {
    if n == 0 then []
    else
      var nd := cl[n - 1];
      if nd.position == parent && nd.position != start then Trace(cl, n - 1, nd.parent, start) + [nd.position]
      else Trace(cl, n - 1, parent, start)
  }

  /** Each point is one axis step from the next. */
  predicate Stepwise(ps: seq<Point>)
  {
    forall i :: 0 <= i < |ps| - 1 ==> Adjacent(ps[i], ps[i + 1])
  }

  /** Extending a stepwise sequence by a point one step from its last keeps it stepwise. */
  lemma StepwiseSnoc(ps: seq<Point>, q: Point)
    requires Stepwise(ps) && (ps != [] ==> Adjacent(ps[|ps| - 1], q))
    ensures Stepwise(ps + [q])
  {
    var r := ps + [q];
    forall i | 0 <= i < |r| - 1 ensures Adjacent(r[i], r[i + 1]) {
      if i < |ps| - 1 {
        assert r[i] == ps[i] && r[i + 1] == ps[i + 1];
      }
    }
  }

  /** Consecutive scanned positions are one step apart whenever every non-start entry
      lies one step from its parent: each one found is the parent of the next. */
  lemma {:induction false} TraceSteps(cl: seq<Node>, n: nat, parent: Point, start: Point)
    requires n <= |cl|
    requires forall j :: 0 <= j < n && cl[j].position != start ==> Adjacent(cl[j].parent, cl[j].position)
    ensures Stepwise(Trace(cl, n, parent, start))
    decreases n
  {
    if n > 0 {
      var nd := cl[n - 1];
      if nd.position == parent && nd.position != start {
        TraceSteps(cl, n - 1, nd.parent, start);
        StepwiseSnoc(Trace(cl, n - 1, nd.parent, start), nd.position);
      } else {
        TraceSteps(cl, n - 1, parent, start);
      }
    }
  }

  /** `path()`: start, the scanned positions, the last closed position, the end. */
  function RouteOf(start: Point, end: Point, closed: seq<Node>): (r: seq<Point>)
    requires closed != []
    ensures |r| >= 3 && r[0] == start && r[|r| - 1] == end
    ensures r[|r| - 2] == Last(closed).position
    ensures forall i :: 1 <= i < |r| - 2 ==> r[i] != start && InList(closed, r[i])
  {
    var back := Last(closed);
    [start] + Trace(closed, |closed|, back.parent, start) + [back.position, end]
  }

  /** The shape of every route the engine returns: from start to end; from its second
      point on, each point is one axis step from the next; every point strictly
      between the ends is a walkable cell other than the end, and is the start only
      when it is the one just before the end. */
  predicate IsRoute(g: Grid, start: Point, end: Point, path: seq<Point>)
    requires WellFormedGrid(g)
  {
    && |path| >= 3
    && path[0] == start
    && path[|path| - 1] == end
    && Stepwise(path[1..])
    && (forall i :: 1 <= i < |path| - 2 ==> path[i] != start)
    && (forall i :: 1 <= i < |path| - 1 ==> path[i] == start || (Walkable(g, path[i]) && path[i] != end))
  }

  /** What `computeShortestPath` returns; `GaveUp` is the model's fuel running out. */
  datatype PathResult = Found(path: seq<Point>) | NoPath | GaveUp

  /** A registered node away from the start was pushed by an expansion. */
  lemma NonStartNode(g: Grid, start: Point, end: Point, s: seq<Node>, p: Point)
    requires WellFormedGrid(g)
    requires forall n :: n in s ==> WellFormedNode(g, start, end, n)
    requires InList(s, p) && p != start
    ensures Walkable(g, p) && p != end
  {
    var j :| 0 <= j < |s| && s[j].position == p;
    assert s[j] in s;
  }

  /** After a successful search, `path()` is a route in the sense of `IsRoute`. */
  lemma {:induction false} ReachedRoute(g: Grid, start: Point, end: Point, reg: Registries)
    requires WellFormedGrid(g) && Consistent(g, start, end, reg) && SeedFirst(start, end, reg)
    requires reg.closed != [] && Adjacent(Last(reg.closed).position, end)
    ensures IsRoute(g, start, end, RouteOf(start, end, reg.closed))
  {
    var cl := reg.closed;
    var back := Last(cl);
    var path := RouteOf(start, end, cl);
    var ts := Trace(cl, |cl|, back.parent, start);
    assert path == [start] + ts + [back.position, end];
    assert back in cl;
    forall j | 0 <= j < |cl| && cl[j].position != start ensures Adjacent(cl[j].parent, cl[j].position) {
      assert cl[j] in cl;
    }
    TraceSteps(cl, |cl|, back.parent, start);
    if back.cost == 0 {
      // The seed is last as well as first, so it is the only closed node.
      assert |cl| == 1;
      assert ts == [];
    }
    StepwiseSnoc(ts, back.position);
    StepwiseSnoc(ts + [back.position], end);
    assert path[1..] == ts + [back.position] + [end];
    forall i | 1 <= i < |path| - 1 ensures path[i] == start || (Walkable(g, path[i]) && path[i] != end) {
      if path[i] != start {
        if i == |path| - 2 {
          assert InList(cl, path[i]) by { assert cl[|cl| - 1].position == path[i]; }
        }
        NonStartNode(g, start, end, cl, path[i]);
      }
    }
  }

  /** `computeShortestPath`: search from the seeded registries, then rebuild the
      route only on success; the absent result exactly when `open` ran dry. */
  function ShortestPath(g: Grid, start: Point, end: Point, fuel: nat): (r: PathResult)
    requires WellFormedGrid(g)
    ensures r.NoPath? <==> Run(g, end, Registries([Seed(start, end)], []), fuel).outcome == Exhausted
    ensures r.GaveUp? <==> Run(g, end, Registries([Seed(start, end)], []), fuel).outcome == OutOfFuel
    ensures r.Found? ==> IsRoute(g, start, end, r.path)
  {
    var init := Registries([Seed(start, end)], []);
    SeedIsConsistent(g, start, end);
    RunKeepsInvariant(g, start, end, init, fuel);
    var run := Run(g, end, init, fuel);
    match run.outcome
    case Reached =>
      ReachedRoute(g, start, end, run.after);
      Found(RouteOf(start, end, run.after.closed))
    case Exhausted => NoPath
    case OutOfFuel => GaveUp
  }

  /** When the end is a neighbour of the start, the first expansion finds it and the
      route repeats the start: `[start, start, end]`. */
  lemma StartBesideEnd(g: Grid, start: Point, end: Point, fuel: nat)
    requires WellFormedGrid(g) && fuel >= 1 && Adjacent(start, end)
    ensures ShortestPath(g, start, end, fuel) == Found([start, start, end])
  {
    var seed := Seed(start, end);
    var moved := Registries([], [seed]);
    var e := Expand(g, end, seed, moved, 0);
    assert e.found;
    SeedIsConsistent(g, start, end);
    ExpandKeepsInvariant(g, start, end, seed, moved, 0);
    assert e.after.closed == [seed] by {
      assert forall n :: n in e.after.closed ==> n == seed;
    }
    var run := Run(g, end, Registries([seed], []), fuel);
    assert run == SearchRun(Reached, e.after) by {
      assert [seed][1..] == [];
      assert [] + [seed] == [seed];
    }
    assert Trace([seed], 1, seed.parent, start) == [];
    assert RouteOf(start, end, [seed]) == [start, start, end];
  }

  /** A start whose four neighbours are all off the map or walls, none of them the
      end, yields no route. With the start equal to the end this is the only way to
      get no route: see `StartIsEnd` for a start with a walkable neighbour. */
  lemma EnclosedStart(g: Grid, start: Point, end: Point, fuel: nat)
    requires WellFormedGrid(g) && fuel >= 1
    requires forall j :: 0 <= j < |AllNeighbours| ==>
      Plus(start, AllNeighbours[j]) != end && !Walkable(g, Plus(start, AllNeighbours[j]))
    ensures ShortestPath(g, start, end, fuel) == NoPath
  {
    var seed := Seed(start, end);
    var moved := Registries([], [seed]);
    ExpandDeadEnd(g, end, seed, moved, 0);
    assert [seed][1..] == [];
    assert Run(g, end, Registries([seed], []), fuel).outcome == Exhausted;
  }

  /** The backward scan tracking the start as parent finds nothing, because it never
      prepends the start. */
  lemma {:induction false} TraceFromStart(cl: seq<Node>, n: nat, start: Point)
    requires n <= |cl|
    ensures Trace(cl, n, start, start) == []
    decreases n
  {
    if n > 0 {
      TraceFromStart(cl, n - 1, start);
    }
  }

  /** Expanding the seed when the start is the end: nothing is found, and the child
      at the first walkable neighbour heads `open` in a consistent state. */
  lemma SeedExpansion(g: Grid, s: Point, k: int)
    requires WellFormedGrid(g)
    requires 0 <= k < |AllNeighbours| && Walkable(g, Plus(s, AllNeighbours[k]))
    requires forall j :: 0 <= j < k ==> !Walkable(g, Plus(s, AllNeighbours[j]))
    ensures var e := Expand(g, s, Seed(s, s), Registries([], [Seed(s, s)]), 0);
      && !e.found
      && e.after.open != [] && e.after.open[0] == Child(s, Seed(s, s), Plus(s, AllNeighbours[k]))
      && Consistent(g, s, s, e.after)
      && e.after.closed != [] && e.after.closed[0] == Seed(s, s)
  {
    var seed := Seed(s, s);
    var q := Plus(s, AllNeighbours[k]);
    var child := Child(s, seed, q);
    var moved := Registries([], [seed]);
    forall j | 0 <= j < |AllNeighbours| ensures Plus(s, AllNeighbours[j]) != s {
      AdjacentIsUnitStep(s, Plus(s, AllNeighbours[j]));
    }
    ExpandSkip(g, s, seed, moved, 0, k);
    var first := Offer(s, seed, moved, q);
    assert first.open == [child];
    forall j | k + 1 <= j < |AllNeighbours| ensures Plus(s, AllNeighbours[j]) != q {
    }
    ExpandKeepsHead(g, s, seed, first, k + 1, child);
    ExpandFound(g, s, seed, moved, 0);
    SeedIsConsistent(g, s, s);
    MoveKeepsInvariant(g, s, s, Registries([seed], []));
    assert [seed][1..] == [] && [] + [seed] == [seed];
    ExpandKeepsInvariant(g, s, s, seed, moved, 0);
  }

  /** A start equal to the end is never recognised at the seed, since the end is only
      ever looked for among neighbours. The seed's first walkable neighbour `q` is
      the first node pushed and the next one expanded, and the start is among its
      neighbours, so the route is `[start, q, start]`. */
  lemma StartIsEnd(g: Grid, s: Point, k: int, fuel: nat)
    requires WellFormedGrid(g) && fuel >= 2
    requires 0 <= k < |AllNeighbours| && Walkable(g, Plus(s, AllNeighbours[k]))
    requires forall j :: 0 <= j < k ==> !Walkable(g, Plus(s, AllNeighbours[j]))
    ensures ShortestPath(g, s, s, fuel) == Found([s, Plus(s, AllNeighbours[k]), s])
  {
    var seed := Seed(s, s);
    var q := Plus(s, AllNeighbours[k]);
    var child := Child(s, seed, q);
    SeedExpansion(g, s, k);
    var e1 := Expand(g, s, seed, Registries([], [seed]), 0);

    // `child` is closed last and sees the start beside it.
    var moved2 := Registries(e1.after.open[1..], e1.after.closed + [child]);
    MoveKeepsInvariant(g, s, s, e1.after);
    ExpandKeepsInvariant(g, s, s, child, moved2, 0);
    var back := if k < 2 then k + 2 else k - 2;
    assert Plus(q, AllNeighbours[back]) == s;
    ExpandFound(g, s, child, moved2, 0);
    var e2 := Expand(g, s, child, moved2, 0);

    assert [seed][1..] == [] && [] + [seed] == [seed];
    assert Run(g, s, Registries([seed], []), fuel) == Run(g, s, e1.after, fuel - 1);
    assert Run(g, s, e1.after, fuel - 1) == SearchRun(Reached, e2.after);
    TraceFromStart(e2.after.closed, |e2.after.closed|, s);
  }
}
