/** The expansion step (`fillOpen`) and the FIFO search loop (`search`) as functions
    on the registries, with the invariant they keep. */
module Search {
  import opened Geometry
  import opened GridMap
  import opened Registry

  /** `getDistanceToEnd`: squared Euclidean distance, never square-rooted. */
  function DistanceToEnd(end: Point, p: Point): (d: int)
    ensures d >= 0
    ensures d == 0 <==> p == end
  {
    var dx := end.x - p.x;
    var dy := end.y - p.y;
    SumOfSquares(dx, dy);
    dx * dx + dy * dy
  }

  lemma SumOfSquares(a: int, b: int)
    ensures a * a >= 0 && b * b >= 0
    ensures a * a + b * b == 0 <==> a == 0 && b == 0
  {
    if a != 0 {
      assert a * a > 0 by {
        if a < 0 { assert a * a == (-a) * (-a); }
      }
    }
    if b != 0 {
      assert b * b > 0 by {
        if b < 0 { assert b * b == (-b) * (-b); }
      }
    }
  }

  /** The node `search` seeds `open` with: the start, parent (0, 0), cost 0. */
  function Seed(start: Point, end: Point): Node
  {
    Node(start, Point(0, 0), 0, DistanceToEnd(end, start))
  }

  /** A node `fillOpen` may push while expanding `node` through offset `k`. */
  predicate IsChild(g: Grid, end: Point, node: Node, n: Node)
    requires WellFormedGrid(g)
  {
    && (exists k :: 0 <= k < |AllNeighbours| && n.position == Plus(node.position, AllNeighbours[k]))
    && n.parent == node.position
    && n.cost == node.cost + 1
    && n.distance == DistanceToEnd(end, n.position)
    && Walkable(g, n.position)
    && n.position != end
  }

  /** What every registered node satisfies: the seed is the only cost-0 node; any
      other was pushed by an expansion, so it lies one step from its parent, on a
      walkable cell, and is not the end. */
  predicate WellFormedNode(g: Grid, start: Point, end: Point, n: Node)
    requires WellFormedGrid(g)
  {
    && n.distance == DistanceToEnd(end, n.position)
    && n.cost >= 0
    && (n.cost == 0 ==> n == Seed(start, end))
    && (n.cost > 0 ==> Adjacent(n.parent, n.position) && Walkable(g, n.position) && n.position != end)
  }

  /** Positions are unique across `open` and `closed` together, and every node is well formed. */
  predicate Consistent(g: Grid, start: Point, end: Point, reg: Registries)
    requires WellFormedGrid(g)
  {
    && UniquePositions(reg.open)
    && UniquePositions(reg.closed)
    && DisjointPositions(reg.open, reg.closed)
    && (forall n :: n in reg.open ==> WellFormedNode(g, start, end, n))
    && (forall n :: n in reg.closed ==> WellFormedNode(g, start, end, n))
  }

  /** The seed is the first node to be expanded, and it stays at the head of `closed`. */
  predicate SeedFirst(start: Point, end: Point, reg: Registries)
  {
    if reg.closed == [] then reg.open == [] || reg.open[0] == Seed(start, end)
    else reg.closed[0] == Seed(start, end)
  }

  /** `fillOpen(node)` from offset `k` on: `found` as soon as a neighbour is the end
      (tested before the bounds), otherwise each walkable neighbour is offered to the
      re-registration check and appended to `open` unless it is skipped. */
  datatype Expansion = Expansion(found: bool, after: Registries)

  function Expand(g: Grid, end: Point, node: Node, reg: Registries, k: nat): Expansion
    requires WellFormedGrid(g) && k <= |AllNeighbours|
    decreases |AllNeighbours| - k
  {
    if k == |AllNeighbours| then Expansion(false, reg)
    else
      var q := Plus(node.position, AllNeighbours[k]);
      if q == end then Expansion(true, reg)
      else if Walkable(g, q) then Expand(g, end, node, Offer(end, node, reg, q), k + 1)
      else Expand(g, end, node, reg, k + 1)
  }

  /** The child `fillOpen` builds for neighbour `q` of `node`. */
  function Child(end: Point, node: Node, q: Point): Node
  {
    Node(q, node.position, node.cost + 1, DistanceToEnd(end, q))
  }

  /** The body of `fillOpen` for one walkable neighbour `q`: the re-registration
      check with the child's score, then the child appended to `open` unless the
      check said to skip it. */
  function Offer(end: Point, node: Node, reg: Registries, q: Point): Registries
  {
    var child := Child(end, node, q);
    var r := Register(reg, q, Score(child));
    if r.registered then r.after
    else Registries(r.after.open + [child], r.after.closed)
  }

  /** An expansion succeeds exactly when one of the remaining neighbours is the end. */
  lemma {:induction false} ExpandFound(g: Grid, end: Point, node: Node, reg: Registries, k: nat)
    requires WellFormedGrid(g) && k <= |AllNeighbours|
    ensures Expand(g, end, node, reg, k).found <==>
      exists j :: k <= j < |AllNeighbours| && Plus(node.position, AllNeighbours[j]) == end
    decreases |AllNeighbours| - k
  {
    if k < |AllNeighbours| {
      var q := Plus(node.position, AllNeighbours[k]);
      if q != end {
        if Walkable(g, q) {
          ExpandFound(g, end, node, Offer(end, node, reg, q), k + 1);
        } else {
          ExpandFound(g, end, node, reg, k + 1);
        }
      }
    }
  }

  /** Offering a neighbour only erases entries and appends its child. */
  lemma OfferMembers(end: Point, node: Node, reg: Registries, q: Point)
    ensures var after := Offer(end, node, reg, q);
      && (forall n :: n in after.open ==> n in reg.open || n == Child(end, node, q))
      && (forall n :: n in after.closed ==> n in reg.closed)
  {
    RegisterEffect(reg, q, Score(Child(end, node, q)));
  }

  /** An expansion only adds children of `node` to `open` and only removes entries. */
  lemma {:induction false} ExpandMembers(g: Grid, end: Point, node: Node, reg: Registries, k: nat)
    requires WellFormedGrid(g) && k <= |AllNeighbours|
    ensures var e := Expand(g, end, node, reg, k);
      && (forall n :: n in e.after.open ==> n in reg.open || IsChild(g, end, node, n))
      && (forall n :: n in e.after.closed ==> n in reg.closed)
    decreases |AllNeighbours| - k
  {
    if k < |AllNeighbours| {
      var q := Plus(node.position, AllNeighbours[k]);
      if q != end {
        if Walkable(g, q) {
          ExpandMembers(g, end, node, Offer(end, node, reg, q), k + 1);
          OfferMembers(end, node, reg, q);
          assert IsChild(g, end, node, Child(end, node, q));
        } else {
          ExpandMembers(g, end, node, reg, k + 1);
        }
      }
    }
  }

  /** A node whose remaining neighbours are all off the map or walls, and none of
      them the end, changes neither registry. */
  lemma ExpandDeadEnd(g: Grid, end: Point, node: Node, reg: Registries, k: nat)
    requires WellFormedGrid(g) && k <= |AllNeighbours|
    requires forall j :: k <= j < |AllNeighbours| ==>
      Plus(node.position, AllNeighbours[j]) != end && !Walkable(g, Plus(node.position, AllNeighbours[j]))
    ensures Expand(g, end, node, reg, k) == Expansion(false, reg)
  {
    ExpandSkip(g, end, node, reg, k, |AllNeighbours|);
  }

  /** Neighbours `k .. m-1` that are off the map or walls, none of them the end, are
      passed over without touching the registries. */
  lemma {:induction false} ExpandSkip(g: Grid, end: Point, node: Node, reg: Registries, k: nat, m: nat)
    requires WellFormedGrid(g) && k <= m <= |AllNeighbours|
    requires forall j :: k <= j < m ==>
      Plus(node.position, AllNeighbours[j]) != end && !Walkable(g, Plus(node.position, AllNeighbours[j]))
    ensures Expand(g, end, node, reg, k) == Expand(g, end, node, reg, m)
    decreases m - k
  {
    if k < m {
      ExpandSkip(g, end, node, reg, k + 1, m);
    }
  }

  /** An expansion keeps the head of `open` when no remaining neighbour sits at its
      position: the check can only erase an entry at a neighbour's position, and
      children are appended at the back. */
  lemma {:induction false} ExpandKeepsHead(g: Grid, end: Point, node: Node, reg: Registries, k: nat, head: Node)
    requires WellFormedGrid(g) && k <= |AllNeighbours|
    requires reg.open != [] && reg.open[0] == head
    requires forall j :: k <= j < |AllNeighbours| ==> Plus(node.position, AllNeighbours[j]) != head.position
    ensures var e := Expand(g, end, node, reg, k);
      e.after.open != [] && e.after.open[0] == head
    decreases |AllNeighbours| - k
  {
    if k < |AllNeighbours| {
      var q := Plus(node.position, AllNeighbours[k]);
      if q != end {
        if Walkable(g, q) {
          var after := Offer(end, node, reg, q);
          var r := Register(reg, q, Score(Child(end, node, q)));
          var oi := FindByPosition(reg.open, q);
          assert oi != 0;
          assert r.after.open != [] && r.after.open[0] == head;
          ExpandKeepsHead(g, end, node, after, k + 1, head);
        } else {
          ExpandKeepsHead(g, end, node, reg, k + 1, head);
        }
      }
    }
  }

  /** How the search loop ended; `OutOfFuel` is the model's iteration bound. */
  datatype Outcome = Reached | Exhausted | OutOfFuel

  datatype SearchRun = SearchRun(outcome: Outcome, after: Registries)

  /** The `while (open nonempty)` loop of `search`: move the front of `open` to the
      back of `closed`, expand it, stop on success; at most `fuel` expansions. */
  function Run(g: Grid, end: Point, reg: Registries, fuel: nat): (r: SearchRun)
    requires WellFormedGrid(g)
    ensures r.outcome == Exhausted ==> r.after.open == []
    decreases fuel
  {
    if reg.open == [] then SearchRun(Exhausted, reg)
    else if fuel == 0 then SearchRun(OutOfFuel, reg)
    else
      var node := reg.open[0];
      var e := Expand(g, end, node, Registries(reg.open[1..], reg.closed + [node]), 0);
      if e.found then SearchRun(Reached, e.after)
      else Run(g, end, e.after, fuel - 1)
  }

  function Last(s: seq<Node>): Node
    requires s != []
  {
    s[|s| - 1]
  }

  /** One re-registration check keeps the invariant, never evicts the seed (a
      rediscovery of the start always scores worse), never evicts the node being
      expanded, and leaves `p` unregistered whenever it lets the caller re-add it. */
  lemma RegisterKeepsInvariant(g: Grid, start: Point, end: Point, reg: Registries, p: Point, distCost: int)
    requires WellFormedGrid(g) && Consistent(g, start, end, reg)
    requires reg.closed != [] && reg.closed[0] == Seed(start, end)
    requires p == start ==> Score(Seed(start, end)) < distCost
    requires p != Last(reg.closed).position
    ensures var r := Register(reg, p, distCost);
      && Consistent(g, start, end, r.after)
      && r.after.closed != [] && r.after.closed[0] == Seed(start, end)
      && Last(r.after.closed) == Last(reg.closed)
      && (!r.registered ==> !InList(r.after.open, p) && !InList(r.after.closed, p))
  {
    var r := Register(reg, p, distCost);
    RegisterEffect(reg, p, distCost);
    var ci := FindByPosition(reg.closed, p);
    if ci != -1 {
      if !r.registered {
        assert ci != 0 && ci != |reg.closed| - 1;
        RemoveAtKeepsUnique(reg.closed, ci, reg.open);
        assert !InList(reg.open, p);
      }
    } else {
      var oi := FindByPosition(reg.open, p);
      if oi != -1 && !r.registered {
        RemoveAtKeepsUnique(reg.open, oi, reg.closed);
      }
    }
  }

  /** Appending a fresh child at an unregistered position keeps the invariant. */
  lemma PushKeepsInvariant(g: Grid, start: Point, end: Point, reg: Registries, n: Node)
    requires WellFormedGrid(g) && Consistent(g, start, end, reg)
    requires !InList(reg.open, n.position) && !InList(reg.closed, n.position)
    requires WellFormedNode(g, start, end, n)
    ensures Consistent(g, start, end, Registries(reg.open + [n], reg.closed))
  {
    var o := reg.open + [n];
    forall i, j | 0 <= i < j < |o| ensures o[i].position != o[j].position {
      if j == |o| - 1 {
        assert o[i] == reg.open[i];
      }
    }
    forall i, j | 0 <= i < |o| && 0 <= j < |reg.closed| ensures o[i].position != reg.closed[j].position {
      if i == |o| - 1 {
        assert o[i] == n;
      }
    }
  }

  /** Offering a walkable neighbour of the last closed node (other than the end)
      keeps the invariant and leaves that node last. */
  lemma OfferKeepsInvariant(g: Grid, start: Point, end: Point, node: Node, reg: Registries, q: Point)
    requires WellFormedGrid(g) && Consistent(g, start, end, reg)
    requires reg.closed != [] && reg.closed[0] == Seed(start, end) && Last(reg.closed) == node
    requires Adjacent(node.position, q) && Walkable(g, q) && q != end
    ensures var after := Offer(end, node, reg, q);
      && Consistent(g, start, end, after)
      && after.closed != [] && after.closed[0] == Seed(start, end)
      && Last(after.closed) == node
  {
    assert node in reg.closed;
    var child := Child(end, node, q);
    AdjacentIsUnitStep(node.position, q);
    RegisterKeepsInvariant(g, start, end, reg, q, Score(child));
    var r := Register(reg, q, Score(child));
    if !r.registered {
      PushKeepsInvariant(g, start, end, r.after, child);
    }
  }

  /** Expanding the last closed node keeps the invariant and leaves that node last. */
  lemma {:induction false} ExpandKeepsInvariant(g: Grid, start: Point, end: Point, node: Node, reg: Registries, k: nat)
    requires WellFormedGrid(g) && k <= |AllNeighbours|
    requires Consistent(g, start, end, reg)
    requires reg.closed != [] && reg.closed[0] == Seed(start, end) && Last(reg.closed) == node
    ensures var e := Expand(g, end, node, reg, k);
      && Consistent(g, start, end, e.after)
      && e.after.closed != [] && e.after.closed[0] == Seed(start, end)
      && Last(e.after.closed) == node
    decreases |AllNeighbours| - k
  {
    if k < |AllNeighbours| {
      var q := Plus(node.position, AllNeighbours[k]);
      if q != end {
        if Walkable(g, q) {
          assert Adjacent(node.position, q);
          OfferKeepsInvariant(g, start, end, node, reg, q);
          ExpandKeepsInvariant(g, start, end, node, Offer(end, node, reg, q), k + 1);
        } else {
          ExpandKeepsInvariant(g, start, end, node, reg, k + 1);
        }
      }
    }
  }

  /** Moving the front of `open` to the back of `closed` keeps the invariant. */
  lemma MoveKeepsInvariant(g: Grid, start: Point, end: Point, reg: Registries)
    requires WellFormedGrid(g) && Consistent(g, start, end, reg) && reg.open != []
    ensures Consistent(g, start, end, Registries(reg.open[1..], reg.closed + [reg.open[0]]))
  {
    var node := reg.open[0];
    var moved := Registries(reg.open[1..], reg.closed + [node]);
    assert node in reg.open;
    forall i, j | 0 <= i < j < |moved.closed| ensures moved.closed[i].position != moved.closed[j].position {
      if j == |moved.closed| - 1 {
        assert moved.closed[i] == reg.closed[i];
      }
    }
    forall i, j | 0 <= i < |moved.open| && 0 <= j < |moved.closed|
      ensures moved.open[i].position != moved.closed[j].position
    {
      assert moved.open[i] == reg.open[i + 1];
      if j < |reg.closed| {
        assert moved.closed[j] == reg.closed[j];
      }
    }
  }

  /** The search loop keeps the invariant, and on success the last node it closed is
      one step from the end. */
  lemma {:induction false} RunKeepsInvariant(g: Grid, start: Point, end: Point, reg: Registries, fuel: nat)
    requires WellFormedGrid(g) && Consistent(g, start, end, reg) && SeedFirst(start, end, reg)
    ensures var r := Run(g, end, reg, fuel);
      && Consistent(g, start, end, r.after)
      && SeedFirst(start, end, r.after)
      && (r.outcome == Reached ==> r.after.closed != [] && Adjacent(Last(r.after.closed).position, end))
    decreases fuel
  {
    if reg.open != [] && fuel > 0 {
      var node := reg.open[0];
      var moved := Registries(reg.open[1..], reg.closed + [node]);
      MoveKeepsInvariant(g, start, end, reg);
      ExpandKeepsInvariant(g, start, end, node, moved, 0);
      ExpandFound(g, end, node, moved, 0);
      var e := Expand(g, end, node, moved, 0);
      if !e.found {
        RunKeepsInvariant(g, start, end, e.after, fuel - 1);
      }
    }
  }

  /** The state `search` starts from satisfies the invariant. */
  lemma SeedIsConsistent(g: Grid, start: Point, end: Point)
    requires WellFormedGrid(g)
    ensures Consistent(g, start, end, Registries([Seed(start, end)], []))
    ensures SeedFirst(start, end, Registries([Seed(start, end)], []))
  {
  }
}
