/** Search nodes, the open and closed registries, and the re-registration check
    (`isPointRegistered`) that decides whether a rediscovered cell is skipped or
    replaces its existing entry. */
module Registry {
  import opened Geometry

  /** One registered cell: where it is, where it was reached from, the number of
      steps from the start and the squared distance to the end. */
  datatype Node = Node(position: Point, parent: Point, cost: int, distance: int)

  /** The combined score compared on re-registration. */
  function Score(n: Node): int
  {
    n.cost + n.distance
  }

  /** The two registries: `open` waits for expansion, `closed` has been expanded. */
  datatype Registries = Registries(open: seq<Node>, closed: seq<Node>)

  /** Outcome of the re-registration check: `registered` means "skip", and `after`
      is the state of both registries once the check has run. */
  datatype Registration = Registration(registered: bool, after: Registries)

  predicate InList(s: seq<Node>, p: Point)
  {
    exists j :: 0 <= j < |s| && s[j].position == p
  }

  /** No two entries of `s` share a position. */
  predicate UniquePositions(s: seq<Node>)
  {
    forall i, j :: 0 <= i < j < |s| ==> s[i].position != s[j].position
  }

  /** No position is in both lists. */
  predicate DisjointPositions(a: seq<Node>, b: seq<Node>)
  {
    forall i, j :: 0 <= i < |a| && 0 <= j < |b| ==> a[i].position != b[j].position
  }

  /** `findIndex` / `std::find` by position: the first matching index, or -1. */
  function FindByPosition(s: seq<Node>, p: Point): (i: int)
    ensures -1 <= i < |s|
    ensures i == -1 <==> !InList(s, p)
    ensures i != -1 ==> s[i].position == p && forall j :: 0 <= j < i ==> s[j].position != p
  {
    if s == [] then -1
    else if s[0].position == p then 0
    else
      var i := FindByPosition(s[1..], p);
      if i == -1 then -1 else i + 1
  }

  /** `splice(i, 1)` / `erase`: drop the entry at index `i`. */
  function RemoveAt(s: seq<Node>, i: int): (r: seq<Node>)
    requires 0 <= i < |s|
    ensures |r| == |s| - 1
    ensures forall j :: 0 <= j < |r| ==> r[j] == if j < i then s[j] else s[j + 1]
  {
    s[..i] + s[i + 1..]
  }

  /** The re-registration check for a cell `p` rediscovered with combined score
      `distCost`: closed is consulted first, open only when closed has no entry
      at `p`; an entry with a strictly smaller score wins and nothing changes,
      otherwise that one entry is evicted and the caller may re-add `p`. */
  function Register(reg: Registries, p: Point, distCost: int): Registration
  {
    var ci := FindByPosition(reg.closed, p);
    if ci != -1 then
      if Score(reg.closed[ci]) < distCost then Registration(true, reg)
      else Registration(false, Registries(reg.open, RemoveAt(reg.closed, ci)))
    else
      var oi := FindByPosition(reg.open, p);
      if oi != -1 then
        if Score(reg.open[oi]) < distCost then Registration(true, reg)
        else Registration(false, Registries(RemoveAt(reg.open, oi), reg.closed))
      else Registration(false, reg)
  }

  /** What the check can do to the registries: a skip changes nothing; an
      unregistered `p` is never skipped; a match in `closed` leaves `open` alone and
      the reverse; at most one entry is erased, and nothing is added. */
  lemma RegisterEffect(reg: Registries, p: Point, distCost: int)
    ensures var r := Register(reg, p, distCost);
      && (r.registered ==> r.after == reg)
      && (!InList(reg.closed, p) && !InList(reg.open, p) ==> r == Registration(false, reg))
      && (InList(reg.closed, p) ==> r.after.open == reg.open)
      && (!InList(reg.closed, p) ==> r.after.closed == reg.closed)
      && |reg.open| + |reg.closed| <= |r.after.open| + |r.after.closed| + 1
      && (forall n :: n in r.after.open ==> n in reg.open)
      && (forall n :: n in r.after.closed ==> n in reg.closed)
  {
  }

  /** Closed branch, stated against any matching index of a list without duplicate
      positions: skip when the entry scores strictly better, otherwise remove exactly
      that entry and leave `open` alone. */
  lemma RegisterClosedMatch(reg: Registries, p: Point, distCost: int, i: int)
    requires UniquePositions(reg.closed)
    requires 0 <= i < |reg.closed| && reg.closed[i].position == p
    ensures Register(reg, p, distCost) ==
              if Score(reg.closed[i]) < distCost then Registration(true, reg)
              else Registration(false, Registries(reg.open, RemoveAt(reg.closed, i)))
  {
    var ci := FindByPosition(reg.closed, p);
    assert ci == i;
  }

  /** Open branch: consulted only when no closed entry sits at `p`; same rule. */
  lemma RegisterOpenMatch(reg: Registries, p: Point, distCost: int, i: int)
    requires UniquePositions(reg.open) && !InList(reg.closed, p)
    requires 0 <= i < |reg.open| && reg.open[i].position == p
    ensures Register(reg, p, distCost) ==
              if Score(reg.open[i]) < distCost then Registration(true, reg)
              else Registration(false, Registries(RemoveAt(reg.open, i), reg.closed))
  {
    var oi := FindByPosition(reg.open, p);
    assert oi == i;
  }

  /** Removing one entry keeps positions unique and disjoint from another list, and
      the removed position is gone when it was unique. */
  lemma RemoveAtKeepsUnique(s: seq<Node>, i: int, other: seq<Node>)
    requires 0 <= i < |s| && UniquePositions(s)
    ensures UniquePositions(RemoveAt(s, i))
    ensures DisjointPositions(s, other) ==> DisjointPositions(RemoveAt(s, i), other)
    ensures DisjointPositions(other, s) ==> DisjointPositions(other, RemoveAt(s, i))
    ensures !InList(RemoveAt(s, i), s[i].position)
  {
    var r := RemoveAt(s, i);
    forall a, b | 0 <= a < b < |r| ensures r[a].position != r[b].position {
      var a' := if a < i then a else a + 1;
      var b' := if b < i then b else b + 1;
      assert r[a] == s[a'] && r[b] == s[b'] && a' < b';
    }
  }
}
