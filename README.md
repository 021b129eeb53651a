# A* grid engine — a verified Dafny model

This project models the path-finding core of `MyAstar.js` / `MyAstar.cc`. The JavaScript
and C++ versions agree line for line. The engine works on a flat occupancy map of
`width * height` integers in row-major order, where the value 1 marks a wall. Given a
start and an end cell, it keeps two registries of nodes, `open` and `closed`:

- A node is a position, a parent position, a step count `cost`, and the squared
  Euclidean `distance` to the end.
- `search` seeds `open` with the start. It then repeatedly moves the FRONT of `open` to
  the back of `closed` and expands that node (`fillOpen`). The order is strict FIFO, not
  lowest score first.
- `fillOpen` looks at the four axis neighbours in the order up, left, down, right. It
  succeeds as soon as a neighbour is the end; this test comes before the bounds and wall
  tests. Every other walkable neighbour is offered to `isPointRegistered`.
- `isPointRegistered` looks for an existing entry at that cell, in `closed` first and
  only then in `open`. An entry whose `cost + distance` is strictly smaller wins, and the
  newcomer is skipped. Otherwise that one entry is erased and the newcomer is appended
  to `open`.
- `path` rebuilds the route by scanning `closed` backwards and following parent
  positions: start, the scanned positions, the last closed position, the end.
- `serializeBoard` draws the map and a path as text. The JavaScript version returns
  `height` lines of `width` characters, each followed by a newline. The C++ version
  returns the same text plus the terminating NUL of its buffer.

Modules:

- `Geometry` — points, the point operators and the neighbour offsets.
- `GridMap` — the map, the bounds test and the cell read.
- `Registry` — nodes, both registries and the re-registration check, as functions.
- `Search` — the expansion step and the search loop, as functions on the registries,
  with the invariant they keep.
- `Route` — path reconstruction and the composed entry point, as functions, with the
  shape of the route.
- `Engine` — the `AStar` class. Its `open` and `closed` fields change in place, and
  each method is proved equal to the function that specifies it.
- `Board` — both `serializeBoard` versions.

The invariant proved for every state the search passes through:

- no grid position appears twice across `open` and `closed` together;
- every node's `distance` is the squared distance of its position to the end;
- the only node with cost 0 is the seed;
- every other node lies one axis step from its parent, is on a walkable cell, and is not
  the end;
- once `closed` is non-empty, the seed stays at its head.

From the invariant it follows that a successful search yields a route with these
properties:

- it runs from start to end;
- from its second point on, each point is one axis step from the next;
- its interior points are walkable cells other than the end, apart from a repeated start
  just before the end, which need not be walkable.

The first step, from the start to the first scanned position, is not claimed to be a
unit step. Nor is the route claimed to be shortest.

## Model

| member | source | states |
|---|---|---|
| `Geometry.PointOperators` | MyAstar.cc:18-28 | `==` holds exactly for equal points, `!=` is exactly its negation, and `+` adds componentwise, so subtracting the offset gives the point back |
| `Geometry.NeighbourOffsets` | MyAstar.cc:51-60 | there are four offsets, and an offset is among them exactly when it is a unit axis step: no diagonal and no zero move |
| `Geometry.AdjacentIsUnitStep` | MyAstar.cc:51-60 | a point is reached from another by one of the offsets exactly when their Manhattan distance is 1; such points always differ |
| `GridMap.ValidCellIndex` | MyAstar.js:38-44 | whenever the half-open bounds test passes, the index `y*width+x` lies in `[0, width*height)` |
| `Search.DistanceToEnd` | MyAstar.js:32-36 | the squared distance is never negative, and it is 0 exactly when the point is the end |
| `Engine.AStar.constructor` | MyAstar.js:19-30 | stores the map, start and end, and both registries start empty |
| `Registry.FindByPosition` | MyAstar.js:47-51 | the result is the first index whose position matches, or -1 exactly when no entry matches |
| `Registry.RemoveAt` | MyAstar.js:57 | `splice(i, 1)` / `erase` shortens the list by one and shifts every later entry down by one place |
| `Registry.RegisterEffect` | MyAstar.cc:106-130 | a skip changes nothing; a cell in neither list is never skipped and changes nothing; a closed match leaves `open` alone, and without one `closed` is untouched; at most one entry is erased and none is added |
| `Registry.RegisterClosedMatch` | MyAstar.js:46-60 | for any closed entry at the cell: skip exactly when its `cost + distance` is strictly below `distCost`, otherwise erase exactly that entry and leave `open` as it was |
| `Registry.RegisterOpenMatch` | MyAstar.js:62-72 | when no closed entry is at the cell, the same skip-or-erase rule applies to the open entry at the cell |
| `Engine.AStar.IsPointRegistered` | MyAstar.cc:106-130 | the result and the new `open` / `closed` fields are exactly those of `Register` on the old fields |
| `Search.ExpandFound` | MyAstar.js:116-139 | an expansion reports success exactly when one of the four neighbours is the end |
| `Search.OfferMembers` | MyAstar.js:124-134 | offering one neighbour only erases entries and appends the child built for that neighbour |
| `Search.ExpandMembers` | MyAstar.js:117-136 | every node an expansion adds to `open` is in bounds and off the walls, is not the end, has `cost` one more than its parent's, has the expanded node's position as its parent, and has `distance` equal to its squared distance to the end; `closed` only loses entries |
| `Search.ExpandDeadEnd` | MyAstar.js:117-138 | a node whose neighbours are all off the map or walls, none of them the end, changes neither registry and reports no success |
| `Search.ExpandSkip` | MyAstar.js:117-138 | offsets whose neighbour is neither the end nor walkable are passed over without any effect |
| `Search.ExpandKeepsHead` | MyAstar.js:117-138 | an expansion none of whose neighbours is at the cell of the head of `open` leaves that head in place |
| `Engine.AStar.FillOpen` | MyAstar.cc:170-187 | the result and the new fields are exactly those of `Expand` on the old fields |
| `Search.RegisterKeepsInvariant` | MyAstar.cc:106-130 | during an expansion the check keeps the invariant; it never evicts the seed or the node being expanded; and when it answers false, the cell is registered nowhere |
| `Search.PushKeepsInvariant` | MyAstar.cc:180-182 | appending a well-formed child at an unregistered cell keeps positions unique and the invariant intact |
| `Search.OfferKeepsInvariant` | MyAstar.cc:176-183 | one check-then-append step keeps the invariant, keeps the seed first and keeps the expanded node last in `closed` |
| `Search.ExpandKeepsInvariant` | MyAstar.cc:170-187 | a whole expansion keeps the invariant, keeps the seed first and keeps the expanded node last |
| `Search.Run` | MyAstar.js:82-91 | the loop reports an empty search only when `open` has run dry |
| `Search.MoveKeepsInvariant` | MyAstar.js:83-85 | moving the front of `open` to the back of `closed` keeps the invariant |
| `Search.RunKeepsInvariant` | MyAstar.cc:132-147 | every search state satisfies the invariant; on success, `closed` is non-empty and its last node is one step from the end |
| `Search.SeedIsConsistent` | MyAstar.cc:133 | the seeded state (the start, parent (0, 0), cost 0) satisfies the invariant |
| `Engine.AStar.Search` | MyAstar.js:74-92 | the outcome and the new fields are exactly those of `Run` after the start node is appended to `open` |
| `Route.Trace` | MyAstar.js:101-109 | every position the backward scan prepends is a `closed` position other than the start, and the last one found is the parent it began from |
| `Route.TraceSteps` | MyAstar.cc:156-163 | when every non-start entry is one step from its parent, consecutive scanned positions are one step apart |
| `Route.RouteOf` | MyAstar.js:94-114 | the route has at least 3 points; it starts at the start and ends at the end; its second-to-last point is the last closed position; every point in between is a closed position other than the start |
| `Engine.AStar.Path` | MyAstar.cc:149-168 | the list built by the reverse-iterator loop is exactly `RouteOf` of the fields |
| `Route.ReachedRoute` | MyAstar.cc:149-168 | after a successful search the route is well shaped: start to end, unit steps from its second point on, interior points walkable and not the end, except that the start may be repeated just before the end, and that repeated start need not be walkable |
| `Route.ShortestPath` | MyAstar.js:146-154 | no route exactly when `search` emptied `open`; otherwise a well-shaped route |
| `Engine.ComputeShortestPath` | MyAstar.cc:78-86 | a fresh engine, one search, and `path()` only on success; the result is `ShortestPath` and hence well shaped |
| `Route.StartBesideEnd` | MyAstar.cc:170-174 | when the end is a neighbour of the start, the result is `[start, start, end]` |
| `Route.SeedExpansion` | MyAstar.js:116-136 | expanding the seed when the start is the end: no success, the first walkable neighbour's child heads `open`, the seed heads `closed`, and the invariant holds |
| `Route.StartIsEnd` | MyAstar.js:74-92 | when the start is the end and `k` is the first offset with a walkable neighbour, the route is `[start, start + offset k, start]`, given fuel for two expansions |
| `Route.TraceFromStart` | MyAstar.js:101-109 | a backward scan that begins from the start's position prepends nothing, since the start is never scanned |
| `Route.EnclosedStart` | MyAstar.js:82-91 | a start whose four neighbours are all off the map or walls, none of them the end, yields no route; with the start equal to the end this is the only case without a route (see `Route.StartIsEnd`) |
| `Board.RowText` | MyAstar.js:164-170 | a row has one character per cell, namely that cell's character |
| `Board.Rows` | MyAstar.js:163-173 | `n` rows take `n * (width + 1)` characters |
| `Board.BoardLayout` | MyAstar.js:156-176 | the text has `height * (width + 1)` characters; the character at `y*(width+1)+width` is a newline; at `y*(width+1)+x` it is `x` for a path cell, otherwise `#` when the map value is 1, otherwise `.` |
| `Board.SerializeBoard` | MyAstar.js:156-176 | the string built by the nested loops is exactly `Picture`, the board whose layout `BoardLayout` states |
| `Board.RowsMark` | MyAstar.cc:224-225 | adding one in-bounds point to the path changes exactly its cell at `y*(width+1)+x`, to `x` |
| `Board.FillRow` | MyAstar.cc:217-221 | one pass of the outer fill loop writes row `y` and its newline and leaves the rest of the buffer as it was |
| `Board.FillBuffer` | MyAstar.cc:216-222 | the filled buffer is the board without a path, followed by the NUL |
| `Board.SerializeBoardBuffer` | MyAstar.cc:210-227 | the returned bytes are the JavaScript board followed by the terminating NUL, so there are `height*(width+1)+1` of them |

## Left out

- Termination of `search`. The loop has no iteration cap, and a rediscovery with an equal score evicts and re-appends. The model gives `search` a `fuel` bound of one expansion per unit. `OutOfFuel` / `GaveUp` are outcomes of the model only. Every other property is proved for any amount of fuel.
- `allocateMap` (MyAstar.js:142-144, MyAstar.cc:202-204) only allocates the map. The map is a parameter here, with `|cells| == width * height` as its precondition.
- `index.js`, `main` with its timing and `map.cc`, the Emscripten bindings and `toJS`/`fromJS` are not part of this model. They are I/O, timing and foreign glue.
- The `temporaryNeighbour` scratch object (MyAstar.js:12-16) is an allocation trick. The neighbour is a plain value.
- C++ `int` overflow in `getDistanceToEnd`, `getCost` and the buffer indices is not modelled. Integers are unbounded.
- JavaScript `isPointRegistered` falls off its end and returns `undefined` when the cell is in neither list. The caller only tests it for falsity, so the model returns `false`, as the C++ version does.
- JavaScript `serializeBoard` keys its set by the string `x` + "x" + `y`. Distinct integer points give distinct keys, so the model uses a set of points.
- The map is a sequence of integers. The JavaScript `Uint8Array` byte range is not modelled.
- `Engine.AStar.Path` requires a non-empty `closed`. On an empty list the JavaScript version throws and the C++ `back()` is undefined. It is only called after a successful search, which always leaves `closed` non-empty.
- `Board.FillBuffer`: the body of the C++ outer fill loop (MyAstar.cc:217-221) is the separate method `Board.FillRow`, which keeps each proof small. The writes and their order are unchanged.
- `Board.SerializeBoardBuffer` requires every path point to be on the map. An off-grid point makes the C++ version write outside its buffer or over a row's newline, where the JavaScript version ignores it.
- Whether the route is shortest is not claimed, and neither is whether its first step, from the start to the first scanned position, is a unit step. FIFO expansion and the backward scan guarantee neither.
