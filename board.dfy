/** `serializeBoard`: a text picture of the map with a path drawn on it, one line of
    `width` characters per row, each followed by a newline. */
module Board {
  import opened Geometry
  import opened GridMap

  /** Non-negative dimensions and one buffer value per cell. */
  predicate Dimensions(g: Grid)
  {
    0 <= g.width && 0 <= g.height && WellFormedGrid(g)
  }

  /** A path cell is drawn `x`, else a wall `#`, else floor `.`. */
  function CellChar(g: Grid, path: seq<Point>, x: int, y: int): char
    requires Dimensions(g) && 0 <= x < g.width && 0 <= y < g.height
  {
    if Point(x, y) in path then 'x'
    else if GetCost(g, Point(x, y)) == 1 then '#' else '.'
  }

  /** The first `n` characters of row `y`. */
  function RowText(g: Grid, path: seq<Point>, y: int, n: nat): (r: string)
    requires Dimensions(g) && 0 <= y < g.height && n <= g.width
    ensures |r| == n
    ensures forall x :: 0 <= x < n ==> r[x] == CellChar(g, path, x, y)
  {
    if n == 0 then [] else RowText(g, path, y, n - 1) + [CellChar(g, path, n - 1, y)]
  }

  /** The first `n` rows, each with its newline. */
  function Rows(g: Grid, path: seq<Point>, n: nat): (r: string)
    requires Dimensions(g) && n <= g.height
    ensures |r| == n * (g.width + 1)
  {
    if n == 0 then []
    else Rows(g, path, n - 1) + RowText(g, path, n - 1, g.width) + ['\n']
  }

  /** The whole picture, as the JavaScript version returns it. */
  function Picture(g: Grid, path: seq<Point>): string
    requires Dimensions(g)
  {
    Rows(g, path, g.height)
  }

  /** Cell (x, y) of a grid with rows of `stride` characters lies before row `n`. */
  lemma {:induction false} RowBefore(x: int, y: int, n: int, stride: int)
    requires 0 <= y < n && 0 <= x < stride
    ensures 0 <= y * stride + x < n * stride
    decreases n
  {
    if n > 1 {
      if y < n - 1 {
        RowBefore(x, y, n - 1, stride);
      } else {
        RowBefore(x, y - 1, n - 1, stride);
      }
    }
  }

  /** Indexing a concatenation reads the part that holds the index. */
  lemma IndexAppend(a: string, b: string, i: int)
    requires 0 <= i < |a| + |b|
    ensures i < |a| ==> (a + b)[i] == a[i]
    ensures |a| <= i ==> (a + b)[i] == b[i - |a|]
  {
  }

  lemma {:induction false} RowsAt(g: Grid, path: seq<Point>, n: nat, x: int, y: int)
    requires Dimensions(g) && n <= g.height
    requires 0 <= y < n && 0 <= x <= g.width
    ensures 0 <= y * (g.width + 1) + x < |Rows(g, path, n)|
    ensures Rows(g, path, n)[y * (g.width + 1) + x] ==
      if x == g.width then '\n' else CellChar(g, path, x, y)
    decreases n
  {
    var stride := g.width + 1;
    var prev := Rows(g, path, n - 1);
    var tail := RowText(g, path, n - 1, g.width) + ['\n'];
    assert Rows(g, path, n) == prev + tail;
    RowBefore(x, y, n, stride);
    if y < n - 1 {
      RowsAt(g, path, n - 1, x, y);
      IndexAppend(prev, tail, y * stride + x);
    } else {
      IndexAppend(prev, tail, |prev| + x);
    }
  }

  /** The layout both versions promise: `height` lines of `width` characters plus a
      newline each; a cell on the path is `x`, otherwise `#` for a wall and `.` for
      floor. */
  lemma BoardLayout(g: Grid, path: seq<Point>, x: int, y: int)
    requires Dimensions(g) && 0 <= y < g.height && 0 <= x <= g.width
    ensures |Picture(g, path)| == g.height * (g.width + 1)
    ensures Picture(g, path)[y * (g.width + 1) + x] ==
      if x == g.width then '\n'
      else if Point(x, y) in path then 'x'
      else if GetCost(g, Point(x, y)) == 1 then '#'
      else '.'
  {
    RowsAt(g, path, g.height, x, y);
  }

  /** Updating one element of a concatenation updates the part that holds it. */
  lemma UpdateAppend(a: string, b: string, i: int, c: char)
    requires 0 <= i < |a| + |b|
    ensures i < |a| ==> (a + b)[i := c] == a[i := c] + b
    ensures |a| <= i ==> (a + b)[i := c] == a + b[i - |a| := c]
  {
  }

  /** Adding a point to the path redraws exactly its cell in the row that holds it. */
  lemma {:induction false} RowMark(g: Grid, path: seq<Point>, pt: Point, y: int, n: nat)
    requires Dimensions(g) && 0 <= y < g.height && n <= g.width
    ensures RowText(g, path + [pt], y, n) ==
      if y == pt.y && 0 <= pt.x < n then RowText(g, path, y, n)[pt.x := 'x']
      else RowText(g, path, y, n)
    decreases n
  {
    if n > 0 {
      RowMark(g, path, pt, y, n - 1);
      var before := RowText(g, path, y, n - 1);
      var c := CellChar(g, path, n - 1, y);
      assert Point(n - 1, y) in path + [pt] <==> Point(n - 1, y) in path || Point(n - 1, y) == pt;
      if y == pt.y && 0 <= pt.x < n - 1 {
        UpdateAppend(before, [c], pt.x, 'x');
      } else if y == pt.y && pt.x == n - 1 {
        UpdateAppend(before, [c], pt.x, 'x');
        assert [c][0 := 'x'] == ['x'];
      }
    }
  }

  /** Marking a character of the rows before the last one. */
  lemma MarkBefore(prev: string, marked: string, tail: string, i: int)
    requires 0 <= i < |prev| && marked == prev[i := 'x']
    ensures marked + tail == (prev + tail)[i := 'x']
  {
    UpdateAppend(prev, tail, i, 'x');
  }

  /** Marking a character of the last row. */
  lemma MarkLast(prev: string, row: string, marked: string, k: int)
    requires 0 <= k < |row| && marked == row[k := 'x']
    ensures prev + (marked + ['\n']) == (prev + (row + ['\n']))[|prev| + k := 'x']
  {
    UpdateAppend(prev, row + ['\n'], |prev| + k, 'x');
    UpdateAppend(row, ['\n'], k, 'x');
  }

  /** Adding an in-bounds point to the path redraws exactly its cell of the board. */
  lemma {:induction false} RowsMark(g: Grid, path: seq<Point>, pt: Point, n: nat)
    requires Dimensions(g) && n <= g.height && IsValid(g, pt)
    ensures 0 <= pt.y < n ==> 0 <= pt.y * (g.width + 1) + pt.x < |Rows(g, path, n)|
    ensures Rows(g, path + [pt], n) ==
      if pt.y < n then Rows(g, path, n)[pt.y * (g.width + 1) + pt.x := 'x']
      else Rows(g, path, n)
    decreases n
  {
    if n > 0 {
      var stride := g.width + 1;
      RowsMark(g, path, pt, n - 1);
      RowMark(g, path, pt, n - 1, g.width);
      var prev := Rows(g, path, n - 1);
      var row := RowText(g, path, n - 1, g.width);
      if pt.y < n - 1 {
        RowBefore(pt.x, pt.y, n - 1, stride);
        MarkBefore(prev, Rows(g, path + [pt], n - 1), row + ['\n'], pt.y * stride + pt.x);
      } else if pt.y == n - 1 {
        MarkLast(prev, row, RowText(g, path + [pt], n - 1, g.width), pt.x);
      }
      if pt.y < n {
        RowBefore(pt.x, pt.y, n, stride);
      }
    }
  }

  /** JavaScript `serializeBoard`: collect the path into a set, then append one
      character per cell and a newline per row. */
  method SerializeBoard(g: Grid, path: seq<Point>) returns (board: string)
    requires Dimensions(g)
    ensures board == Picture(g, path)
  {
    var nodes: set<Point> := {};
    for t := 0 to |path|
      invariant forall p :: p in nodes <==> p in path[..t]
    {
      nodes := nodes + {path[t]};
    }
    assert path[..|path|] == path;

    board := "";
    for y := 0 to g.height
      invariant board == Rows(g, path, y)
    {
      for x := 0 to g.width
        invariant board == Rows(g, path, y) + RowText(g, path, y, x)
      {
        if Point(x, y) in nodes {
          board := board + "x";
        } else {
          ValidCellIndex(g, Point(x, y));
          board := board + (if g.cells[y * g.width + x] == 1 then "#" else ".");
        }
      }

      board := board + "\n";
    }
  }

  /** A buffer holding the first `x` cells of row `y` from `row` on, then cell `x`,
      holds the first `x + 1`. */
  lemma CellFilled(g: Grid, copy: array<char>, y: int, row: int, x: int)
    requires Dimensions(g) && 0 <= y < g.height && 0 <= x < g.width
    requires 0 <= row && row + x < copy.Length
    requires copy[row..row + x] == RowText(g, [], y, x)
    requires copy[row + x] == CellChar(g, [], x, y)
    ensures copy[row..row + x + 1] == RowText(g, [], y, x + 1)
  {
    assert copy[row..row + x + 1] == copy[row..row + x] + [copy[row + x]];
  }

  /** A buffer holding rows `0 .. y-1` up to `row`, then row `y` and its newline,
      holds rows `0 .. y`. */
  lemma RowFilled(g: Grid, copy: array<char>, y: int, row: int)
    requires Dimensions(g) && 0 <= y < g.height
    requires 0 <= row && row + g.width < copy.Length
    requires copy[..row] == Rows(g, [], y)
    requires copy[row..row + g.width] == RowText(g, [], y, g.width)
    requires copy[row + g.width] == '\n'
    ensures copy[..row + g.width + 1] == Rows(g, [], y + 1)
  {
    assert copy[..row + g.width + 1] == copy[..row] + copy[row..row + g.width] + [copy[row + g.width]];
  }

  /** Row `y` starts `y` strides in and, with its newline, ends before row `y + 1`. */
  lemma RowBounds(y: int, height: int, stride: int)
    requires 0 <= y < height && 1 <= stride
    ensures 0 <= y * stride && y * stride + stride <= height * stride
    ensures (y + 1) * stride == y * stride + stride
  {
    RowBefore(0, y, height, stride);
    RowBefore(stride - 1, y, height, stride);
  }

  /** One pass of the outer fill loop of C++ `serializeBoard`: the newline at the
      end of row `y`, then a `#` or `.` per cell; nothing outside the row changes. */
  method FillRow(g: Grid, copy: array<char>, y: int, row: int)
    requires Dimensions(g) && 0 <= y < g.height
    requires 0 <= row && row + g.width < copy.Length
    modifies copy
    ensures copy[..row] == old(copy[..row])
    ensures copy[row..row + g.width] == RowText(g, [], y, g.width)
    ensures copy[row + g.width] == '\n'
    ensures copy[row + g.width + 1..] == old(copy[row + g.width + 1..])
  {
    copy[row + g.width] := '\n';
    for x := 0 to g.width
      invariant copy[..row] == old(copy[..row])
      invariant copy[row..row + x] == RowText(g, [], y, x)
      invariant copy[row + g.width] == '\n'
      invariant copy[row + g.width + 1..] == old(copy[row + g.width + 1..])
    {
      ValidCellIndex(g, Point(x, y));
      copy[row + x] := if g.cells[y * g.width + x] == 1 then '#' else '.';
      CellFilled(g, copy, y, row, x);
    }
  }

  /** Drawing one more path point into a finished buffer. */
  lemma MarkBuffer(g: Grid, path: seq<Point>, pt: Point)
    requires Dimensions(g) && IsValid(g, pt)
    ensures 0 <= pt.y * (g.width + 1) + pt.x < |Picture(g, path)|
    ensures Picture(g, path + [pt]) + ['\0'] == (Picture(g, path) + ['\0'])[pt.y * (g.width + 1) + pt.x := 'x']
  {
    RowsMark(g, path, pt, g.height);
    UpdateAppend(Picture(g, path), ['\0'], pt.y * (g.width + 1) + pt.x, 'x');
  }

  /** The fill loops of C++ `serializeBoard`: every row of the buffer gets its
      newline and its cells; the terminating NUL is kept. */
  method FillBuffer(g: Grid, copy: array<char>)
    requires Dimensions(g) && copy.Length == g.height * (g.width + 1) + 1
    requires copy[copy.Length - 1] == '\0'
    modifies copy
    ensures copy[..] == Picture(g, []) + ['\0']
  {
    var printWidth := g.width + 1;
    var size := copy.Length - 1;
    for y := 0 to g.height
      invariant copy[..y * printWidth] == Rows(g, [], y)
      invariant copy[size] == '\0'
    {
      RowBounds(y, g.height, printWidth);
      var row := y * printWidth;
      FillRow(g, copy, y, row);
      RowFilled(g, copy, y, row);
      assert copy[size] == copy[row + g.width + 1..][size - (row + g.width + 1)];
    }
    assert copy[..] == copy[..size] + [copy[size]];
  }

  /** C++ `serializeBoard`: fill a character buffer (`FillBuffer`), draw the path
      over it, and return every byte of the buffer, including its terminating NUL. */
  method SerializeBoardBuffer(g: Grid, path: seq<Point>) returns (board: string)
    requires Dimensions(g)
    requires forall i :: 0 <= i < |path| ==> IsValid(g, path[i])
    ensures board == Picture(g, path) + ['\0']
  {
    var printWidth := g.width + 1;
    var copy := new char[g.height * printWidth + 1];
    copy[g.height * printWidth] := '\0';
    FillBuffer(g, copy);

    for i := 0 to |path|
      invariant copy[..] == Picture(g, path[..i]) + ['\0']
    {
      var point := path[i];
      MarkBuffer(g, path[..i], point);
      copy[point.y * printWidth + point.x] := 'x';
      assert path[..i + 1] == path[..i] + [point];
    }
    assert path[..|path|] == path;

    board := copy[..];
  }
}
