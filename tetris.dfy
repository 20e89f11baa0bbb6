/**
 * The board logic of the falling-blocks game: piece shapes and their rotation,
 * the cells a piece covers, the grid built from the locked cells, the collision
 * test, row clearing, and the move, lock and score steps of one frame.
 */
module Tetris {
  import opened Wrappers

  const COLS: int := 10
  const ROWS: int := 20

  /** A board position (x, y): x is the column, y the row, counted from the top. */
  type Pos = (int, int)

  datatype Color = Rgb(r: int, g: int, b: int)

  /** A piece's block matrix: rows of 0/1 entries. */
  type Shape = seq<seq<int>>

  /** The seven pieces, in the order of the `SHAPES` table. */
  const SHAPES: seq<Shape> := [
    [[1, 1, 1, 1]],
    [[1, 1], [1, 1]],
    [[0, 1, 0], [1, 1, 1]],
    [[1, 1, 0], [0, 1, 1]],
    [[0, 1, 1], [1, 1, 0]],
    [[1, 0, 0], [1, 1, 1]],
    [[0, 0, 1], [1, 1, 1]]
  ]

  // ---------------------------------------------------------------- shapes and rotation

  /** The number of tuples `zip(*rows)` yields: the length of the shortest row, 0 without rows. */
  function Width(shape: Shape): (w: nat)
    ensures forall i | 0 <= i < |shape| :: w <= |shape[i]|
    ensures shape != [] ==> exists i | 0 <= i < |shape| :: w == |shape[i]|
    ensures shape == [] ==> w == 0
  {
    if shape == [] then 0
    else if |shape| == 1 then |shape[0]|
    else
      var w := Width(shape[1..]);
      assert forall i | 1 <= i < |shape| :: shape[i] == shape[1..][i - 1];
      if |shape[0]| < w then |shape[0]| else w
  }

  /** One quarter-turn, `[list(row) for row in zip(*shape[::-1])]`. */
  function Rotate(shape: Shape): Shape {
    seq(Width(shape), j requires 0 <= j < Width(shape) =>
      seq(|shape|, k requires 0 <= k < |shape| => shape[|shape| - 1 - k][j]))
  }

  /** `n` quarter-turns, one after the other. */
  function RotateTimes(shape: Shape, n: nat): Shape {
    if n == 0 then shape else Rotate(RotateTimes(shape, n - 1))
  }

  /** The blocks of a piece turned `rotation` times: only `rotation % 4` turns are made. */
  function BlocksOf(shape: Shape, rotation: int): Shape {
    RotateTimes(shape, rotation % 4)
  }

  /** A matrix of `rows` rows, each of `cols` entries. */
  predicate Rect(shape: Shape, rows: nat, cols: nat) {
    |shape| == rows && forall i | 0 <= i < rows :: |shape[i]| == cols
  }

  /** An r by c shape turns into a c by r shape whose entry (j, k) is the entry (r-1-k, j). */
  lemma RotateRect(shape: Shape, rows: nat, cols: nat)
    requires Rect(shape, rows, cols) && rows > 0
    ensures Rect(Rotate(shape), cols, rows)
    ensures forall j, k | 0 <= j < cols && 0 <= k < rows :: Rotate(shape)[j][k] == shape[rows - 1 - k][j]
  {
    assert Width(shape) == cols;
  }

  /** Two quarter-turns turn an r by c shape upside down and mirror it. */
  lemma RotateTwice(shape: Shape, rows: nat, cols: nat)
    requires Rect(shape, rows, cols) && rows > 0 && cols > 0
    ensures Rect(Rotate(Rotate(shape)), rows, cols)
    ensures forall a, b | 0 <= a < rows && 0 <= b < cols ::
      Rotate(Rotate(shape))[a][b] == shape[rows - 1 - a][cols - 1 - b]
  {
    RotateRect(shape, rows, cols);
    RotateRect(Rotate(shape), cols, rows);
  }

  /** Four quarter-turns bring every non-empty rectangular shape back to itself. */
  lemma RotateFour(shape: Shape, rows: nat, cols: nat)
    requires Rect(shape, rows, cols) && rows > 0 && cols > 0
    ensures RotateTimes(shape, 4) == shape
  {
    var half := Rotate(Rotate(shape));
    RotateTwice(shape, rows, cols);
    RotateTwice(half, rows, cols);
    var full := Rotate(Rotate(half));
    assert RotateTimes(shape, 1) == Rotate(shape);
    assert RotateTimes(shape, 2) == half;
    assert RotateTimes(shape, 3) == Rotate(half);
    assert RotateTimes(shape, 4) == full;
    forall a | 0 <= a < rows
      ensures full[a] == shape[a]
    {
      assert forall b | 0 <= b < cols :: full[a][b] == shape[a][b];
    }
  }

  /** Rotations r and r + 4 show the same blocks. */
  lemma BlocksPeriodic(shape: Shape, rotation: int)
    ensures BlocksOf(shape, rotation + 4) == BlocksOf(shape, rotation)
  {
    assert (rotation + 4) % 4 == rotation % 4;
  }

  /** The positions (row, column) of the filled entries. */
  function Filled(shape: Shape): set<(int, int)> {
    set i, j | 0 <= i < |shape| && 0 <= j < |shape[i]| && shape[i][j] != 0 :: (i, j)
  }

  /** The image of a set of positions under the quarter-turn's map (i, j) to (j, rows-1-i). */
  function Turned(s: set<(int, int)>, rows: int): set<(int, int)> {
    set p | p in s :: (p.1, rows - 1 - p.0)
  }

  /** The quarter-turn's map on positions is one-to-one. */
  lemma {:induction false} TurnImageSize(s: set<(int, int)>, rows: int)
    ensures |Turned(s, rows)| == |s|
  {
    if s != {} {
      var p :| p in s;
      var rest := s - {p};
      TurnImageSize(rest, rows);
      TurnStep(s, p, rows);
    }
  }

  /** Turning a set with one more position adds exactly that position's image. */
  lemma TurnStep(s: set<(int, int)>, p: (int, int), rows: int)
    requires p in s
    ensures Turned(s, rows) == Turned(s - {p}, rows) + {(p.1, rows - 1 - p.0)}
    ensures (p.1, rows - 1 - p.0) !in Turned(s - {p}, rows)
  {
    var rest := s - {p};
    var q := (p.1, rows - 1 - p.0);
    forall z | z in Turned(s, rows)
      ensures z in Turned(rest, rows) + {q}
    {
      var x :| x in s && z == (x.1, rows - 1 - x.0);
      if x != p {
        assert x in rest;
      }
    }
    forall z | z in Turned(rest, rows)
      ensures z in Turned(s, rows) && z != q
    {
      var x :| x in rest && z == (x.1, rows - 1 - x.0);
      assert x in s && x != p;
    }
  }

  /** A quarter-turn keeps the number of filled cells. */
  lemma RotateKeepsFilled(shape: Shape, rows: nat, cols: nat)
    requires Rect(shape, rows, cols) && rows > 0
    ensures |Filled(Rotate(shape))| == |Filled(shape)|
  {
    RotateRect(shape, rows, cols);
    var r := Rotate(shape);
    var image := Turned(Filled(shape), rows);
    forall q | q in Filled(r)
      ensures q in image
    {
      assert (rows - 1 - q.1, q.0) in Filled(shape);
    }
    forall q | q in image
      ensures q in Filled(r)
    {
      var p :| p in Filled(shape) && q == (p.1, rows - 1 - p.0);
      assert r[p.1][rows - 1 - p.0] == shape[p.0][p.1];
    }
    assert Filled(r) == image;
    TurnImageSize(Filled(shape), rows);
  }

  // ---------------------------------------------------------------- the cells a piece covers

  /** The cells of one block row at row `y`, in column order. */
  function RowCells(row: seq<int>, x: int, y: int): seq<Pos> {
    if row == [] then []
    else RowCells(row[..|row| - 1], x, y) + (if row[|row| - 1] != 0 then [(x + |row| - 1, y)] else [])
  }

  /** `get_cells`: `(x + j, y + i)` for every filled block (i, j), row by row. */
  function ShapeCells(blocks: Shape, x: int, y: int): seq<Pos> {
    if blocks == [] then []
    else ShapeCells(blocks[..|blocks| - 1], x, y) + RowCells(blocks[|blocks| - 1], x, y + |blocks| - 1)
  }

  lemma {:induction false} RowCellsSpec(row: seq<int>, x: int, y: int)
    ensures Distinct(RowCells(row, x, y))
    ensures forall p :: p in RowCells(row, x, y) <==> p.1 == y && 0 <= p.0 - x < |row| && row[p.0 - x] != 0
  {
    if row != [] {
      var init := row[..|row| - 1];
      RowCellsSpec(init, x, y);
      var tail := if row[|row| - 1] != 0 then [(x + |row| - 1, y)] else [];
      assert forall p | p in RowCells(init, x, y) :: p.0 - x < |row| - 1;
      DistinctConcat(RowCells(init, x, y), tail);
      forall p
        ensures p in RowCells(row, x, y) <==> p.1 == y && 0 <= p.0 - x < |row| && row[p.0 - x] != 0
      {
        if 0 <= p.0 - x < |row| - 1 {
          assert row[p.0 - x] == init[p.0 - x];
        }
      }
    }
  }

  /** Block (p.1 - y, p.0 - x) of `blocks` exists and is filled. */
  predicate Covers(blocks: Shape, x: int, y: int, p: Pos) {
    0 <= p.1 - y < |blocks| && 0 <= p.0 - x < |blocks[p.1 - y]| && blocks[p.1 - y][p.0 - x] != 0
  }

  /** A piece covers exactly the translated filled blocks. */
  lemma {:induction false} ShapeCellsMembers(blocks: Shape, x: int, y: int)
    ensures forall p :: p in ShapeCells(blocks, x, y) <==> Covers(blocks, x, y, p)
  {
    if blocks != [] {
      var n := |blocks| - 1;
      var init := blocks[..n];
      var upper := ShapeCells(init, x, y);
      var last := RowCells(blocks[n], x, y + n);
      assert ShapeCells(blocks, x, y) == upper + last;
      ShapeCellsMembers(init, x, y);
      RowCellsSpec(blocks[n], x, y + n);
      forall p
        ensures p in upper + last <==> Covers(blocks, x, y, p)
      {
        if p.1 - y == n {
          assert p !in upper;
        } else {
          assert p !in last;
          if 0 <= p.1 - y < n {
            assert blocks[p.1 - y] == init[p.1 - y];
          }
        }
      }
    }
  }

  /** A piece covers each of its cells once. */
  lemma {:induction false} ShapeCellsDistinct(blocks: Shape, x: int, y: int)
    ensures Distinct(ShapeCells(blocks, x, y))
  {
    if blocks != [] {
      var n := |blocks| - 1;
      var init := blocks[..n];
      var upper := ShapeCells(init, x, y);
      var last := RowCells(blocks[n], x, y + n);
      assert ShapeCells(blocks, x, y) == upper + last;
      ShapeCellsDistinct(init, x, y);
      ShapeCellsMembers(init, x, y);
      RowCellsSpec(blocks[n], x, y + n);
      assert forall p | p in upper :: p.1 - y < n;
      DistinctConcat(upper, last);
    }
  }

  /** A piece covers exactly the translated filled blocks, each once. */
  lemma ShapeCellsSpec(blocks: Shape, x: int, y: int)
    ensures Distinct(ShapeCells(blocks, x, y))
    ensures forall p :: p in ShapeCells(blocks, x, y) <==> Covers(blocks, x, y, p)
  {
    ShapeCellsMembers(blocks, x, y);
    ShapeCellsDistinct(blocks, x, y);
  }

  // ---------------------------------------------------------------- the piece

  /** A falling piece: where it stands, its block matrix, its colour and how often it was turned. */
  class Tetromino {
    var x: int
    var y: int
    const shape: Shape
    const color: Color
    var rotation: int

    constructor (x: int, y: int, shape: Shape, color: Color)
      ensures this.x == x && this.y == y && this.shape == shape && this.color == color
      ensures rotation == 0
    {
      this.x := x;
      this.y := y;
      this.shape := shape;
      this.color := color;
      rotation := 0;
    }

    /** The piece stands at (x, y) turned `rotation` times. */
    predicate At(x: int, y: int, rotation: int)
      reads this
    {
      this.x == x && this.y == y && this.rotation == rotation
    }

    /** The cells the piece covers where it stands now. */
    function Cells(): seq<Pos>
      reads this
    {
      ShapeCells(BlocksOf(shape, rotation), x, y)
    }

    /** The `blocks` property: the shape turned `rotation % 4` times. */
    method Blocks() returns (b: Shape)
      ensures b == BlocksOf(shape, rotation)
    {
      b := shape;
      var n := 0;
      while n < rotation % 4
        invariant 0 <= n <= rotation % 4
        invariant b == RotateTimes(shape, n)
      {
        b := Rotate(b);
        n := n + 1;
      }
    }

    /** `get_cells`, row by row and column by column. */
    method GetCells() returns (cells: seq<Pos>)
      ensures cells == Cells()
    {
      var b := Blocks();
      var px, py := x, y;
      cells := [];
      var i := 0;
      while i < |b|
        invariant 0 <= i <= |b|
        invariant cells == ShapeCells(b[..i], px, py)
      {
        cells := AddRowCells(cells, b[i], px, py + i);
        ShapeCellsSnoc(b, i, px, py);
        i := i + 1;
      }
      assert b[..|b|] == b;
    }
  }

  /** The inner loop of `get_cells`: one block row's cells appended in column order. */
  method AddRowCells(cells: seq<Pos>, row: seq<int>, x: int, y: int) returns (out: seq<Pos>)
    ensures out == cells + RowCells(row, x, y)
  {
    out := cells;
    var j := 0;
    while j < |row|
      invariant 0 <= j <= |row|
      invariant out == cells + RowCells(row[..j], x, y)
    {
      if row[j] != 0 {
        out := out + [(x + j, y)];
      }
      RowCellsSnoc(row, j, x, y);
      j := j + 1;
    }
    assert row[..|row|] == row;
  }

  lemma RowCellsSnoc(row: seq<int>, j: nat, x: int, y: int)
    requires j < |row|
    ensures RowCells(row[..j + 1], x, y) ==
      RowCells(row[..j], x, y) + (if row[j] != 0 then [(x + j, y)] else [])
  {
    TakeSnoc(row, j);
    assert row[..j + 1][..j] == row[..j];
  }

  lemma ShapeCellsSnoc(blocks: Shape, i: nat, x: int, y: int)
    requires i < |blocks|
    ensures ShapeCells(blocks[..i + 1], x, y) == ShapeCells(blocks[..i], x, y) + RowCells(blocks[i], x, y + i)
  {
    TakeSnoc(blocks, i);
    assert blocks[..i + 1][..i] == blocks[..i];
  }

  // ---------------------------------------------------------------- the grid and the collision test

  /** A board of ROWS rows of COLS cells, each empty or holding a colour. */
  type Grid = seq<seq<Option<Color>>>

  predicate IsGrid(grid: Grid) {
    |grid| == ROWS && forall y | 0 <= y < ROWS :: |grid[y]| == COLS
  }

  /** What the locked cells put at (x, y). */
  function At(locked: map<Pos, Color>, x: int, y: int): Option<Color> {
    if (x, y) in locked then Some(locked[(x, y)]) else None
  }

  /** `create_grid`: the board shows the locked cells on it; keys off the board are not shown. */
  method CreateGrid(locked: map<Pos, Color>) returns (grid: Grid)
    ensures IsGrid(grid)
    ensures forall y, x | 0 <= y < ROWS && 0 <= x < COLS :: grid[y][x] == At(locked, x, y)
  {
    grid := seq(ROWS, _ => seq(COLS, _ => None));
    var y := 0;
    while y < ROWS
      invariant 0 <= y <= ROWS && IsGrid(grid)
      invariant forall r, x | 0 <= r < y && 0 <= x < COLS :: grid[r][x] == At(locked, x, r)
      invariant forall r, x | y <= r < ROWS && 0 <= x < COLS :: grid[r][x] == None
    {
      var x := 0;
      while x < COLS
        invariant 0 <= x <= COLS && IsGrid(grid)
        invariant forall r, c | 0 <= r < y && 0 <= c < COLS :: grid[r][c] == At(locked, c, r)
        invariant forall c | 0 <= c < x :: grid[y][c] == At(locked, c, y)
        invariant forall c | x <= c < COLS :: grid[y][c] == None
        invariant forall r, c | y < r < ROWS && 0 <= c < COLS :: grid[r][c] == None
      {
        if (x, y) in locked {
          grid := grid[y := grid[y][x := Some(locked[(x, y)])]];
        }
        x := x + 1;
      }
      y := y + 1;
    }
  }

  /**
   * A cell a piece may occupy: on the board's columns, not below the floor, and,
   * when it is on the board, not on a locked cell. Cells above the top row are allowed.
   */
  predicate CellFree(grid: Grid, p: Pos)
    requires IsGrid(grid)
  {
    0 <= p.0 < COLS && p.1 < ROWS && (p.1 >= 0 ==> grid[p.1][p.0].None?)
  }

  predicate Fits(grid: Grid, cells: seq<Pos>)
    requires IsGrid(grid)
  {
    forall p | p in cells :: CellFree(grid, p)
  }

  /** A piece of this shape, placed at (x, y) and turned `rotation` times, fits the grid. */
  predicate Lands(grid: Grid, shape: Shape, x: int, y: int, rotation: int)
    requires IsGrid(grid)
  {
    Fits(grid, ShapeCells(BlocksOf(shape, rotation), x, y))
  }

  /** `valid_space`: the piece fits exactly when every cell it covers is free. */
  method ValidSpace(t: Tetromino, grid: Grid) returns (ok: bool)
    requires IsGrid(grid)
    ensures ok == Fits(grid, t.Cells())
  {
    var cells := t.GetCells();
    var k := 0;
    while k < |cells|
      invariant 0 <= k <= |cells|
      invariant forall m | 0 <= m < k :: CellFree(grid, cells[m])
    {
      var (cx, cy) := cells[k];
      if cx < 0 || cx >= COLS || cy >= ROWS {
        assert cells[k] in cells && !CellFree(grid, cells[k]);
        return false;
      }
      if cy >= 0 && grid[cy][cx].Some? {
        assert cells[k] in cells && !CellFree(grid, cells[k]);
        return false;
      }
      k := k + 1;
    }
    return true;
  }

  // ---------------------------------------------------------------- clearing rows

  /** The cells that drop when row `y` is cleared: the board's columns, from the top row down to `y`. */
  predicate InBand(p: Pos, y: int) {
    0 <= p.0 < COLS && 0 <= p.1 <= y
  }

  /**
   * Where the content of `p` comes from once row `y` is cleared: a cell of the band
   * takes the one above it, the top row of the band empties, every other cell stays.
   */
  function ClearedFrom(p: Pos, y: int): Option<Pos> {
    if !InBand(p, y) then Some(p)
    else if p.1 == 0 then None
    else Some((p.0, p.1 - 1))
  }

  /** The locked cells after row `y` is deleted and every row above it moves down by one. */
  function ClearRowSpec(locked: map<Pos, Color>, y: int): (r: map<Pos, Color>)
    ensures forall p :: p in r <==> ClearedFrom(p, y).Some? && ClearedFrom(p, y).value in locked
    ensures forall p | p in r :: r[p] == locked[ClearedFrom(p, y).value]
  {
    var stay := set p | p in locked && !InBand(p, y);
    var drop := set p | p in locked && 0 <= p.0 < COLS && 0 <= p.1 < y :: (p.0, p.1 + 1);
    map p | p in stay + drop :: locked[ClearedFrom(p, y).value]
  }

  /** The first column at or right of `x` whose cell in row `y` is not locked. */
  function FirstMissing(locked: map<Pos, Color>, y: int, x: int): (r: Option<Pos>)
    requires 0 <= x <= COLS
    ensures r.None? <==> forall c | x <= c < COLS :: (c, y) in locked
    ensures r.Some? ==> r.value.1 == y && x <= r.value.0 < COLS && r.value !in locked
    ensures r.Some? ==> forall c | x <= c < r.value.0 :: (c, y) in locked
    decreases COLS - x
  {
    if x == COLS then None
    else if (x, y) !in locked then Some((x, y))
    else FirstMissing(locked, y, x + 1)
  }

  /**
   * Clearing one full row: the row's cells are deleted column by column, which
   * raises KeyError at the first one that is not locked; otherwise the rows above drop.
   */
  function ClearRowResult(locked: map<Pos, Color>, y: int): Result<map<Pos, Color>, Pos> {
    match FirstMissing(locked, y, 0)
    case Some(p) => Err(p)
    case None => Ok(ClearRowSpec(locked, y))
  }

  /** Every column of row `y` is filled in `grid`. */
  predicate RowFull(grid: Grid, y: int)
    requires IsGrid(grid) && 0 <= y < ROWS
  {
    forall x | 0 <= x < COLS :: grid[y][x].Some?
  }

  /**
   * `clear_rows` from row `y` upwards, with `cleared` rows cleared so far: a row is
   * judged full by `grid` as it was passed in, and cleared in `locked` as it is now.
   */
  function ClearFrom(grid: Grid, locked: map<Pos, Color>, y: int, cleared: nat): (r: Result<(nat, map<Pos, Color>), Pos>)
    requires IsGrid(grid) && y < ROWS
    ensures r.Ok? ==> cleared <= r.value.0 <= cleared + (if y < 0 then 0 else y + 1)
    ensures r.Err? ==> 0 <= r.error.0 < COLS && 0 <= r.error.1 <= y
    decreases y + 1
  {
    if y < 0 then Ok((cleared, locked))
    else if RowFull(grid, y) then
      match ClearRowResult(locked, y)
      case Err(p) => Err(p)
      case Ok(m) => ClearFrom(grid, m, y - 1, cleared + 1)
    else ClearFrom(grid, locked, y - 1, cleared)
  }

  /**
   * Where the content of `p` comes from while row `y` is being cleared, once the rows
   * below `yy` have dropped and, in row `yy`, the columns left of `x`.
   */
  function DropFrom(p: Pos, y: int, yy: int, x: int): Option<Pos> {
    if !InBand(p, y) || p.1 < yy then Some(p)
    else if p.1 == yy then (if p.0 < x then None else Some(p))
    else if p.1 == yy + 1 then (if p.0 < x then Some((p.0, yy)) else None)
    else Some((p.0, p.1 - 1))
  }

  /** `m` holds what `DropFrom` says it takes from `locked`. */
  ghost predicate Tracks(m: map<Pos, Color>, locked: map<Pos, Color>, y: int, yy: int, x: int) {
    forall p ::
      (p in m <==> DropFrom(p, y, yy, x).Some? && DropFrom(p, y, yy, x).value in locked) &&
      (p in m ==> m[p] == locked[DropFrom(p, y, yy, x).value])
  }

  /** The row-deleting loop of `clear_rows` for one full row `y`. */
  method DeleteRow(locked: map<Pos, Color>, y: int) returns (r: Result<map<Pos, Color>, Pos>)
    requires 0 <= y < ROWS
    ensures r.Err? <==> FirstMissing(locked, y, 0).Some?
    ensures r.Err? ==> r.error == FirstMissing(locked, y, 0).value
    ensures r.Ok? ==> Tracks(r.value, locked, y, y - 1, 0)
  {
    var m := locked;
    var x := 0;
    while x < COLS
      invariant 0 <= x <= COLS
      invariant FirstMissing(locked, y, 0) == FirstMissing(locked, y, x)
      invariant forall p :: p in m <==> p in locked && !(p.1 == y && 0 <= p.0 < x)
      invariant forall p | p in m :: m[p] == locked[p]
    {
      if (x, y) !in m {
        return Err((x, y));
      }
      m := m - {(x, y)};
      x := x + 1;
    }
    return Ok(m);
  }

  /** One step of the dropping loop: column `x` of row `yy` moves down into row `yy + 1`. */
  lemma DropStep(m: map<Pos, Color>, locked: map<Pos, Color>, y: int, yy: int, x: int)
    requires 0 <= yy < y && 0 <= x < COLS
    requires Tracks(m, locked, y, yy, x)
    ensures (x, yy) in m ==> Tracks((m - {(x, yy)})[(x, yy + 1) := m[(x, yy)]], locked, y, yy, x + 1)
    ensures (x, yy) !in m ==> Tracks(m, locked, y, yy, x + 1)
  {
    assert DropFrom((x, yy), y, yy, x) == Some((x, yy));
    assert DropFrom((x, yy + 1), y, yy, x) == None;
    forall p | p != (x, yy) && p != (x, yy + 1)
      ensures DropFrom(p, y, yy, x + 1) == DropFrom(p, y, yy, x)
    {
    }
  }

  /** A finished row `yy` is the same state as an unstarted row `yy - 1`. */
  lemma DropRowDone(y: int, yy: int)
    ensures forall p :: DropFrom(p, y, yy, COLS) == DropFrom(p, y, yy - 1, 0)
  {
  }

  /** Once every row above `y` has dropped, the cells are where `ClearedFrom` says. */
  lemma DropDone(y: int)
    ensures forall p :: DropFrom(p, y, -1, 0) == ClearedFrom(p, y)
  {
  }

  /** The dropping loop of `clear_rows`: the rows above `y`, bottom-up, each column moved down by one. */
  method DropRows(m0: map<Pos, Color>, ghost locked: map<Pos, Color>, y: int) returns (m: map<Pos, Color>)
    requires 0 <= y < ROWS
    requires Tracks(m0, locked, y, y - 1, 0)
    ensures m == ClearRowSpec(locked, y)
  {
    m := m0;
    var yy := y - 1;
    while yy >= 0
      invariant -1 <= yy < y
      invariant Tracks(m, locked, y, yy, 0)
    {
      var x := 0;
      while x < COLS
        invariant 0 <= x <= COLS
        invariant Tracks(m, locked, y, yy, x)
      {
        DropStep(m, locked, y, yy, x);
        if (x, yy) in m {
          var v := m[(x, yy)];
          m := (m - {(x, yy)})[(x, yy + 1) := v];
        }
        x := x + 1;
      }
      DropRowDone(y, yy);
      yy := yy - 1;
    }
    DropDone(y);
    var spec := ClearRowSpec(locked, y);
    assert forall p :: p in m <==> p in spec;
  }

  /** `clear_rows(grid, locked)`: the number of rows cleared and the new locked cells, or the KeyError's key. */
  method ClearRows(grid: Grid, locked: map<Pos, Color>) returns (r: Result<(nat, map<Pos, Color>), Pos>)
    requires IsGrid(grid)
    ensures r == ClearFrom(grid, locked, ROWS - 1, 0)
  {
    var cleared: nat := 0;
    var m := locked;
    var y := ROWS - 1;
    while y >= 0
      invariant -1 <= y < ROWS
      invariant ClearFrom(grid, m, y, cleared) == ClearFrom(grid, locked, ROWS - 1, 0)
    {
      if RowFull(grid, y) {
        cleared := cleared + 1;
        var deleted := DeleteRow(m, y);
        if deleted.Err? {
          return Err(deleted.error);
        }
        m := DropRows(deleted.value, m, y);
      }
      y := y - 1;
    }
    return Ok((cleared, m));
  }

  /** The number of rows among 0..y that `grid` shows full. */
  function FullRows(grid: Grid, y: int): nat
    requires IsGrid(grid) && y < ROWS
    decreases y + 1
  {
    if y < 0 then 0 else (if RowFull(grid, y) then 1 else 0) + FullRows(grid, y - 1)
  }

  /** When no KeyError is raised, `clear_rows` reports one cleared row per full row of the grid. */
  lemma {:induction false} ClearCount(grid: Grid, locked: map<Pos, Color>, y: int, cleared: nat)
    requires IsGrid(grid) && y < ROWS
    ensures ClearFrom(grid, locked, y, cleared).Ok? ==>
      ClearFrom(grid, locked, y, cleared).value.0 == cleared + FullRows(grid, y)
    decreases y + 1
  {
    if y >= 0 {
      if RowFull(grid, y) {
        var step := ClearRowResult(locked, y);
        if step.Ok? {
          ClearCount(grid, step.value, y - 1, cleared + 1);
        }
      } else {
        ClearCount(grid, locked, y - 1, cleared);
      }
    }
  }

  /** Without a full row nothing is cleared and the locked cells stay as they are. */
  lemma {:induction false} ClearNothing(grid: Grid, locked: map<Pos, Color>, y: int, cleared: nat)
    requires IsGrid(grid) && y < ROWS
    requires forall r | 0 <= r <= y :: !RowFull(grid, r)
    ensures ClearFrom(grid, locked, y, cleared) == Ok((cleared, locked))
    decreases y + 1
  {
    if y >= 0 {
      ClearNothing(grid, locked, y - 1, cleared);
    }
  }

  /** Row `row` is the only full row among 0..y of `grid`. */
  predicate OnlyFull(grid: Grid, row: int, y: int)
    requires IsGrid(grid) && y < ROWS
  {
    0 <= row <= y && RowFull(grid, row) && forall r | 0 <= r <= y && r != row :: !RowFull(grid, r)
  }

  /**
   * One full row whose cells are all locked is cleared: the count is one and the
   * locked cells are those of `ClearRowSpec`.
   */
  lemma {:induction false} ClearSingle(grid: Grid, locked: map<Pos, Color>, row: int, y: int, cleared: nat)
    requires IsGrid(grid) && y < ROWS
    requires OnlyFull(grid, row, y)
    requires forall x | 0 <= x < COLS :: (x, row) in locked
    ensures ClearFrom(grid, locked, y, cleared) == Ok((cleared + 1, ClearRowSpec(locked, row)))
    decreases y + 1
  {
    if y == row {
      assert FirstMissing(locked, row, 0).None?;
      ClearNothing(grid, ClearRowSpec(locked, row), y - 1, cleared + 1);
    } else {
      ClearSingle(grid, locked, row, y - 1, cleared);
    }
  }

  /**
   * As written, two full rows of the grid whose row above is not full raise KeyError:
   * the first clear drops the rows above, the grid still shows the second row full,
   * and its deletion meets the empty cell that dropped into it.
   */
  lemma ClearCrash(grid: Grid, locked: map<Pos, Color>)
    requires IsGrid(grid) && RowFull(grid, ROWS - 1) && RowFull(grid, ROWS - 2)
    requires RowLocked(locked, ROWS - 1) && (0, ROWS - 3) !in locked
    ensures ClearFrom(grid, locked, ROWS - 1, 0) == Err((0, ROWS - 2))
  {
    assert FirstMissing(locked, ROWS - 1, 0).None?;
    var m := ClearRowSpec(locked, ROWS - 1);
    assert ClearedFrom((0, ROWS - 2), ROWS - 1) == Some((0, ROWS - 3));
    assert FirstMissing(m, ROWS - 2, 0) == Some((0, ROWS - 2));
  }

  /**
   * As written, the rows a piece completes are not cleared when it locks: `clear_rows`
   * is given the grid built before the lock. Nine cells of the bottom row and a piece
   * covering the tenth leave a full row behind, uncleared and unscored.
   */
  lemma StaleGridLeavesFullRow(grid: Grid, locked: map<Pos, Color>, color: Color, top: int)
    requires IsGrid(grid) && forall y, x | 0 <= y < ROWS && 0 <= x < COLS :: grid[y][x] == At(locked, x, y)
    requires top == ROWS - 1 && forall x | 0 <= x < COLS - 1 :: (x, top) in locked
    requires forall r | 0 <= r < ROWS :: !RowLocked(locked, r)
    ensures RowLocked(Stamp(locked, [(COLS - 1, top)], color), top)
    ensures ClearFrom(grid, Stamp(locked, [(COLS - 1, top)], color), top, 0) == Ok((0, Stamp(locked, [(COLS - 1, top)], color)))
  {
    var after := Stamp(locked, [(COLS - 1, top)], color);
    assert [(COLS - 1, top)][..0] == [];
    assert Stamp(locked, [], color) == locked;
    assert after == locked[(COLS - 1, top) := color];
    forall r | 0 <= r <= top
      ensures !RowFull(grid, r)
    {
      GridRowFull(grid, locked, r);
    }
    ClearNothing(grid, after, top, 0);
  }

  /** Every column of row `y` is locked. */
  predicate RowLocked(locked: map<Pos, Color>, y: int) {
    forall x | 0 <= x < COLS :: (x, y) in locked
  }

  /**
   * Clearing as intended, from row `y` down to the floor: a row is judged full by the
   * locked cells as they are now, and rows are visited top-down, so the rows that
   * drop into a cleared row have been judged already.
   */
  function ClearDown(locked: map<Pos, Color>, y: nat, cleared: nat): (r: (nat, map<Pos, Color>))
    requires y <= ROWS
    ensures cleared <= r.0 <= cleared + ROWS - y
    decreases ROWS - y
  {
    if y == ROWS then (cleared, locked)
    else if RowLocked(locked, y) then ClearDown(ClearRowSpec(locked, y), y + 1, cleared + 1)
    else ClearDown(locked, y + 1, cleared)
  }

  /** Clearing a full row leaves rows 0..y without a full row when rows above it had none. */
  lemma ClearRowKeepsUpperRows(locked: map<Pos, Color>, y: nat)
    requires y < ROWS && forall r | 0 <= r < y :: !RowLocked(locked, r)
    ensures forall r | 0 <= r <= y :: !RowLocked(ClearRowSpec(locked, y), r)
  {
    var m := ClearRowSpec(locked, y);
    forall r | 0 <= r <= y
      ensures !RowLocked(m, r)
    {
      if r == 0 {
        assert (0, 0) !in m;
      } else {
        assert !RowLocked(locked, r - 1);
        var x :| 0 <= x < COLS && (x, r - 1) !in locked;
        assert (x, r) !in m;
      }
    }
  }

  /** The intended clearing leaves no full row on the board. */
  lemma {:induction false} ClearDownLeavesNoFullRow(locked: map<Pos, Color>, y: nat, cleared: nat)
    requires y <= ROWS && forall r | 0 <= r < y :: !RowLocked(locked, r)
    ensures forall r | 0 <= r < ROWS :: !RowLocked(ClearDown(locked, y, cleared).1, r)
    decreases ROWS - y
  {
    if y < ROWS {
      if RowLocked(locked, y) {
        ClearRowKeepsUpperRows(locked, y);
        ClearDownLeavesNoFullRow(ClearRowSpec(locked, y), y + 1, cleared + 1);
      } else {
        ClearDownLeavesNoFullRow(locked, y + 1, cleared);
      }
    }
  }

  /** The number of rows from `y` to the floor whose cells are all locked. */
  function LockedRows(locked: map<Pos, Color>, y: nat): nat
    requires y <= ROWS
    decreases ROWS - y
  {
    if y == ROWS then 0 else (if RowLocked(locked, y) then 1 else 0) + LockedRows(locked, y + 1)
  }

  /** Clearing row `y` leaves the rows below it as they were. */
  lemma ClearRowKeepsRowsBelow(locked: map<Pos, Color>, y: nat)
    requires y < ROWS
    ensures forall r | y < r < ROWS :: RowLocked(ClearRowSpec(locked, y), r) == RowLocked(locked, r)
  {
    var m := ClearRowSpec(locked, y);
    forall r, x | y < r < ROWS && 0 <= x < COLS
      ensures (x, r) in m <==> (x, r) in locked
    {
      assert ClearedFrom((x, r), y) == Some((x, r));
    }
  }

  /** Boards that agree on which rows are full from `y` down have as many full rows there. */
  lemma {:induction false} LockedRowsAgree(a: map<Pos, Color>, b: map<Pos, Color>, y: nat)
    requires y <= ROWS && forall r | y <= r < ROWS :: RowLocked(a, r) == RowLocked(b, r)
    ensures LockedRows(a, y) == LockedRows(b, y)
    decreases ROWS - y
  {
    if y < ROWS {
      LockedRowsAgree(a, b, y + 1);
    }
  }

  /** Clearing full row `y` leaves no full row above it and as many full rows below it. */
  lemma ClearRowKeepsCount(locked: map<Pos, Color>, y: nat)
    requires y < ROWS && RowLocked(locked, y) && forall r | 0 <= r < y :: !RowLocked(locked, r)
    ensures forall r | 0 <= r < y + 1 :: !RowLocked(ClearRowSpec(locked, y), r)
    ensures LockedRows(ClearRowSpec(locked, y), y + 1) == LockedRows(locked, y + 1)
  {
    ClearRowKeepsUpperRows(locked, y);
    ClearRowKeepsRowsBelow(locked, y);
    LockedRowsAgree(ClearRowSpec(locked, y), locked, y + 1);
  }

  /**
   * The intended clearing counts exactly the rows that were full when it started:
   * with no full row above `y`, each row it clears was full on the board it was given.
   */
  lemma {:induction false} ClearDownCountsFullRows(locked: map<Pos, Color>, y: nat, cleared: nat)
    requires y <= ROWS && forall r | 0 <= r < y :: !RowLocked(locked, r)
    ensures ClearDown(locked, y, cleared).0 == cleared + LockedRows(locked, y)
    decreases ROWS - y
  {
    if y < ROWS {
      if RowLocked(locked, y) {
        ClearRowKeepsCount(locked, y);
        ClearDownCountsFullRows(ClearRowSpec(locked, y), y + 1, cleared + 1);
      } else {
        ClearDownCountsFullRows(locked, y + 1, cleared);
      }
    }
  }

  lemma {:induction false} ClearDownSkips(locked: map<Pos, Color>, y: nat, cleared: nat)
    requires y <= ROWS && forall r | y <= r < ROWS :: !RowLocked(locked, r)
    ensures ClearDown(locked, y, cleared) == (cleared, locked)
    decreases ROWS - y
  {
    if y < ROWS {
      ClearDownSkips(locked, y + 1, cleared);
    }
  }

  /** With one full row, the intended clearing clears just that row. */
  lemma ClearDownSingle(locked: map<Pos, Color>, row: int, y: nat, cleared: nat)
    requires y <= row < ROWS && RowLocked(locked, row)
    requires forall r | 0 <= r < ROWS && r != row :: !RowLocked(locked, r)
    ensures ClearDown(locked, y, cleared).0 == cleared + 1
    ensures ClearDown(locked, y, cleared).1 == ClearRowSpec(locked, row)
  {
    ClearDownPasses(locked, y, row, cleared);
    ClearDownLast(locked, row, cleared);
  }

  /** Rows that are not full are passed over: the clearing continues at the next row. */
  lemma {:induction false} ClearDownPasses(locked: map<Pos, Color>, y: nat, row: nat, cleared: nat)
    requires y <= row <= ROWS && forall r | y <= r < row :: !RowLocked(locked, r)
    ensures ClearDown(locked, y, cleared) == ClearDown(locked, row, cleared)
    decreases row - y
  {
    if y < row {
      assert !RowLocked(locked, y);
      ClearDownPasses(locked, y + 1, row, cleared);
    }
  }

  /** A full row with no full row below it is the last one cleared. */
  lemma ClearDownLast(locked: map<Pos, Color>, row: nat, cleared: nat)
    requires row < ROWS && RowLocked(locked, row)
    requires forall r | row < r < ROWS :: !RowLocked(locked, r)
    ensures ClearDown(locked, row, cleared) == (cleared + 1, ClearRowSpec(locked, row))
  {
    ClearDownAtFull(locked, row, cleared);
    ClearRowKeepsLowerRows(locked, row);
    ClearDownSkips(ClearRowSpec(locked, row), row + 1, cleared + 1);
  }

  lemma ClearDownAtFull(locked: map<Pos, Color>, row: nat, cleared: nat)
    requires row < ROWS && RowLocked(locked, row)
    ensures ClearDown(locked, row, cleared) == ClearDown(ClearRowSpec(locked, row), row + 1, cleared + 1)
  {
  }

  /** Clearing a row leaves the rows below it without a full row when they had none. */
  lemma ClearRowKeepsLowerRows(locked: map<Pos, Color>, row: int)
    requires 0 <= row < ROWS && forall r | row < r < ROWS :: !RowLocked(locked, r)
    ensures forall r | row < r < ROWS :: !RowLocked(ClearRowSpec(locked, row), r)
  {
    var m := ClearRowSpec(locked, row);
    forall r | row < r < ROWS
      ensures !RowLocked(m, r)
    {
      assert !RowLocked(locked, r);
      var x :| 0 <= x < COLS && (x, r) !in locked;
      assert (x, r) !in m;
    }
  }

  /** A grid built from the locked cells shows a row full exactly when all its cells are locked. */
  lemma GridRowFull(grid: Grid, locked: map<Pos, Color>, r: int)
    requires IsGrid(grid) && forall y, x | 0 <= y < ROWS && 0 <= x < COLS :: grid[y][x] == At(locked, x, y)
    requires 0 <= r < ROWS
    ensures RowFull(grid, r) == RowLocked(locked, r)
  {
    assert forall x | 0 <= x < COLS :: grid[r][x].Some? == ((x, r) in locked);
  }

  /**
   * With one full row, and the grid showing the locked cells, `clear_rows` as written
   * clears that row, and the locked cells have exactly that one full row, which is
   * the case where `ClearDownSingle` gives the intended clearing the same result.
   */
  lemma SingleRowAgrees(grid: Grid, locked: map<Pos, Color>, row: int, top: int)
    requires IsGrid(grid) && forall y, x | 0 <= y < ROWS && 0 <= x < COLS :: grid[y][x] == At(locked, x, y)
    requires top == ROWS - 1 && OnlyFull(grid, row, top)
    ensures ClearFrom(grid, locked, top, 0) == Ok((1, ClearRowSpec(locked, row)))
    ensures RowLocked(locked, row) && forall r | 0 <= r < ROWS && r != row :: !RowLocked(locked, r)
  {
    assert RowLocked(locked, row) by {
      GridRowFull(grid, locked, row);
    }
    assert forall r | 0 <= r < ROWS && r != row :: !RowLocked(locked, r) by {
      forall r | 0 <= r < ROWS && r != row
        ensures !RowLocked(locked, r)
      {
        GridRowFull(grid, locked, r);
      }
    }
    ClearSingle(grid, locked, row, top, 0);
  }

  /** The intended clearing as a loop over the rows, top-down, reusing the delete and drop loops. */
  method ClearFullRows(locked: map<Pos, Color>) returns (cleared: nat, m: map<Pos, Color>)
    ensures (cleared, m) == ClearDown(locked, 0, 0)
  {
    cleared, m := 0, locked;
    var y := 0;
    while y < ROWS
      invariant 0 <= y <= ROWS
      invariant ClearDown(m, y, cleared) == ClearDown(locked, 0, 0)
    {
      if RowLocked(m, y) {
        var deleted := DeleteRow(m, y);
        m := DropRows(deleted.value, m, y);
        cleared := cleared + 1;
      }
      y := y + 1;
    }
  }

  // ---------------------------------------------------------------- locking a piece

  /** `locked` with every cell of `cells` that is on or below the top row set to `color`. */
  function Stamp(locked: map<Pos, Color>, cells: seq<Pos>, color: Color): (r: map<Pos, Color>)
    ensures locked.Keys <= r.Keys
  {
    if cells == [] then locked
    else
      var m := Stamp(locked, cells[..|cells| - 1], color);
      var p := cells[|cells| - 1];
      if p.1 < 0 then m else m[p := color]
  }

  /** Locking keeps the old cells, adds the piece's cells on the board, and paints those in its colour. */
  lemma {:induction false} StampSpec(locked: map<Pos, Color>, cells: seq<Pos>, color: Color)
    ensures forall p :: p in Stamp(locked, cells, color) <==> p in locked || (p in cells && p.1 >= 0)
    ensures forall p | p in Stamp(locked, cells, color) ::
      Stamp(locked, cells, color)[p] == if p in cells && p.1 >= 0 then color else locked[p]
  {
    if cells != [] {
      StampSpec(locked, cells[..|cells| - 1], color);
      assert cells == cells[..|cells| - 1] + [cells[|cells| - 1]];
    }
  }

  lemma StampSnoc(locked: map<Pos, Color>, cells: seq<Pos>, k: nat, color: Color)
    requires k < |cells|
    ensures Stamp(locked, cells[..k + 1], color) ==
      (if cells[k].1 < 0 then Stamp(locked, cells[..k], color) else Stamp(locked, cells[..k], color)[cells[k] := color])
  {
    TakeSnoc(cells, k);
    assert cells[..k + 1][..k] == cells[..k];
  }

  // ---------------------------------------------------------------- the game loop

  /** Where new pieces appear. */
  const SPAWN_X: int := 3
  const SPAWN_Y: int := -2

  datatype Key = Left | Right | Down | Up | OtherKey

  /** The events a frame reacts to; every other event is ignored. */
  datatype Event = Quit | KeyDown(key: Key) | OtherEvent

  /** The move an event asks for, as (dx, dy, turns). */
  function EventMove(e: Event): (int, int, int) {
    match e
    case KeyDown(Left) => (-1, 0, 0)
    case KeyDown(Right) => (1, 0, 0)
    case KeyDown(Down) => (0, 1, 0)
    case KeyDown(Up) => (0, 0, 1)
    case _ => (0, 0, 0)
  }

  /** The state of `main`: the locked cells, the falling and the next piece, and the score. */
  class Game {
    var locked: map<Pos, Color>
    var current: Tetromino
    var next: Tetromino
    var changePiece: bool
    var run: bool
    var score: int

    /** The start of `main`: an empty board, two new pieces at the spawn point, score 0. */
    constructor (shape: Shape, color: Color, nextShape: Shape, nextColor: Color)
      ensures locked == map[] && !changePiece && run && score == 0
      ensures fresh(current) && current.x == SPAWN_X && current.y == SPAWN_Y && current.rotation == 0
      ensures current.shape == shape && current.color == color
      ensures fresh(next) && next.x == SPAWN_X && next.y == SPAWN_Y && next.rotation == 0
      ensures next.shape == nextShape && next.color == nextColor
    {
      locked := map[];
      changePiece := false;
      run := true;
      current := new Tetromino(SPAWN_X, SPAWN_Y, shape, color);
      next := new Tetromino(SPAWN_X, SPAWN_Y, nextShape, nextColor);
      score := 0;
    }

    /**
     * Move the falling piece by (dx, dy) and turn it `dr` times, then take the move
     * back when the piece no longer fits: it moves exactly when the new place is free.
     */
    method Shift(grid: Grid, dx: int, dy: int, dr: int) returns (moved: bool)
      requires IsGrid(grid)
      modifies current
      ensures moved == Lands(grid, current.shape, old(current.x) + dx, old(current.y) + dy, old(current.rotation) + dr)
      ensures moved ==> current.At(old(current.x) + dx, old(current.y) + dy, old(current.rotation) + dr)
      ensures !moved ==> current.At(old(current.x), old(current.y), old(current.rotation))
    {
      current.x, current.y, current.rotation := current.x + dx, current.y + dy, current.rotation + dr;
      moved := ValidSpace(current, grid);
      if !moved {
        current.x, current.y, current.rotation := current.x - dx, current.y - dy, current.rotation - dr;
      }
    }

    /** One event of the frame: Quit ends the loop, an arrow key moves or turns the piece if it fits. */
    method HandleEvent(grid: Grid, e: Event)
      requires IsGrid(grid)
      modifies this, current
      ensures run == (old(run) && !e.Quit?)
      ensures locked == old(locked) && current == old(current) && next == old(next)
      ensures changePiece == old(changePiece) && score == old(score)
      ensures var (dx, dy, dr) := EventMove(e);
        if Lands(grid, current.shape, old(current.x) + dx, old(current.y) + dy, old(current.rotation) + dr)
        then current.At(old(current.x) + dx, old(current.y) + dy, old(current.rotation) + dr)
        else current.At(old(current.x), old(current.y), old(current.rotation))
    {
      if e.Quit? {
        run := false;
      }
      if e.KeyDown? && !e.key.OtherKey? {
        var (dx, dy, dr) := EventMove(e);
        var _ := Shift(grid, dx, dy, dr);
      } else {
        assert EventMove(e) == (0, 0, 0);
      }
    }

    /** The locking loop: each cell on the board gets the colour, a cell above the top row ends the game. */
    method Paint(cells: seq<Pos>, color: Color)
      modifies this
      ensures locked == Stamp(old(locked), cells, color)
      ensures run == (old(run) && forall p | p in cells :: p.1 >= 0)
      ensures current == old(current) && next == old(next) && score == old(score) && changePiece == old(changePiece)
    {
      var k := 0;
      while k < |cells|
        invariant 0 <= k <= |cells|
        invariant locked == Stamp(old(locked), cells[..k], color)
        invariant run == (old(run) && forall m | 0 <= m < k :: cells[m].1 >= 0)
        invariant current == old(current) && next == old(next) && score == old(score) && changePiece == old(changePiece)
      {
        StampSnoc(old(locked), cells, k, color);
        var (x, y) := cells[k];
        if y < 0 {
          run := false;
        } else {
          locked := locked[(x, y) := color];
        }
        k := k + 1;
      }
      assert cells[..|cells|] == cells;
    }

    /**
     * Lock the falling piece: its cells on the board join the locked cells (a cell above
     * the top row ends the game), the next piece falls, a new one is spawned, and every
     * full row is cleared at 100 points each. Rows are judged by the locked cells
     * including the piece just locked (see `ClearDown` for how this departs from the
     * frame's grid that `clear_rows` is given).
     */
    method Lock(newShape: Shape, newColor: Color)
      modifies this
      ensures current == old(next) && !changePiece
      ensures fresh(next) && next.x == SPAWN_X && next.y == SPAWN_Y && next.rotation == 0
      ensures next.shape == newShape && next.color == newColor
      ensures run == (old(run) && forall p | p in old(current.Cells()) :: p.1 >= 0)
      ensures var result := ClearDown(Stamp(old(locked), old(current.Cells()), old(current.color)), 0, 0);
        locked == result.1 && score == old(score) + 100 * result.0
    {
      var cells := current.GetCells();
      Paint(cells, current.color);
      current := next;
      next := new Tetromino(SPAWN_X, SPAWN_Y, newShape, newColor);
      changePiece := false;
      var cleared, m := ClearFullRows(locked);
      locked := m;
      score := score + cleared * 100;
    }

    /**
     * One pass of the main loop: build the grid, let the piece fall when the fall
     * timer is due (a piece that cannot fall is marked for locking), handle the
     * frame's events, and lock the piece when it was marked.
     */
    method Frame(fallDue: bool, events: seq<Event>, newShape: Shape, newColor: Color)
      modifies this, current
      ensures !old(changePiece) && !fallDue ==>
        locked == old(locked) && score == old(score) && current == old(current) && next == old(next)
      ensures !old(changePiece) && !fallDue && events == [] ==>
        run == old(run) && current.At(old(current.x), old(current.y), old(current.rotation))
      ensures (exists e | e in events :: e.Quit?) ==> !run
      ensures run ==> old(run)
      ensures !changePiece
      ensures score >= old(score)
    {
      var grid := CreateGrid(locked);
      if fallDue {
        var moved := Shift(grid, 0, 1, 0);
        if !moved {
          changePiece := true;
        }
      }
      var k := 0;
      while k < |events|
        invariant 0 <= k <= |events|
        invariant locked == old(locked) && current == old(current) && next == old(next) && score == old(score)
        invariant changePiece == (old(changePiece) || (fallDue && changePiece))
        invariant (exists m | 0 <= m < k :: events[m].Quit?) ==> !run
        invariant run ==> old(run)
        invariant !fallDue && events == [] ==>
          run == old(run) && current.At(old(current.x), old(current.y), old(current.rotation))
      {
        HandleEvent(grid, events[k]);
        k := k + 1;
      }
      if changePiece {
        Lock(newShape, newColor);
      }
    }
  }
}
