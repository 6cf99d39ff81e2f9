/** The sizing done by the maze window before it draws: the requested
    numbers of room rows and columns are clamped to what a 600 x 600 pixel
    canvas can show with squares of at least 3 pixels, the board gets a wall
    square between any two rooms, and the square size is the largest that
    fits the canvas. Python 2's `/` on these non-negative integers is floor
    division, as Dafny's `/` is here. */
module MazeUi {
  import opened Geometry
  import MazeEngine

  /** Canvas limits in pixels (MAX_WIDTH, MAX_HEIGHT, MIN_SIZE). */
  const MaxWidth := 600
  const MaxHeight := 600
  const MinSize := 3

  /** Limits on rooms per axis, walls not counted (MAX_ROWS, MAX_COLS, MIN_ROWS, MIN_COLS). */
  const MaxRows := (MaxHeight / MinSize + 1) / 2
  const MaxCols := (MaxWidth / MinSize + 1) / 2
  const MinRows := 2
  const MinCols := 1

  /** The room limits are 100 per axis, and a board of that many rooms,
      walls included, still leaves MIN_SIZE pixels per square. */
  lemma Limits()
    ensures MaxRows == 100 && MaxCols == 100
    ensures (2 * MaxRows - 1) * MinSize <= MaxHeight && (2 * MaxCols - 1) * MinSize <= MaxWidth
  {
  }

  /** `n` held within [lo, hi]: the smaller of `n` and `hi`, but no less than `lo`. */
  function Clamp(n: int, lo: int, hi: int): (m: int)
    requires lo <= hi
    ensures lo <= m <= hi
    ensures lo <= n <= hi ==> m == n
    ensures n < lo ==> m == lo
    ensures n > hi ==> m == hi
  {
    var capped := if n < hi then n else hi;
    if capped > lo then capped else lo
  }

  /** The number of board squares along an axis with `n` rooms: a wall
      square between each two neighbouring rooms. */
  function Squares(n: int): int {
    2 * n - 1
  }

  /** The rooms of an axis of `Squares(n)` squares are exactly the squares
      2k for k < n: the first and the last square are rooms. */
  lemma SquaresHoldRooms(n: int, k: int)
    requires n >= 1
    ensures Squares(n) % 2 == 1
    ensures 0 <= k < n <==> (0 <= 2 * k < Squares(n))
  {
  }

  /** The size of a square in pixels: the largest that lets both axes fit the canvas. */
  function SquareSize(rowsActual: int, colsActual: int): int
    requires rowsActual >= 1 && colsActual >= 1
  {
    var byHeight := MaxHeight / rowsActual;
    var byWidth := MaxWidth / colsActual;
    if byHeight < byWidth then byHeight else byWidth
  }

  /** `q` pixels per square is the most that fits `n` squares into `total` pixels. */
  lemma {:induction false} FloorFits(total: nat, n: int, q: int)
    requires n >= 1 && q == total / n
    ensures n * q <= total < n * (q + 1)
  {
    assert total == n * q + total % n;
  }

  /** The layout the window computes from the requested rooms per axis. */
  datatype Layout = Layout(rows: int, cols: int, rowsActual: int, colsActual: int, size: int)

  /** Clamps the request, adds a wall square between any two rooms, and
      picks the square size. */
  function Plan(rows: int, cols: int): (l: Layout)
    ensures MinRows <= l.rows <= MaxRows && MinCols <= l.cols <= MaxCols
    ensures l.rows == Clamp(rows, MinRows, MaxRows) && l.cols == Clamp(cols, MinCols, MaxCols)
    ensures l.rowsActual == Squares(l.rows) && l.colsActual == Squares(l.cols)
  {
    var r := Clamp(rows, MinRows, MaxRows);
    var c := Clamp(cols, MinCols, MaxCols);
    var ra, ca := Squares(r), Squares(c);
    Layout(r, c, ra, ca, SquareSize(ra, ca))
  }

  /** The planned board has an odd number of rows (at least 3) and of
      columns, both within 199; its squares are at least MIN_SIZE pixels,
      the board fits the canvas, and one more pixel per square would not fit. */
  lemma {:induction false} PlanFits(rows: int, cols: int)
    ensures var l := Plan(rows, cols);
      && 3 <= l.rowsActual <= 199 && 1 <= l.colsActual <= 199
      && l.rowsActual % 2 == 1 && l.colsActual % 2 == 1
      && l.size >= MinSize
      && l.rowsActual * l.size <= MaxHeight && l.colsActual * l.size <= MaxWidth
      && (l.rowsActual * (l.size + 1) > MaxHeight || l.colsActual * (l.size + 1) > MaxWidth)
  {
    var l := Plan(rows, cols);
    SquaresHoldRooms(l.rows, 0);
    SquaresHoldRooms(l.cols, 0);
    SquareSizeFits(l.rowsActual, l.colsActual);
  }

  /** On a board of at most 199 squares per axis the square size is at least
      MIN_SIZE, the board fits the canvas, and one more pixel would not fit. */
  lemma SquareSizeFits(rowsActual: int, colsActual: int)
    requires 1 <= rowsActual <= 199 && 1 <= colsActual <= 199
    ensures var size := SquareSize(rowsActual, colsActual);
      && size >= MinSize
      && rowsActual * size <= MaxHeight && colsActual * size <= MaxWidth
      && (rowsActual * (size + 1) > MaxHeight || colsActual * (size + 1) > MaxWidth)
  {
    var byHeight, byWidth := MaxHeight / rowsActual, MaxWidth / colsActual;
    assert MaxHeight / 199 == MinSize;
    DivisionShrinks(MaxHeight, rowsActual, 199);
    DivisionShrinks(MaxWidth, colsActual, 199);
    FloorFits(MaxHeight, rowsActual, byHeight);
    FloorFits(MaxWidth, colsActual, byWidth);
    if byHeight < byWidth {
      MulMonotone(colsActual, byHeight, byWidth);
    } else {
      MulMonotone(rowsActual, byWidth, byHeight);
    }
  }

  /** Dividing by more squares leaves no more pixels per square. */
  lemma DivisionShrinks(total: nat, n: int, m: int)
    requires 1 <= n <= m
    ensures total / m <= total / n
  {
    var q := total / m;
    FloorFits(total, m, q);
    FloorFits(total, n, total / n);
    assert n * q <= m * q by { MulLeftMonotone(n, m, q); }
  }

  lemma MulMonotone(n: int, a: int, b: int)
    requires n >= 0 && a <= b
    ensures n * a <= n * b
  {
  }

  lemma MulLeftMonotone(n: int, m: int, q: int)
    requires n <= m && q >= 0
    ensures n * q <= m * q
  {
  }

  /** The window: its clamped rooms per axis, its square size, and the maze
      it displays. Drawing on the canvas is not part of this model. */
  class MazeView {
    const rows: int
    const cols: int
    const size: int
    const maze: MazeEngine.Maze

    /** Clamps the request, builds a maze on the board with walls between
        the rooms, and picks the square size. */
    constructor (requestedRows: int, requestedCols: int)
      ensures var l := Plan(requestedRows, requestedCols);
        rows == l.rows && cols == l.cols && size == l.size
      ensures maze.Valid()
      ensures maze.board.Length0 == Squares(rows) && maze.board.Length1 == Squares(cols)
      ensures maze.end != StartCell && maze.board[0, 0] == Start
    {
      var l := Plan(requestedRows, requestedCols);
      var m := new MazeEngine.Maze(l.rowsActual, l.colsActual);
      MazeEngine.StopIsNotStart(m.parent, m.rank, m.end, l.rowsActual, l.colsActual);
      rows, cols, size, maze := l.rows, l.cols, l.size, m;
    }
  }
}
