/** Squares, rooms, directions and the direction between two squares.
    The board is indexed (row, column) from the top-left square (0, 0);
    rooms sit where both indices are even, and a square that is odd on
    exactly one axis is the wall slot between two rooms. */
module Geometry {

  datatype Option<T> = None | Some(value: T)

  /** A board square, written as a (row, column) pair in the source. */
  datatype Pos = Pos(r: int, c: int)

  /** Kinds of board square: WALL = 0, SPACE = 1, START = 2, STOP = 3. */
  datatype Cell = Wall | Space | Start | Stop {
    function Code(): int {
      match this
      case Wall => 0
      case Space => 1
      case Start => 2
      case Stop => 3
    }
  }

  /** Path directions: NO_DIR = 0, LEFT = 1, RIGHT = 2, UP = 3, DOWN = 4. */
  datatype Dir = NoDir | Left | Right | Up | Down {
    function Code(): int {
      match this
      case NoDir => 0
      case Left => 1
      case Right => 2
      case Up => 3
      case Down => 4
    }
  }

  /** The codes are the source's constants, and distinct kinds or
      directions never share a code. */
  lemma CodesAreDistinct(a: Cell, b: Cell, d: Dir, e: Dir)
    ensures Wall.Code() == 0 && Space.Code() == 1 && Start.Code() == 2 && Stop.Code() == 3
    ensures NoDir.Code() == 0 && Left.Code() == 1 && Right.Code() == 2 && Up.Code() == 3 && Down.Code() == 4
    ensures a.Code() == b.Code() <==> a == b
    ensures d.Code() == e.Code() <==> d == e
  {
  }

  /** One entry of the solution path: a square and the arrow drawn on it. */
  datatype Step = Step(pos: Pos, dir: Dir)

  /** The room the search starts from (START_CELL). */
  const StartCell := Pos(0, 0)

  predicate InBounds(p: Pos, rows: int, cols: int) {
    0 <= p.r < rows && 0 <= p.c < cols
  }

  predicate IsRoom(p: Pos, rows: int, cols: int) {
    InBounds(p, rows, cols) && p.r % 2 == 0 && p.c % 2 == 0
  }

  /** All rooms of a rows x cols board. */
  ghost function Rooms(rows: int, cols: int): (rooms: set<Pos>)
    ensures forall p :: p in rooms <==> IsRoom(p, rows, cols)
  {
    set r, c | 0 <= r < rows && 0 <= c < cols && r % 2 == 0 && c % 2 == 0 :: Pos(r, c)
  }

  /** The four candidate rooms around `p`, in the order the generator lists them. */
  function Around(p: Pos): seq<Pos> {
    [Pos(p.r + 2, p.c), Pos(p.r - 2, p.c), Pos(p.r, p.c + 2), Pos(p.r, p.c - 2)]
  }

  /** `q` lies two squares from `p` along exactly one axis. */
  predicate TwoApart(p: Pos, q: Pos) {
    (p.c == q.c && (q.r == p.r + 2 || q.r == p.r - 2)) ||
    (p.r == q.r && (q.c == p.c + 2 || q.c == p.c - 2))
  }

  /** `q` and `p` are side by side (Manhattan distance 1). */
  predicate Touching(p: Pos, q: Pos) {
    (p.c == q.c && (q.r == p.r + 1 || q.r == p.r - 1)) ||
    (p.r == q.r && (q.c == p.c + 1 || q.c == p.c - 1))
  }

  /** `q` is one of the rooms the generator may step to from `p`. */
  predicate GridNeighbor(p: Pos, q: Pos, rows: int, cols: int) {
    q in Around(p) && InBounds(q, rows, cols)
  }

  /** A neighbouring room of a room is a room. */
  lemma NeighborIsRoom(p: Pos, q: Pos, rows: int, cols: int)
    requires IsRoom(p, rows, cols) && GridNeighbor(p, q, rows, cols)
    ensures IsRoom(q, rows, cols) && TwoApart(p, q) && TwoApart(q, p)
  {
  }

  /** The square halfway between two squares; Python 2's `/` on the
      non-negative sums is floor division, as Dafny's `/` is here. */
  function Mid(p: Pos, q: Pos): Pos {
    Pos((p.r + q.r) / 2, (p.c + q.c) / 2)
  }

  /** The square `k` squares away from `p` in direction `d`. */
  function Shift(p: Pos, d: Dir, k: int): Pos {
    match d
    case NoDir => p
    case Left => Pos(p.r, p.c - k)
    case Right => Pos(p.r, p.c + k)
    case Up => Pos(p.r - k, p.c)
    case Down => Pos(p.r + k, p.c)
  }

  /** The direction of travel from `start` to `end`: rows are compared first,
      then columns; equal squares give no direction at all. */
  function GetDir(start: Pos, end: Pos): (d: Option<Dir>)
    ensures d.None? <==> start == end
    ensures d != Some(NoDir)
    ensures d == Some(Down) <==> end.r > start.r
    ensures d == Some(Up) <==> end.r < start.r
    ensures d == Some(Right) <==> end.r == start.r && end.c > start.c
    ensures d == Some(Left) <==> end.r == start.r && end.c < start.c
  {
    if end.r > start.r then Some(Down)
    else if end.r < start.r then Some(Up)
    else if end.c > start.c then Some(Right)
    else if end.c < start.c then Some(Left)
    else None
  }

  /** GetDir inverts Shift: moving k > 0 squares in a direction is
      recognised as that direction. */
  lemma GetDirOfShift(p: Pos, d: Dir, k: int)
    requires d != NoDir && k > 0
    ensures GetDir(p, Shift(p, d, k)) == Some(d)
  {
  }

  /** For two rooms two squares apart, the wall slot between them touches
      both, and the direction from `p` to `q` leads from `p` to that slot
      and on from it to `q`. */
  lemma MidOfTwoApart(p: Pos, q: Pos)
    requires TwoApart(p, q)
    ensures Touching(p, Mid(p, q)) && Touching(Mid(p, q), q)
    ensures GetDir(p, q).Some?
    ensures Shift(p, GetDir(p, q).value, 1) == Mid(p, q)
    ensures Shift(Mid(p, q), GetDir(p, q).value, 1) == q
    ensures Shift(p, GetDir(p, q).value, 2) == q
  {
  }
}
