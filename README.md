# Maze generation and solution path

This project models the engine of `maze.py`, a small Tk program that draws a
random perfect maze and its solution, and proves what that engine promises.

The `Maze` class works on a board of `rows x cols` squares. Rooms sit where
both indices are even, and a square that is odd on exactly one axis is the wall
slot between two rooms.

- `generate_board` carves the maze by randomized depth-first search from the
  start room (0, 0). It keeps an explicit stack and a visited set. Each push
  opens the wall slot between the current room and the new one and records a
  backpointer from the new room to the current one. It also remembers the end
  room: the first room reached at the greatest stack height.
- `get_dir` names the direction from one square to another.
- `get_path` walks the backpointers from the end room to the start. It emits
  the solution as `(square, direction)` entries: each corridor crossed gets an
  arrow, and each intermediate room gets `NO_DIR`.
- The constructor stamps START on the start room and then STOP on the end room.

The window class `MazeUI` does the integer arithmetic that chooses the board
size. It clamps the requested room counts, turns `n` rooms into `2n - 1`
squares, and picks the square size in pixels.

The source mixes Python 2 and Python 3. It imports `tkinter` but uses `xrange`
and a tuple-parameter lambda, which only Python 2 accepts. The model takes
Python 2 integer semantics: `/` on these non-negative integers is floor
division, which is also what Dafny's `/` does here.

Layout:

- `geometry.dfy` (module `Geometry`): squares, rooms, square kinds,
  directions, `GetDir`, and the midpoint of two rooms.
- `spanning_tree.dfy` (module `SpanningTree`): the tree the backpointers
  encode, kept as ghost maps, and the board that tree determines (`Carved`).
- `search.dfy` (module `DepthFirst`): the invariant of the generator's loop
  and one lemma per move: visit, push and pop.
- `solution_path.dfy` (module `SolutionPath`): what the path walk emits along
  a chain of backpointers, and the shape of that path.
- `maze.dfy` (module `MazeEngine`): the imperative generator and path walk on
  `array2` boards, and class `Maze`.
- `maze_ui.dfy` (module `MazeUi`): the clamping and sizing policy, and the
  window's construction of its maze.

The generator is proved against a ghost view of its state:

- `parent` holds the non-empty backpointers;
- `rank` holds the order in which rooms were discovered;
- `depth` holds the stack height at which each room was reached.

The board is proved equal, square by square, to `Carved(visited, parent, i, j)`.

`random.choice` becomes an arbitrary choice from the non-empty candidate list
(`:|`). Every property below therefore holds whichever room is chosen.

Two points where the code says something other than its own comments:

- The docstrings of `Maze` and `get_path` (maze.py:13-15 and maze.py:114-115)
  describe the path as running from the start square to the end square. The
  code builds it from the end back to the start: its first entry touches the
  end room and its last entry touches the start room. The model follows the
  code.
- The constructor writes START on (0, 0) and then STOP on `end`, so STOP wins
  when `end == (0, 0)`. That happens only on a board with a single room;
  `MazeUi.MazeView.constructor` shows that the window never builds such a
  board.

## Model

| member | source | states |
|---|---|---|
| Geometry.CodesAreDistinct | maze.py:20-33 | The square kinds are coded WALL = 0, SPACE = 1, START = 2, STOP = 3, and the directions NO_DIR = 0 to DOWN = 4. Distinct kinds and distinct directions have distinct codes. |
| Geometry.GetDir | maze.py:94-110 | Rows are compared first. A larger row gives Down and a smaller row gives Up. Equal rows compare columns: larger gives Right, smaller gives Left. Equal squares give None. Each case holds in both directions, and the result is never NoDir. |
| Geometry.GetDirOfShift | maze.py:94-110 | Moving k > 0 squares in a direction is recognised as that direction. |
| Geometry.NeighborIsRoom | maze.py:68-74 | A candidate that survives the bounds filter, taken from a room, is itself a room two squares away on one axis. |
| Geometry.MidOfTwoApart | maze.py:82-83 | For rooms two apart, the floor-divided midpoint touches both rooms. GetDir names the axis step that leads from one room through the midpoint to the other. |
| MazeEngine.KeepOpen | maze.py:71-74 | The filter keeps exactly the candidates that are on the board and not visited. |
| MazeEngine.Candidates | maze.py:68-74 | The children list holds exactly the unvisited neighbouring rooms on the board, at most four. |
| MazeEngine.OpenRoom | maze.py:59-61 | Marking the top room SPACE keeps the board equal to the carving of the tree, with that room now visited. |
| MazeEngine.OpenWall | maze.py:81-84 | Opening the slot between the top room and the new child turns the board into the carving of the tree extended by that edge. |
| MazeEngine.SetBack | maze.py:87 | Setting the child's backpointer turns the table into the tree extended by that edge. |
| MazeEngine.Descend | maze.py:76-87 | The stack gains the child. The tree gains exactly the edge from the child to the top room, the child is ranked next at one level deeper, and nothing else in the tree changes. The board and the table become those of the extended tree, the loop invariant is kept, and the discovered set grows strictly. |
| MazeEngine.SearchRound | maze.py:55-89 | The top room becomes visited. `end` and the greatest height move to the top room exactly when the stack is strictly higher than before. If the top room has unvisited neighbouring rooms, one of them is pushed with the edge back to the top; otherwise the top is popped and the tree is unchanged. The loop invariant, board and table are kept, and each round either discovers a new room or shrinks the stack, which gives termination. |
| MazeEngine.Maze.GenerateBoard | maze.py:36-91 | The loop ends. The tree is rooted at (0, 0) and spans exactly the rooms of the board. The board is the carving of that tree, and `back` holds exactly its edges. `end` is the first deepest room. |
| MazeEngine.GeneratedEnds | maze.py:51-66 | On the generated board, the end room is a room marked SPACE, and the start room's backpointer is None. |
| MazeEngine.ChainIsWalkable | maze.py:119-131 | From any discovered room, the backpointers lead to (0, 0) through distinct rooms, each two squares from the next, so the path walk terminates. |
| MazeEngine.Maze.GetPath | maze.py:113-131 | The walk returns exactly the entries emitted along the backpointer chain of `end`, a chain that ends at the start room. |
| MazeEngine.StampEnds | maze.py:141-142 | Apart from (0, 0) and `end`, the board is unchanged. `end` is STOP, and (0, 0) is START unless it is `end`, in which case it is STOP. |
| MazeEngine.Maze.constructor | maze.py:133-144 | The built maze is valid: a spanning tree, the first deepest end, the carved board with START and STOP stamped, and the path along the chain of `end`. |
| MazeEngine.OpenSquares | maze.py:47-84 | Apart from START and STOP, a square is SPACE exactly when it is a room or the slot halfway along a tree edge. Every other square is WALL. |
| MazeEngine.PathIsOpen | maze.py:119-131 | Every square on the solution path is on the board and is SPACE. |
| MazeEngine.StopIsNotStart | maze.py:139-142 | On a board with at least three rows, the end room differs from the start room, so both stamps survive. |
| SpanningTree.Chain | maze.py:121-125 | The rooms met along the backpointers start at the given room, end at (0, 0), follow `parent`, and strictly decrease in discovery order. |
| SpanningTree.LevelIsDepth | maze.py:63-66 | The stack height at which a room was reached equals the length of its backpointer chain. |
| SpanningTree.CarveOpensOneWall | maze.py:81-87 | Recording the edge from an undiscovered child to the current room opens exactly one square. That square is the midpoint slot, and it was WALL before. |
| SpanningTree.OpenSquareIsRoomOrEdge | maze.py:59-84 | An open square of the carving is a visited room or the midpoint of a tree edge. |
| SpanningTree.EdgeIsOpen | maze.py:82-84 | The midpoint slot of every tree edge is open. |
| SpanningTree.ClosedSetHasRoom | maze.py:68-74 | A set of rooms that holds (0, 0) and is closed under stepping to a neighbouring room holds the given room. |
| SpanningTree.ClosedSetHasAllRooms | maze.py:55-89 | Such a set holds every room of the board, so the search visits them all. |
| DepthFirst.SearchStarts | maze.py:43-52 | The initial state satisfies the loop invariant: stack [(0, 0)], nothing visited, only the start discovered. |
| DepthFirst.VisitTop | maze.py:56-66 | The top of the stack is an in-bounds even/even room that has been discovered. Visiting it, and taking it as `end` only when the stack is strictly higher than ever, keeps the invariant. |
| DepthFirst.PushKeepsTree | maze.py:86-87 | The new backpointer joins rooms two apart, points to a room discovered earlier, and is one level deeper. |
| DepthFirst.PushKeepsStack | maze.py:86-87 | After the push, the stack is still the backpointer chain of its top room. |
| DepthFirst.PushKeepsDiscovered | maze.py:55-59 | The only discovered room not yet visited is the one just pushed, on top of the stack. |
| DepthFirst.PushKeepsEnd | maze.py:63-66 | Pushing does not disturb the first-deepest record. |
| DepthFirst.PushKeepsExhausted | maze.py:86 | Visited rooms that have left the stack still have no unvisited neighbours. |
| DepthFirst.PushChild | maze.py:76-87 | The chosen child is a room not yet discovered, so no room is pushed twice and no backpointer is set twice. It lies two apart from the top on one axis, and the push keeps the invariant. |
| DepthFirst.PopDeadEnd | maze.py:88-89 | Popping a room with no unvisited neighbour keeps the invariant. |
| DepthFirst.EndIsFirstDeepest | maze.py:63-66 | Because of the strict `>`, the end is a deepest room and is discovered before every other room of that depth. |
| DepthFirst.SearchEnds | maze.py:55-91 | With the stack empty, every room of the board has been visited and discovered, and the tree is rooted with the first deepest end. |
| SolutionPath.EmittedShape | maze.py:119-129 | After n rounds short of the start, the walk has emitted n corridors interleaved with the n - 1 rooms between them. |
| SolutionPath.PathShape | maze.py:119-131 | For an end d >= 1 steps from the start, the path has 2d - 1 entries. The d corridor midpoints are at even positions, and the d - 1 intermediate rooms, with NoDir, are at odd positions. For end = (0, 0) the path is empty. |
| SolutionPath.CorridorBetween | maze.py:127-129 | A corridor entry is a wall slot touching both rooms. Its arrow leads from the backpointer side into the slot and on to the room it came from. |
| SolutionPath.PathAvoidsEnds | maze.py:123-124 | No entry is the start room or the end room. |
| SolutionPath.PathStepsTouch | maze.py:119-131 | Consecutive entries are side by side. |
| SolutionPath.PathIsWalk | maze.py:119-131 | The path is a walk of side-by-side squares. It starts next to the end room, finishes next to the start room, and contains neither. |
| SolutionPath.PathArrows | maze.py:123-129 | An entry has NoDir exactly at the odd (room) positions. Every corridor arrow points from the start side to the end side. |
| MazeUi.Limits | maze.py:153-162 | MAX_ROWS = MAX_COLS = 100 under floor division. A board of 2 * 100 - 1 squares per axis at MIN_SIZE pixels still fits 600 pixels. |
| MazeUi.Clamp | maze.py:176-177 | The result lies in [lo, hi]. It is the input when the input is in range, `lo` below the range and `hi` above it. |
| MazeUi.SquaresHoldRooms | maze.py:179-181 | 2n - 1 is odd, and the rooms on an axis of 2n - 1 squares are exactly the squares 2k for k < n. |
| MazeUi.Plan | maze.py:176-185 | Rows are clamped into [2, 100] and columns into [1, 100]. The board passed to the maze has 2 * rows - 1 by 2 * cols - 1 squares. |
| MazeUi.SquareSizeFits | maze.py:184-190 | With at most 199 squares per axis, the square size is at least MIN_SIZE and the canvas fits 600 x 600. One more pixel per square would not fit. |
| MazeUi.PlanFits | maze.py:176-190 | The planned board is odd on both axes, at least 3 x 1 and at most 199 x 199. Its squares are at least 3 pixels, and the largest size that fits is chosen. |
| MazeUi.MazeView.constructor | maze.py:170-185 | The window's room counts and square size are those of the plan. Its maze is valid, with the planned dimensions, and both START and STOP are visible on it. |

## Left out

- Painting on the Tk canvas (`paint_cell`, `paint_arrow`, `solve_maze`), the colour tables, the `App` widgets, the spinbox and button callbacks, and `main`. These are drawing, event handling and I/O through a GUI library.
- The `int(...)` parsing of the spinbox text and its fallback to 20 x 20. This depends on Python's integer parser, and the model takes the requested counts as integers.
- The pseudo-random generator behind `random.choice`. The choice is an arbitrary element of the non-empty candidate list, so the model does not capture how a seeded generator reproduces the same maze.
- MazeEngine.Maze.GenerateBoard: requires at least one row and one column. With an empty board, the source's first `board[0][0] = SPACE` fails.
- The Maze object keeps no `end` attribute in the source, although its docstring lists one. The model holds `end`, the tree and the discovery order as ghost fields, used only to state `Valid`.
- The loop body of `generate_board` is split into helper methods: `SearchRound` for one round, `Descend` for a push, and `OpenRoom`, `OpenWall` and `SetBack` for the three writes. The order of the writes and their effect are those of the source.
- The number of open wall slots (one fewer than the number of rooms) is not stated as a cardinality. The model proves the equivalent structural facts: every room but the start has exactly one backpointer edge, every open slot is the midpoint of such an edge, and each push opens exactly one new slot.
