/** The maze engine: randomized depth-first generation of a perfect maze on a
    board whose rooms sit at even/even squares, the walk back along the
    backpointers that yields the solution path, and the maze object that
    stamps the start and stop squares on the board. */
module MazeEngine {
  import opened Geometry
  import opened SpanningTree
  import opened SolutionPath
  import opened DepthFirst

  /** The board shows exactly the rooms in `visited` and the tree edges in `parent`. */
  ghost predicate BoardIs(board: array2<Cell>, visited: set<Pos>, parent: map<Pos, Pos>)
    reads board
  {
    forall i, j :: 0 <= i < board.Length0 && 0 <= j < board.Length1 ==>
      board[i, j] == Carved(visited, parent, i, j)
  }

  /** The backpointer table holds exactly the edges in `parent`. */
  ghost predicate BackIs(back: array2<Option<Pos>>, parent: map<Pos, Pos>)
    reads back
  {
    forall i, j :: 0 <= i < back.Length0 && 0 <= j < back.Length1 ==>
      back[i, j] == BackAt(parent, i, j)
  }

  /** The board shows the maze carved from `visited` and `parent`, with the
      start room marked START and then `end` marked STOP, so that STOP wins
      when `end` is the start room. */
  ghost predicate Stamped(board: array2<Cell>, end: Pos, visited: set<Pos>, parent: map<Pos, Pos>)
    reads board
  {
    && InBounds(StartCell, board.Length0, board.Length1)
    && InBounds(end, board.Length0, board.Length1)
    && board[end.r, end.c] == Stop
    && board[0, 0] == (if end == StartCell then Stop else Start)
    && (forall i, j ::
          0 <= i < board.Length0 && 0 <= j < board.Length1 && Pos(i, j) != StartCell && Pos(i, j) != end
          ==> board[i, j] == Carved(visited, parent, i, j))
  }

  /** Marks the start room START, then the end room STOP. */
  method StampEnds(board: array2<Cell>, end: Pos, ghost visited: set<Pos>, ghost parent: map<Pos, Pos>)
    requires BoardIs(board, visited, parent)
    requires InBounds(StartCell, board.Length0, board.Length1) && InBounds(end, board.Length0, board.Length1)
    modifies board
    ensures Stamped(board, end, visited, parent)
  {
    board[StartCell.r, StartCell.c] := Start;
    board[end.r, end.c] := Stop;
  }

  /** Keeps the squares of `cands` that are on the board and not yet visited,
      in their order. */
  function KeepOpen(cands: seq<Pos>, rows: int, cols: int, visited: set<Pos>): (kept: seq<Pos>)
    ensures forall q :: q in kept <==> q in cands && InBounds(q, rows, cols) && q !in visited
    ensures |kept| <= |cands|
  {
    if cands == [] then []
    else
      var rest := KeepOpen(cands[1..], rows, cols, visited);
      if InBounds(cands[0], rows, cols) && cands[0] !in visited then [cands[0]] + rest else rest
  }

  /** The rooms the generator may step to from `cell`: the neighbouring rooms
      on the board that it has not visited. */
  function Candidates(cell: Pos, rows: int, cols: int, visited: set<Pos>): (children: seq<Pos>)
    ensures forall q :: q in children <==> GridNeighbor(cell, q, rows, cols) && q !in visited
    ensures |children| <= 4
  {
    KeepOpen(Around(cell), rows, cols, visited)
  }

  /** The backpointer chain of a room of a rooted tree is a chain the path walk
      can follow: from the room to the start, through distinct rooms, each two
      squares from the next. */
  lemma ChainIsWalkable(parent: map<Pos, Pos>, rank: map<Pos, nat>, rows: int, cols: int, p: Pos)
    requires Rooted(parent, rank) && Within(rank, rows, cols) && p in rank
    ensures ChainTo(Chain(parent, rank, p), p)
  {
    var ch := Chain(parent, rank, p);
    forall i, j | 0 <= i < j < |ch| ensures ch[i] != ch[j] {
      assert rank[ch[j]] < rank[ch[i]];
    }
    forall i | 0 <= i < |ch| - 1 ensures TwoApart(ch[i], ch[i + 1]) {
      assert ch[i] in parent && parent[ch[i]] == ch[i + 1];
    }
    forall i | 0 <= i < |ch| ensures ch[i].r % 2 == 0 && ch[i].c % 2 == 0 {
      assert IsRoom(ch[i], rows, cols);
    }
  }

  /** Marks the room `cell` SPACE on the board. */
  method OpenRoom(board: array2<Cell>, cell: Pos, ghost visited: set<Pos>, ghost parent: map<Pos, Pos>)
    requires BoardIs(board, visited, parent) && IsRoom(cell, board.Length0, board.Length1)
    modifies board
    ensures BoardIs(board, visited + {cell}, parent)
  {
    board[cell.r, cell.c] := Space;
  }

  /** Removes the wall between the room `cell` and the undiscovered room
      `child`, recording the edge from `child` to `cell`. */
  method OpenWall(board: array2<Cell>, cell: Pos, child: Pos, ghost visited: set<Pos>,
                  ghost parent: map<Pos, Pos>, ghost rank: map<Pos, nat>)
    requires BoardIs(board, visited, parent)
    requires Rooted(parent, rank) && cell in rank && child !in rank && TwoApart(cell, child)
    requires IsRoom(cell, board.Length0, board.Length1) && IsRoom(child, board.Length0, board.Length1)
    modifies board
    ensures BoardIs(board, visited, parent[child := cell])
  {
    var wr, wc := (cell.r + child.r) / 2, (cell.c + child.c) / 2;
    forall i, j | 0 <= i < board.Length0 && 0 <= j < board.Length1
      ensures Carved(visited, parent[child := cell], i, j) ==
              if Pos(i, j) == Pos(wr, wc) then Space else Carved(visited, parent, i, j)
    {
      CarveOpensOneWall(visited, parent, rank, cell, child, i, j);
    }
    board[wr, wc] := Space;
  }

  /** Records `cell` as the backpointer of `child`. */
  method SetBack(back: array2<Option<Pos>>, child: Pos, cell: Pos, ghost parent: map<Pos, Pos>)
    requires BackIs(back, parent) && InBounds(child, back.Length0, back.Length1)
    modifies back
    ensures BackIs(back, parent[child := cell])
  {
    back[child.r, child.c] := Some(cell);
  }

  /** One round of the generator's loop: visits the room on top of the
      stack, records it as the end room when the stack is higher than ever
      before, then pushes an arbitrary unvisited neighbouring room, opening
      the wall to it and setting its backpointer, or pops the top room when
      it has none. Every round either discovers a room or shrinks the stack. */
  method SearchRound(board: array2<Cell>, back: array2<Option<Pos>>, stack: seq<Pos>,
                     visited: set<Pos>, maxLength: int, end: Pos, ghost parent: map<Pos, Pos>,
                     ghost rank: map<Pos, nat>, ghost depth: map<Pos, nat>, ghost count: nat)
    returns (stack': seq<Pos>, visited': set<Pos>, maxLength': int, end': Pos,
             ghost parent': map<Pos, Pos>, ghost rank': map<Pos, nat>,
             ghost depth': map<Pos, nat>, ghost count': nat)
    requires board.Length0 == back.Length0 && board.Length1 == back.Length1
    requires |stack| > 0
    requires SearchInv(board.Length0, board.Length1, stack, visited, maxLength, end, parent, rank, depth, count)
    requires BoardIs(board, visited, parent) && BackIs(back, parent)
    modifies board, back
    ensures SearchInv(board.Length0, board.Length1, stack', visited', maxLength', end', parent', rank', depth', count')
    ensures BoardIs(board, visited', parent') && BackIs(back, parent')
    ensures rank.Keys < rank'.Keys <= Rooms(board.Length0, board.Length1) ||
            (rank'.Keys == rank.Keys && |stack'| < |stack|)
    ensures visited' == visited + {Top(stack)}
    ensures (maxLength', end') ==
            if |stack| > maxLength then (|stack|, Top(stack)) else (maxLength, end)
    ensures var children := Candidates(Top(stack), board.Length0, board.Length1, visited');
      || (children == [] && stack' == stack[..|stack| - 1] &&
          parent' == parent && rank' == rank && depth' == depth && count' == count)
      || (exists child :: child in children && stack' == stack + [child] &&
            parent' == parent[child := Top(stack)] && rank' == rank[child := count] &&
            depth' == depth[child := |stack| + 1] && count' == count + 1)
  {
    var rows, cols := board.Length0, board.Length1;
    var cell := stack[|stack| - 1];
    var r, c := cell.r, cell.c;
    VisitTop(rows, cols, stack, visited, maxLength, end, parent, rank, depth, count);
    OpenRoom(board, cell, visited, parent);
    visited' := visited + {cell};
    maxLength', end' := maxLength, end;

    // the end square is the first one reached at the greatest stack height
    if |stack| > maxLength {
      maxLength' := |stack|;
      end' := Pos(r, c);
    }

    var children := Candidates(cell, rows, cols, visited');
    if |children| > 0 {
      assert children[0] in children;
      var child :| child in children;
      stack', parent', rank', depth', count' :=
        Descend(board, back, stack, visited', maxLength', end', parent, rank, depth, count, child);
    } else {
      PopDeadEnd(rows, cols, stack, visited', maxLength', end', parent, rank, depth, count);
      stack' := stack[..|stack| - 1];
      parent', rank', depth', count' := parent, rank, depth, count;
    }
  }

  /** Pushes the unvisited room `child` next to the visited room on top of
      the stack: opens the wall between them and points `child` back at the top. */
  method Descend(board: array2<Cell>, back: array2<Option<Pos>>, stack: seq<Pos>,
                 ghost visited: set<Pos>, ghost maxLength: int, ghost end: Pos, ghost parent: map<Pos, Pos>,
                 ghost rank: map<Pos, nat>, ghost depth: map<Pos, nat>, ghost count: nat, child: Pos)
    returns (stack': seq<Pos>, ghost parent': map<Pos, Pos>, ghost rank': map<Pos, nat>,
             ghost depth': map<Pos, nat>, ghost count': nat)
    requires board.Length0 == back.Length0 && board.Length1 == back.Length1
    requires SearchInv(board.Length0, board.Length1, stack, visited, maxLength, end, parent, rank, depth, count)
    requires |stack| > 0 && Top(stack) in visited
    requires GridNeighbor(Top(stack), child, board.Length0, board.Length1) && child !in visited
    requires BoardIs(board, visited, parent) && BackIs(back, parent)
    modifies board, back
    ensures stack' == stack + [child]
    ensures parent' == parent[child := Top(stack)] && rank' == rank[child := count]
    ensures depth' == depth[child := |stack| + 1] && count' == count + 1
    ensures SearchInv(board.Length0, board.Length1, stack', visited, maxLength, end, parent', rank', depth', count')
    ensures BoardIs(board, visited, parent') && BackIs(back, parent')
    ensures rank.Keys < rank'.Keys <= Rooms(board.Length0, board.Length1)
  {
    var rows, cols := board.Length0, board.Length1;
    var cell := stack[|stack| - 1];
    PushChild(rows, cols, stack, visited, maxLength, end, parent, rank, depth, count, child);
    // remove the wall between the two rooms
    OpenWall(board, cell, child, visited, parent, rank);
    stack' := stack + [child];
    SetBack(back, child, cell, parent);
    parent' := parent[child := cell];
    rank' := rank[child := count];
    depth' := depth[child := |stack'|];
    count' := count + 1;
  }

  /** A finished maze: `parent` is a tree spanning every room of the board,
      `end` is its first deepest room, the board shows the tree with the
      start and stop rooms stamped on it, and `path` is the walk back from
      `end` along the tree. */
  ghost predicate Built(board: array2<Cell>, path: seq<Step>, end: Pos,
                        parent: map<Pos, Pos>, rank: map<Pos, nat>)
    reads board
  {
    && Rooted(parent, rank)
    && rank.Keys == Rooms(board.Length0, board.Length1)
    && FirstDeepest(parent, rank, end)
    && Stamped(board, end, rank.Keys, parent)
    && ChainTo(Chain(parent, rank, end), end)
    && path == PathAlong(Chain(parent, rank, end), end)
  }

  /** On a finished maze, a square other than the start and stop rooms is
      open exactly when it is a room or the wall slot halfway along a tree edge. */
  lemma OpenSquares(board: array2<Cell>, path: seq<Step>, end: Pos,
                    parent: map<Pos, Pos>, rank: map<Pos, nat>, i: int, j: int)
    requires Built(board, path, end, parent, rank)
    requires 0 <= i < board.Length0 && 0 <= j < board.Length1 && Pos(i, j) != StartCell && Pos(i, j) != end
    ensures board[i, j] == Space <==>
            IsRoom(Pos(i, j), board.Length0, board.Length1) ||
            exists p :: p in parent && Mid(p, parent[p]) == Pos(i, j)
  {
    if IsRoom(Pos(i, j), board.Length0, board.Length1) {
      assert Pos(i, j) in rank;
    } else if p :| p in parent && Mid(p, parent[p]) == Pos(i, j) {
      assert p in rank && IsRoom(p, board.Length0, board.Length1);
      EdgeIsOpen(rank.Keys, parent, p);
    } else if board[i, j] == Space {
      OpenSquareIsRoomOrEdge(rank.Keys, parent, i, j);
    }
  }

  /** Every square of the solution path is an open square of the board. */
  lemma PathIsOpen(board: array2<Cell>, path: seq<Step>, end: Pos,
                   parent: map<Pos, Pos>, rank: map<Pos, nat>)
    requires Built(board, path, end, parent, rank)
    ensures forall k :: 0 <= k < |path| ==>
              InBounds(path[k].pos, board.Length0, board.Length1) &&
              board[path[k].pos.r, path[k].pos.c] == Space
  {
    var chain := Chain(parent, rank, end);
    if |chain| >= 2 {
      PathIsWalk(chain, end);
      forall k | 0 <= k < |path|
        ensures InBounds(path[k].pos, board.Length0, board.Length1)
        ensures board[path[k].pos.r, path[k].pos.c] == Space
      {
        EntryAt(chain, end, k);
        var h := k / 2;
        if k % 2 == 0 {
          var a, b := chain[h], chain[h + 1];
          assert a in rank && b in rank && parent[a] == b;
          assert IsRoom(a, board.Length0, board.Length1) && IsRoom(b, board.Length0, board.Length1);
          SlotSides(a, b);
          EdgeIsOpen(rank.Keys, parent, a);
        } else {
          assert chain[h + 1] in rank;
        }
      }
    } else {
      PathShape(chain, end);
    }
  }

  /** On the board the generator returns, the end room is open, and the
      start room has no backpointer. */
  lemma GeneratedEnds(board: array2<Cell>, back: array2<Option<Pos>>, end: Pos,
                      parent: map<Pos, Pos>, rank: map<Pos, nat>)
    requires Rooted(parent, rank) && rank.Keys == Rooms(board.Length0, board.Length1)
    requires BoardIs(board, rank.Keys, parent) && BackIs(back, parent)
    requires back.Length0 == board.Length0 && back.Length1 == board.Length1
    requires FirstDeepest(parent, rank, end)
    ensures IsRoom(end, board.Length0, board.Length1) && board[end.r, end.c] == Space
    ensures back[StartCell.r, StartCell.c] == None
  {
    assert end in Rooms(board.Length0, board.Length1);
    assert board[end.r, end.c] == Carved(rank.Keys, parent, end.r, end.c);
  }

  /** On a board with more than one room the stop room is not the start
      room: the end is a deepest room, and any room but the start lies
      deeper than the start. */
  lemma StopIsNotStart(parent: map<Pos, Pos>, rank: map<Pos, nat>, end: Pos, rows: int, cols: int)
    requires Rooted(parent, rank) && rank.Keys == Rooms(rows, cols) && FirstDeepest(parent, rank, end)
    requires rows >= 3 && cols >= 1
    ensures end != StartCell
  {
    var q := Pos(2, 0);
    assert IsRoom(q, rows, cols);
    assert q in rank && q != StartCell;
    assert q in parent;
    assert Chain(parent, rank, q) == [q] + Chain(parent, rank, parent[q]);
    assert Chain(parent, rank, StartCell) == [StartCell];
    assert Depth(parent, rank, q) <= Depth(parent, rank, end);
  }

  class Maze {
    /** The finished board, with START and STOP stamped on it. */
    var board: array2<Cell>
    /** The solution, from the square next to the stop room back to the square
        next to the start room. */
    var path: seq<Step>

    /** The stop room, the spanning tree the generator built, and its discovery
        order: the source keeps none of these after construction. */
    ghost var end: Pos
    ghost var parent: map<Pos, Pos>
    ghost var rank: map<Pos, nat>

    ghost predicate Valid()
      reads this, board
    {
      Built(board, path, end, parent, rank)
    }

    /** Carves a perfect maze on a rows x cols board (walls included) by
        randomized depth-first search from the start room. Returns the board,
        the backpointer table and the room first reached at the greatest
        stack height. The random choice among candidate rooms is an arbitrary
        one; `parent` and `rank` are the tree the table encodes. */
    static method GenerateBoard(rows: int, cols: int)
      returns (board: array2<Cell>, back: array2<Option<Pos>>, end: Pos,
               ghost parent: map<Pos, Pos>, ghost rank: map<Pos, nat>)
      requires rows >= 1 && cols >= 1
      ensures fresh(board) && fresh(back)
      ensures board.Length0 == rows && board.Length1 == cols
      ensures back.Length0 == rows && back.Length1 == cols
      ensures Rooted(parent, rank) && rank.Keys == Rooms(rows, cols)
      ensures BoardIs(board, rank.Keys, parent) && BackIs(back, parent)
      ensures FirstDeepest(parent, rank, end)
    {
      var maxLength := 0;
      var stack := [StartCell];
      var visited: set<Pos> := {};
      board := new Cell[rows, cols]((i, j) => Wall);
      back := new Option<Pos>[rows, cols]((i, j) => None);
      end := StartCell;
      parent := map[];
      rank := map[StartCell := 0];
      ghost var depth: map<Pos, nat> := map[StartCell := 1];
      ghost var count := 1;
      SearchStarts(rows, cols);

      while |stack| > 0
        invariant SearchInv(rows, cols, stack, visited, maxLength, end, parent, rank, depth, count)
        invariant BoardIs(board, visited, parent) && BackIs(back, parent)
        decreases Rooms(rows, cols) - rank.Keys, |stack|
      {
        stack, visited, maxLength, end, parent, rank, depth, count :=
          SearchRound(board, back, stack, visited, maxLength, end, parent, rank, depth, count);
      }

      SearchEnds(rows, cols, visited, maxLength, end, parent, rank, depth, count);
    }

    /** Follows the backpointers from `end` to the start room and returns the
        entries to draw: each corridor crossed, with the direction of travel
        from the start side, and each room passed between the two ends, with
        no direction. */
    static method GetPath(back: array2<Option<Pos>>, end: Pos,
                          ghost parent: map<Pos, Pos>, ghost rank: map<Pos, nat>)
      returns (path: seq<Step>)
      requires Rooted(parent, rank) && Within(rank, back.Length0, back.Length1) && end in rank
      requires BackIs(back, parent)
      ensures ChainTo(Chain(parent, rank, end), end)
      ensures path == PathAlong(Chain(parent, rank, end), end)
    {
      ghost var chain := Chain(parent, rank, end);
      ChainIsWalkable(parent, rank, back.Length0, back.Length1, end);
      path := [];
      var cell: Option<Pos> := Some(end);
      ghost var n := 0;
      while cell.Some?
        invariant 0 <= n <= |chain|
        invariant n < |chain| ==> cell == Some(chain[n])
        invariant n == |chain| ==> cell.None?
        invariant path == Emitted(chain, end, n)
        decreases |chain| - n
      {
        var prev := cell.value;
        if !(prev == StartCell || prev == end) {
          path := path + [Step(prev, NoDir)];
        }
        assert IsRoom(prev, back.Length0, back.Length1);
        cell := back[prev.r, prev.c];
        if cell.Some? {
          var between := Pos((prev.r + cell.value.r) / 2, (prev.c + cell.value.c) / 2);
          path := path + [Step(between, GetDir(cell.value, prev).value)];
        }
        n := n + 1;
      }
    }

    /** Builds a maze on a rows x cols board (walls included): generates it,
        marks the start room START and then the end room STOP, so STOP wins
        when the two coincide, and records the solution path. */
    constructor (rows: int, cols: int)
      requires rows >= 1 && cols >= 1
      ensures Valid()
      ensures board.Length0 == rows && board.Length1 == cols
    {
      var b, back, e, par, rk := GenerateBoard(rows, cols);
      board, end, parent, rank := b, e, par, rk;
      StampEnds(b, e, rk.Keys, par);
      var p := GetPath(back, e, par, rk);
      path := p;
    }
  }
}
