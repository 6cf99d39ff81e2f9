/** The state of the generator's depth-first search between two rounds of
    its loop, the invariant that state keeps, and the three moves a round is
    made of: visiting the room on top of the stack, pushing a new room, and
    popping a dead end.

    Besides the source's own variables (the stack, the visited set, the
    greatest stack height seen and the end room) the state carries the ghost
    tree `parent`, the discovery order `rank`, the stack height `depth` at
    which each room was reached, and the number `count` of rooms discovered. */
module DepthFirst {
  import opened Geometry
  import opened SpanningTree

  function Top(stack: seq<Pos>): Pos
    requires |stack| > 0
  {
    stack[|stack| - 1]
  }

  /** The stack is the backpointer chain of its top room, read from the start:
      stack[i] was reached at height i + 1 from stack[i - 1]. */
  ghost predicate StackIsChain(stack: seq<Pos>, parent: map<Pos, Pos>, rank: map<Pos, nat>,
                               depth: map<Pos, nat>)
  {
    && (|stack| > 0 ==> stack[0] == StartCell)
    && (forall i :: 0 <= i < |stack| ==> stack[i] in rank && stack[i] in depth && depth[stack[i]] == i + 1)
    && (forall i :: 0 < i < |stack| ==> stack[i] in parent && parent[stack[i]] == stack[i - 1])
  }

  /** The tree recorded so far: rooted at the start, on the board, with its
      levels numbered and its rooms ranked below `count`. */
  ghost predicate TreeSoFar(rows: int, cols: int, parent: map<Pos, Pos>, rank: map<Pos, nat>,
                            depth: map<Pos, nat>, count: nat)
  {
    && Rooted(parent, rank) && Within(rank, rows, cols) && Levels(parent, rank, depth)
    && (forall p :: p in rank ==> rank[p] < count)
  }

  /** Every discovered room is visited, except perhaps the one just pushed,
      which is then the most recently discovered. */
  ghost predicate Discovered(stack: seq<Pos>, visited: set<Pos>, rank: map<Pos, nat>) {
    && visited <= rank.Keys
    && (forall p :: p in rank && p !in visited ==> |stack| > 0 && p == Top(stack))
    && (forall i :: 0 <= i < |stack| - 1 ==> stack[i] in visited)
    && (|stack| > 0 && Top(stack) !in visited && Top(stack) in rank ==>
          forall p :: p in visited && p in rank ==> rank[p] < rank[Top(stack)])
  }

  /** The end room is the first visited room of greatest height. */
  ghost predicate EndSoFar(stack: seq<Pos>, visited: set<Pos>, maxLength: int, end: Pos,
                           rank: map<Pos, nat>, depth: map<Pos, nat>)
  {
    && end in rank && end in depth && visited <= rank.Keys && visited <= depth.Keys
    && (visited == {} ==> stack == [StartCell] && maxLength == 0)
    && (visited != {} ==> end in visited && depth[end] == maxLength)
    && (forall p :: p in visited && p in depth ==> depth[p] <= maxLength)
    && (forall p :: p in visited && p in rank && p in depth && rank[p] < rank[end] ==>
          depth[p] < maxLength)
  }

  /** A visited room that has left the stack has no unvisited neighbouring room. */
  ghost predicate Exhausted(rows: int, cols: int, stack: seq<Pos>, visited: set<Pos>) {
    forall p, q :: p in visited && p !in stack && GridNeighbor(p, q, rows, cols) ==> q in visited
  }

  /** The invariant of the generator's loop. */
  ghost predicate SearchInv(rows: int, cols: int, stack: seq<Pos>, visited: set<Pos>,
                            maxLength: int, end: Pos, parent: map<Pos, Pos>,
                            rank: map<Pos, nat>, depth: map<Pos, nat>, count: nat)
  {
    && TreeSoFar(rows, cols, parent, rank, depth, count)
    && StackIsChain(stack, parent, rank, depth)
    && Discovered(stack, visited, rank)
    && EndSoFar(stack, visited, maxLength, end, rank, depth)
    && Exhausted(rows, cols, stack, visited)
  }

  /** The state before the first round: only the start room, on the stack. */
  lemma SearchStarts(rows: int, cols: int)
    requires rows >= 1 && cols >= 1
    ensures SearchInv(rows, cols, [StartCell], {}, 0, StartCell, map[],
                      map[StartCell := 0], map[StartCell := 1], 1)
  {
  }

  /** Visiting the top room (marking it visited, and making it the end room
      when the stack is higher than ever before) keeps the invariant. */
  lemma VisitTop(rows: int, cols: int, stack: seq<Pos>, visited: set<Pos>,
                 maxLength: int, end: Pos, parent: map<Pos, Pos>,
                 rank: map<Pos, nat>, depth: map<Pos, nat>, count: nat)
    requires SearchInv(rows, cols, stack, visited, maxLength, end, parent, rank, depth, count)
    requires |stack| > 0
    ensures IsRoom(Top(stack), rows, cols) && Top(stack) in rank
    ensures var cell := Top(stack);
      SearchInv(rows, cols, stack, visited + {cell},
                if |stack| > maxLength then |stack| else maxLength,
                if |stack| > maxLength then cell else end,
                parent, rank, depth, count)
  {
    var cell := Top(stack);
    var visited' := visited + {cell};
    var maxLength' := if |stack| > maxLength then |stack| else maxLength;
    var end' := if |stack| > maxLength then cell else end;
    assert depth[cell] == |stack|;
    if cell !in visited && |stack| <= maxLength {
      assert visited != {};
      assert rank[end] < rank[cell];
    }
    forall p | p in visited' && p in rank && p in depth && rank[p] < rank[end']
      ensures depth[p] < maxLength'
    {
      if |stack| <= maxLength && p == cell {
        assert cell !in visited ==> rank[end] < rank[cell];
      }
    }
  }

  lemma PushKeepsTree(rows: int, cols: int, parent: map<Pos, Pos>, rank: map<Pos, nat>,
                      depth: map<Pos, nat>, count: nat, cell: Pos, child: Pos)
    requires TreeSoFar(rows, cols, parent, rank, depth, count)
    requires cell in rank && cell in depth && child !in rank
    requires IsRoom(child, rows, cols) && TwoApart(child, cell)
    ensures TreeSoFar(rows, cols, parent[child := cell], rank[child := count],
                      depth[child := depth[cell] + 1], count + 1)
  {
  }

  lemma PushKeepsStack(stack: seq<Pos>, parent: map<Pos, Pos>, rank: map<Pos, nat>,
                       depth: map<Pos, nat>, count: nat, child: Pos)
    requires StackIsChain(stack, parent, rank, depth) && |stack| > 0 && child !in rank
    ensures StackIsChain(stack + [child], parent[child := Top(stack)], rank[child := count],
                         depth[child := |stack| + 1])
  {
    var stack', parent', rank', depth' :=
      stack + [child], parent[child := Top(stack)], rank[child := count], depth[child := |stack| + 1];
    forall i | 0 <= i < |stack'|
      ensures stack'[i] in rank' && stack'[i] in depth' && depth'[stack'[i]] == i + 1
    {
      if i < |stack| { assert stack'[i] == stack[i] && stack[i] != child; }
    }
    forall i | 0 < i < |stack'|
      ensures stack'[i] in parent' && parent'[stack'[i]] == stack'[i - 1]
    {
      if i < |stack| { assert stack'[i] == stack[i] && stack[i] != child; }
    }
  }

  lemma PushKeepsDiscovered(stack: seq<Pos>, visited: set<Pos>, rank: map<Pos, nat>,
                            count: nat, child: Pos)
    requires Discovered(stack, visited, rank) && |stack| > 0 && Top(stack) in visited
    requires child !in rank && forall p :: p in rank ==> rank[p] < count
    ensures Discovered(stack + [child], visited, rank[child := count])
  {
  }

  lemma PushKeepsEnd(stack: seq<Pos>, visited: set<Pos>, maxLength: int, end: Pos,
                     rank: map<Pos, nat>, depth: map<Pos, nat>, count: nat, child: Pos, d: nat)
    requires EndSoFar(stack, visited, maxLength, end, rank, depth)
    requires visited != {} && child !in visited && child !in rank
    ensures EndSoFar(stack + [child], visited, maxLength, end, rank[child := count], depth[child := d])
  {
  }

  lemma PushKeepsExhausted(rows: int, cols: int, stack: seq<Pos>, visited: set<Pos>, child: Pos)
    requires Exhausted(rows, cols, stack, visited)
    ensures Exhausted(rows, cols, stack + [child], visited)
  {
    forall p, q | p in visited && p !in stack + [child] && GridNeighbor(p, q, rows, cols)
      ensures q in visited
    {
      assert p !in stack;
    }
  }

  /** Pushing an unvisited neighbouring room of the visited top room, with the
      top as its parent, keeps the invariant; the pushed room was undiscovered. */
  lemma PushChild(rows: int, cols: int, stack: seq<Pos>, visited: set<Pos>,
                  maxLength: int, end: Pos, parent: map<Pos, Pos>,
                  rank: map<Pos, nat>, depth: map<Pos, nat>, count: nat, child: Pos)
    requires SearchInv(rows, cols, stack, visited, maxLength, end, parent, rank, depth, count)
    requires |stack| > 0 && Top(stack) in visited
    requires GridNeighbor(Top(stack), child, rows, cols) && child !in visited
    ensures child in Rooms(rows, cols) && child !in rank && TwoApart(Top(stack), child)
    ensures SearchInv(rows, cols, stack + [child], visited, maxLength, end,
                      parent[child := Top(stack)], rank[child := count],
                      depth[child := |stack| + 1], count + 1)
  {
    var cell := Top(stack);
    assert IsRoom(cell, rows, cols) && depth[cell] == |stack|;
    NeighborIsRoom(cell, child, rows, cols);
    assert child !in rank;
    PushKeepsTree(rows, cols, parent, rank, depth, count, cell, child);
    PushKeepsStack(stack, parent, rank, depth, count, child);
    PushKeepsDiscovered(stack, visited, rank, count, child);
    PushKeepsEnd(stack, visited, maxLength, end, rank, depth, count, child, |stack| + 1);
    PushKeepsExhausted(rows, cols, stack, visited, child);
  }

  /** Popping the visited top room once it has no unvisited neighbouring room
      keeps the invariant. */
  lemma PopDeadEnd(rows: int, cols: int, stack: seq<Pos>, visited: set<Pos>,
                   maxLength: int, end: Pos, parent: map<Pos, Pos>,
                   rank: map<Pos, nat>, depth: map<Pos, nat>, count: nat)
    requires SearchInv(rows, cols, stack, visited, maxLength, end, parent, rank, depth, count)
    requires |stack| > 0 && Top(stack) in visited
    requires forall q :: GridNeighbor(Top(stack), q, rows, cols) ==> q in visited
    ensures SearchInv(rows, cols, stack[..|stack| - 1], visited, maxLength, end,
                      parent, rank, depth, count)
  {
    var cell := Top(stack);
    var stack' := stack[..|stack| - 1];
    forall i | 0 <= i < |stack'| ensures stack'[i] != cell {
      assert depth[stack[i]] == i + 1 < |stack| == depth[cell];
    }
    forall p, q | p in visited && p !in stack' && GridNeighbor(p, q, rows, cols) ensures q in visited {
      if p != cell {
        assert p !in stack;
      }
    }
  }

  /** With the end room the first visited room of greatest height and every
      discovered room visited, the end room is the first deepest of the tree. */
  lemma EndIsFirstDeepest(rows: int, cols: int, visited: set<Pos>, maxLength: int, end: Pos,
                          parent: map<Pos, Pos>, rank: map<Pos, nat>, depth: map<Pos, nat>, count: nat)
    requires TreeSoFar(rows, cols, parent, rank, depth, count)
    requires EndSoFar([], visited, maxLength, end, rank, depth) && visited == rank.Keys
    ensures FirstDeepest(parent, rank, end)
  {
    forall p | p in rank ensures depth[p] == Depth(parent, rank, p) {
      LevelIsDepth(parent, rank, depth, p);
    }
  }

  /** When the stack is empty every room of the board has been discovered and
      visited, and the end room is the first one reached at the greatest height. */
  lemma SearchEnds(rows: int, cols: int, visited: set<Pos>,
                   maxLength: int, end: Pos, parent: map<Pos, Pos>,
                   rank: map<Pos, nat>, depth: map<Pos, nat>, count: nat)
    requires SearchInv(rows, cols, [], visited, maxLength, end, parent, rank, depth, count)
    ensures visited == rank.Keys == Rooms(rows, cols)
    ensures Rooted(parent, rank) && FirstDeepest(parent, rank, end)
  {
    assert visited == rank.Keys;
    assert ClosedUnder(visited, rows, cols);
    ClosedSetHasAllRooms(visited, rows, cols);
    EndIsFirstDeepest(rows, cols, visited, maxLength, end, parent, rank, depth, count);
  }
}
