/** The spanning tree the generator records in its backpointer table, and
    the board that tree determines.

    `parent` maps each discovered room other than the start to the room it
    was discovered from (the non-empty entries of the source's `back` table);
    `rank` gives each discovered room its discovery order. Neither is part of
    the source: they are the ghost view under which its invariants are stated. */
module SpanningTree {
  import opened Geometry

  /** The rooms `a` and `b` are joined by a tree edge, in either orientation. */
  predicate Joined(parent: map<Pos, Pos>, a: Pos, b: Pos) {
    (a in parent && parent[a] == b) || (b in parent && parent[b] == a)
  }

  /** The square the generator leaves at (i, j) once it has visited the rooms
      in `visited` and recorded the edges in `parent`: a room is open once
      visited, a wall slot is open when the rooms on its two sides are joined,
      and a square odd on both axes is never opened. */
  function Carved(visited: set<Pos>, parent: map<Pos, Pos>, i: int, j: int): Cell {
    if i % 2 == 0 && j % 2 == 0 then
      (if Pos(i, j) in visited then Space else Wall)
    else if i % 2 == 1 && j % 2 == 1 then
      Wall
    else if i % 2 == 1 then
      (if Joined(parent, Pos(i - 1, j), Pos(i + 1, j)) then Space else Wall)
    else
      (if Joined(parent, Pos(i, j - 1), Pos(i, j + 1)) then Space else Wall)
  }

  /** The backpointer stored for square (i, j): its parent, or none. */
  function BackAt(parent: map<Pos, Pos>, i: int, j: int): Option<Pos> {
    if Pos(i, j) in parent then Some(parent[Pos(i, j)]) else None
  }

  /** `parent` is a tree rooted at the start room: every discovered room but
      the start has a parent, discovered strictly earlier, two squares away
      on one axis. */
  ghost predicate Rooted(parent: map<Pos, Pos>, rank: map<Pos, nat>) {
    && StartCell in rank
    && StartCell !in parent
    && parent.Keys == rank.Keys - {StartCell}
    && (forall p {:trigger parent[p]} :: p in parent ==>
          p in rank && parent[p] in rank && rank[parent[p]] < rank[p] && TwoApart(p, parent[p]))
  }

  /** Every discovered room is a room of the rows x cols board. */
  ghost predicate Within(rank: map<Pos, nat>, rows: int, cols: int) {
    forall p :: p in rank ==> IsRoom(p, rows, cols)
  }

  /** The rooms met when following backpointers from `p` to the start. */
  ghost function Chain(parent: map<Pos, Pos>, rank: map<Pos, nat>, p: Pos): (ch: seq<Pos>)
    requires Rooted(parent, rank) && p in rank
    ensures |ch| >= 1 && ch[0] == p && ch[|ch| - 1] == StartCell
    ensures forall i :: 0 <= i < |ch| ==> ch[i] in rank
    ensures forall i :: 0 <= i < |ch| - 1 ==> ch[i] in parent && parent[ch[i]] == ch[i + 1]
    ensures forall i, j :: 0 <= i < j < |ch| ==> rank[ch[j]] < rank[ch[i]]
    decreases rank[p]
  {
    if p in parent then [p] + Chain(parent, rank, parent[p]) else [p]
  }

  /** The depth of a room: the number of rooms on its chain, which is the
      height the search stack has while that room is on top. */
  ghost function Depth(parent: map<Pos, Pos>, rank: map<Pos, nat>, p: Pos): nat
    requires Rooted(parent, rank) && p in rank
  {
    |Chain(parent, rank, p)|
  }

  /** `end` is a deepest discovered room, and the earliest discovered one
      among those of its depth. */
  ghost predicate FirstDeepest(parent: map<Pos, Pos>, rank: map<Pos, nat>, end: Pos)
    requires Rooted(parent, rank)
  {
    && end in rank
    && (forall p :: p in rank ==> Depth(parent, rank, p) <= Depth(parent, rank, end))
    && (forall p :: p in rank && rank[p] < rank[end] ==>
          Depth(parent, rank, p) < Depth(parent, rank, end))
  }

  /** `depth` numbers the tree's levels, the start being level 1. */
  ghost predicate Levels(parent: map<Pos, Pos>, rank: map<Pos, nat>, depth: map<Pos, nat>) {
    && depth.Keys == rank.Keys
    && StartCell in depth && depth[StartCell] == 1
    && (forall p {:trigger parent[p]} :: p in parent && p in depth && parent[p] in depth ==>
          depth[p] == depth[parent[p]] + 1)
  }

  /** A level numbering agrees with the chain lengths. */
  lemma {:induction false} LevelIsDepth(parent: map<Pos, Pos>, rank: map<Pos, nat>,
                                        depth: map<Pos, nat>, p: Pos)
    requires Rooted(parent, rank) && Levels(parent, rank, depth) && p in rank
    ensures depth[p] == Depth(parent, rank, p)
    decreases rank[p]
  {
    if p in parent {
      LevelIsDepth(parent, rank, depth, parent[p]);
    }
  }

  /** Adding the edge from `child` to `cur` joins exactly that pair of rooms anew. */
  lemma JoinedAfterAdding(parent: map<Pos, Pos>, rank: map<Pos, nat>, cur: Pos, child: Pos, a: Pos, b: Pos)
    requires Rooted(parent, rank) && child !in rank
    ensures Joined(parent[child := cur], a, b) <==>
            Joined(parent, a, b) || (a == child && b == cur) || (a == cur && b == child)
  {
  }

  /** The wall slot between two rooms two squares apart, and the rooms on its
      two sides in the order Carved names them. */
  lemma SlotSides(p: Pos, q: Pos)
    requires p.r % 2 == 0 && p.c % 2 == 0 && TwoApart(p, q)
    ensures var m := Mid(p, q);
      if p.c == q.c then
        m.r % 2 == 1 && m.c % 2 == 0 &&
        ((Pos(m.r - 1, m.c) == p && Pos(m.r + 1, m.c) == q) ||
         (Pos(m.r - 1, m.c) == q && Pos(m.r + 1, m.c) == p))
      else
        m.r % 2 == 0 && m.c % 2 == 1 &&
        ((Pos(m.r, m.c - 1) == p && Pos(m.r, m.c + 1) == q) ||
         (Pos(m.r, m.c - 1) == q && Pos(m.r, m.c + 1) == p))
  {
    if q == Pos(p.r + 2, p.c) {
      assert Mid(p, q) == Pos(p.r + 1, p.c);
    } else if q == Pos(p.r - 2, p.c) {
      assert Mid(p, q) == Pos(p.r - 1, p.c);
    } else if q == Pos(p.r, p.c + 2) {
      assert Mid(p, q) == Pos(p.r, p.c + 1);
    } else {
      assert Mid(p, q) == Pos(p.r, p.c - 1);
    }
  }

  /** Adding the edge from an undiscovered room `child` to the room `cur`
      opens exactly one square: the wall slot between them, which was closed
      before. */
  lemma CarveOpensOneWall(visited: set<Pos>, parent: map<Pos, Pos>, rank: map<Pos, nat>,
                          cur: Pos, child: Pos, i: int, j: int)
    requires Rooted(parent, rank) && cur in rank && child !in rank
    requires cur.r % 2 == 0 && cur.c % 2 == 0 && TwoApart(cur, child)
    ensures Carved(visited, parent, Mid(cur, child).r, Mid(cur, child).c) == Wall
    ensures Carved(visited, parent[child := cur], i, j) ==
            if Pos(i, j) == Mid(cur, child) then Space else Carved(visited, parent, i, j)
  {
    var m := Mid(cur, child);
    SlotSides(cur, child);
    assert !Joined(parent, cur, child) && !Joined(parent, child, cur);
    assert Joined(parent[child := cur], cur, child) && Joined(parent[child := cur], child, cur);
    if Pos(i, j) == m {
    } else if i % 2 == 1 && j % 2 == 0 {
      var a, b := Pos(i - 1, j), Pos(i + 1, j);
      assert a.r + 2 == b.r && a.c == b.c;
      JoinedAfterAdding(parent, rank, cur, child, a, b);
    } else if i % 2 == 0 && j % 2 == 1 {
      var a, b := Pos(i, j - 1), Pos(i, j + 1);
      assert a.c + 2 == b.c && a.r == b.r;
      JoinedAfterAdding(parent, rank, cur, child, a, b);
    }
  }

  /** Only visited rooms and the wall slots halfway along tree edges are open. */
  lemma OpenSquareIsRoomOrEdge(visited: set<Pos>, parent: map<Pos, Pos>, i: int, j: int)
    requires Carved(visited, parent, i, j) == Space
    ensures (i % 2 == 0 && j % 2 == 0 && Pos(i, j) in visited) ||
            (exists p :: p in parent && Mid(p, parent[p]) == Pos(i, j))
  {
    if i % 2 == 1 && j % 2 == 0 {
      var a, b := Pos(i - 1, j), Pos(i + 1, j);
      assert Mid(a, b) == Pos(i, j) && Mid(b, a) == Pos(i, j);
    } else if i % 2 == 0 && j % 2 == 1 {
      var a, b := Pos(i, j - 1), Pos(i, j + 1);
      assert Mid(a, b) == Pos(i, j) && Mid(b, a) == Pos(i, j);
    }
  }

  /** Conversely, the wall slot halfway along every tree edge between rooms is open. */
  lemma EdgeIsOpen(visited: set<Pos>, parent: map<Pos, Pos>, p: Pos)
    requires p in parent && TwoApart(p, parent[p]) && p.r % 2 == 0 && p.c % 2 == 0
    ensures Carved(visited, parent, Mid(p, parent[p]).r, Mid(p, parent[p]).c) == Space
  {
    var q, m := parent[p], Mid(p, parent[p]);
    if p.c == q.c {
      if q.r == p.r + 2 {
        assert Pos(m.r - 1, m.c) == p && Pos(m.r + 1, m.c) == q;
      } else {
        assert Pos(m.r - 1, m.c) == q && Pos(m.r + 1, m.c) == p;
      }
    } else {
      if q.c == p.c + 2 {
        assert Pos(m.r, m.c - 1) == p && Pos(m.r, m.c + 1) == q;
      } else {
        assert Pos(m.r, m.c - 1) == q && Pos(m.r, m.c + 1) == p;
      }
    }
  }

  /** No room outside `S` lies next to a room in `S`. */
  ghost predicate ClosedUnder(S: set<Pos>, rows: int, cols: int) {
    forall p, q :: p in S && GridNeighbor(p, q, rows, cols) ==> q in S
  }

  /** A set of rooms that holds the start and is closed under stepping to
      neighbouring rooms holds every room of the board. */
  lemma {:induction false} ClosedSetHasRoom(S: set<Pos>, rows: int, cols: int, p: Pos)
    requires StartCell in S && ClosedUnder(S, rows, cols) && IsRoom(p, rows, cols)
    ensures p in S
    decreases p.r + p.c
  {
    if p.r >= 2 {
      var q := Pos(p.r - 2, p.c);
      ClosedSetHasRoom(S, rows, cols, q);
      assert GridNeighbor(q, p, rows, cols);
    } else if p.c >= 2 {
      var q := Pos(p.r, p.c - 2);
      ClosedSetHasRoom(S, rows, cols, q);
      assert GridNeighbor(q, p, rows, cols);
    }
  }

  lemma ClosedSetHasAllRooms(S: set<Pos>, rows: int, cols: int)
    requires StartCell in S && ClosedUnder(S, rows, cols)
    ensures Rooms(rows, cols) <= S
  {
    forall p | p in Rooms(rows, cols) ensures p in S {
      ClosedSetHasRoom(S, rows, cols, p);
    }
  }
}
