/** The solution path: the entries the path walk emits while it follows a
    chain of backpointers from the end room to the start room. */
module SolutionPath {
  import opened Geometry

  /** Consecutive rooms of `chain` are two squares apart on one axis. */
  predicate Linked(chain: seq<Pos>) {
    forall i :: 0 <= i < |chain| - 1 ==> TwoApart(chain[i], chain[i + 1])
  }

  /** `chain` runs from `end` to the start room through distinct rooms,
      each two squares from the next. */
  predicate ChainTo(chain: seq<Pos>, end: Pos) {
    && |chain| >= 1 && chain[0] == end && chain[|chain| - 1] == StartCell
    && Linked(chain)
    && (forall i, j :: 0 <= i < j < |chain| ==> chain[i] != chain[j])
    && (forall i :: 0 <= i < |chain| ==> chain[i].r % 2 == 0 && chain[i].c % 2 == 0)
  }

  /** The corridor entry for the step from chain[k] back to chain[k + 1]:
      the slot between them, with the direction of travel from chain[k + 1]
      to chain[k]. */
  function Corridor(chain: seq<Pos>, k: nat): Step
    requires Linked(chain) && k + 1 < |chain|
  {
    Step(Mid(chain[k], chain[k + 1]), GetDir(chain[k + 1], chain[k]).value)
  }

  /** What one round of the walk adds while it stands on chain[i]: the room
      itself unless it is the start or the end room, then the corridor to
      the next room if there is one. */
  function StepsAt(chain: seq<Pos>, end: Pos, i: nat): seq<Step>
    requires Linked(chain) && i < |chain|
  {
    var cell := chain[i];
    (if cell == StartCell || cell == end then [] else [Step(cell, NoDir)]) +
    (if i + 1 < |chain| then [Corridor(chain, i)] else [])
  }

  /** What the first `n` rounds of the walk emit. */
  function Emitted(chain: seq<Pos>, end: Pos, n: nat): seq<Step>
    requires Linked(chain) && n <= |chain|
  {
    if n == 0 then [] else Emitted(chain, end, n - 1) + StepsAt(chain, end, n - 1)
  }

  /** The whole path the walk emits along `chain`. */
  function PathAlong(chain: seq<Pos>, end: Pos): seq<Step>
    requires Linked(chain)
  {
    Emitted(chain, end, |chain|)
  }

  /** After the first n rounds (short of the start room) the walk has
      emitted n corridors interleaved with the n - 1 rooms between them. */
  lemma {:induction false} EmittedShape(chain: seq<Pos>, end: Pos, n: nat)
    requires ChainTo(chain, end) && 1 <= n < |chain|
    ensures |Emitted(chain, end, n)| == 2 * n - 1
    ensures forall k :: 0 <= k < n ==> Emitted(chain, end, n)[2 * k] == Corridor(chain, k)
    ensures forall k :: 0 <= k < n - 1 ==> Emitted(chain, end, n)[2 * k + 1] == Step(chain[k + 1], NoDir)
  {
    if n > 1 {
      EmittedShape(chain, end, n - 1);
      var cell := chain[n - 1];
      assert cell != end && cell != StartCell;
      assert StepsAt(chain, end, n - 1) == [Step(cell, NoDir), Corridor(chain, n - 1)];
    } else {
      assert chain[0] == end;
      assert StepsAt(chain, end, 0) == [Corridor(chain, 0)];
    }
  }

  /** The path along a chain of d + 1 rooms: empty when the end is the start
      room, otherwise d corridor entries at the even positions and the d - 1
      intermediate rooms, with no arrow, at the odd positions. */
  lemma PathShape(chain: seq<Pos>, end: Pos)
    requires ChainTo(chain, end)
    ensures |chain| == 1 ==> PathAlong(chain, end) == []
    ensures |chain| >= 2 ==> |PathAlong(chain, end)| == 2 * |chain| - 3
    ensures forall k :: 0 <= k < |chain| - 1 ==> PathAlong(chain, end)[2 * k] == Corridor(chain, k)
    ensures forall k :: 0 <= k < |chain| - 2 ==>
              PathAlong(chain, end)[2 * k + 1] == Step(chain[k + 1], NoDir)
  {
    var n := |chain|;
    if n == 1 {
      assert StepsAt(chain, end, 0) == [];
      assert Emitted(chain, end, 1) == Emitted(chain, end, 0) + StepsAt(chain, end, 0);
    } else {
      EmittedShape(chain, end, n - 1);
      assert StepsAt(chain, end, n - 1) == [];
    }
  }

  /** The corridor between chain[k] and chain[k + 1] is a wall slot touching
      both rooms, and its arrow leads from chain[k + 1] into it and on to chain[k]. */
  lemma CorridorBetween(chain: seq<Pos>, end: Pos, k: nat)
    requires ChainTo(chain, end) && k + 1 < |chain|
    ensures var s := Corridor(chain, k);
      && Touching(chain[k], s.pos) && Touching(s.pos, chain[k + 1])
      && (s.pos.r % 2 == 1 || s.pos.c % 2 == 1)
      && s.dir != NoDir
      && Shift(chain[k + 1], s.dir, 1) == s.pos
      && Shift(s.pos, s.dir, 1) == chain[k]
  {
    var p, q := chain[k + 1], chain[k];
    assert TwoApart(q, p);
    assert Mid(q, p) == Mid(p, q);
    MidOfTwoApart(p, q);
    MidOfTwoApart(q, p);
  }

  /** Entry k of the path, read off its shape. */
  lemma EntryAt(chain: seq<Pos>, end: Pos, k: nat)
    requires ChainTo(chain, end) && |chain| >= 2 && k < 2 * |chain| - 3
    ensures |PathAlong(chain, end)| == 2 * |chain| - 3
    ensures k % 2 == 0 ==> PathAlong(chain, end)[k] == Corridor(chain, k / 2)
    ensures k % 2 == 1 ==> PathAlong(chain, end)[k] == Step(chain[k / 2 + 1], NoDir)
  {
    PathShape(chain, end);
    var h := k / 2;
    if k % 2 == 0 {
      assert k == 2 * h;
    } else {
      assert k == 2 * h + 1;
    }
  }

  /** Entry k of the path touches entry k + 1. */
  lemma EntriesTouch(chain: seq<Pos>, end: Pos, k: nat)
    requires ChainTo(chain, end) && |chain| >= 2 && k + 1 < 2 * |chain| - 3
    ensures |PathAlong(chain, end)| == 2 * |chain| - 3
    ensures Touching(PathAlong(chain, end)[k].pos, PathAlong(chain, end)[k + 1].pos)
  {
    EntryAt(chain, end, k);
    EntryAt(chain, end, k + 1);
    if k % 2 == 0 {
      CorridorBetween(chain, end, k / 2);
    } else {
      CorridorBetween(chain, end, k / 2 + 1);
    }
  }

  /** Entry k of the path is neither the start nor the end room. */
  lemma EntryAvoidsEnds(chain: seq<Pos>, end: Pos, k: nat)
    requires ChainTo(chain, end) && |chain| >= 2 && k < 2 * |chain| - 3
    ensures |PathAlong(chain, end)| == 2 * |chain| - 3
    ensures PathAlong(chain, end)[k].pos != StartCell && PathAlong(chain, end)[k].pos != end
  {
    EntryAt(chain, end, k);
    if k % 2 == 0 {
      CorridorBetween(chain, end, k / 2);
    } else {
      assert chain[k / 2 + 1] != chain[0] && chain[k / 2 + 1] != chain[|chain| - 1];
    }
  }

  /** The path is a walk: it leaves from a square touching the end room, each
      entry touches the next, the last touches the start room, and neither
      the start nor the end room appears in it. */
  lemma PathIsWalk(chain: seq<Pos>, end: Pos)
    requires ChainTo(chain, end) && |chain| >= 2
    ensures var path := PathAlong(chain, end);
      && |path| == 2 * |chain| - 3
      && Touching(end, path[0].pos)
      && Touching(path[|path| - 1].pos, StartCell)
      && (forall k :: 0 <= k < |path| - 1 ==> Touching(path[k].pos, path[k + 1].pos))
      && (forall k :: 0 <= k < |path| ==> path[k].pos != StartCell && path[k].pos != end)
  {
    var n := |chain|;
    EntryAt(chain, end, 0);
    EntryAt(chain, end, 2 * n - 4);
    CorridorBetween(chain, end, 0);
    CorridorBetween(chain, end, n - 2);
    PathStepsTouch(chain, end);
    PathAvoidsEnds(chain, end);
  }

  lemma PathStepsTouch(chain: seq<Pos>, end: Pos)
    requires ChainTo(chain, end) && |chain| >= 2
    ensures |PathAlong(chain, end)| == 2 * |chain| - 3
    ensures forall k :: 0 <= k < 2 * |chain| - 4 ==>
              Touching(PathAlong(chain, end)[k].pos, PathAlong(chain, end)[k + 1].pos)
  {
    EntryAt(chain, end, 0);
    forall k | 0 <= k < 2 * |chain| - 4
      ensures Touching(PathAlong(chain, end)[k].pos, PathAlong(chain, end)[k + 1].pos)
    {
      EntriesTouch(chain, end, k);
    }
  }

  lemma PathAvoidsEnds(chain: seq<Pos>, end: Pos)
    requires ChainTo(chain, end) && |chain| >= 2
    ensures |PathAlong(chain, end)| == 2 * |chain| - 3
    ensures forall k :: 0 <= k < 2 * |chain| - 3 ==>
              PathAlong(chain, end)[k].pos != StartCell && PathAlong(chain, end)[k].pos != end
  {
    EntryAt(chain, end, 0);
    forall k | 0 <= k < 2 * |chain| - 3
      ensures PathAlong(chain, end)[k].pos != StartCell && PathAlong(chain, end)[k].pos != end
    {
      EntryAvoidsEnds(chain, end, k);
    }
  }

  /** Every corridor entry carries an arrow pointing from the start side to
      the end side of the corridor, and the room entries carry none. */
  lemma PathArrows(chain: seq<Pos>, end: Pos)
    requires ChainTo(chain, end) && |chain| >= 2
    ensures var path := PathAlong(chain, end);
      && |path| == 2 * |chain| - 3
      && (forall k :: 0 <= k < |path| ==> (path[k].dir == NoDir <==> k % 2 == 1))
      && (forall k :: 0 <= k < |chain| - 1 ==>
            Shift(chain[k + 1], path[2 * k].dir, 1) == path[2 * k].pos &&
            Shift(path[2 * k].pos, path[2 * k].dir, 1) == chain[k])
  {
    var path := PathAlong(chain, end);
    PathShape(chain, end);
    forall k | 0 <= k < |chain| - 1
      ensures Shift(chain[k + 1], path[2 * k].dir, 1) == path[2 * k].pos
      ensures Shift(path[2 * k].pos, path[2 * k].dir, 1) == chain[k]
    {
      CorridorBetween(chain, end, k);
    }
    forall k | 0 <= k < |path|
      ensures path[k].dir == NoDir <==> k % 2 == 1
    {
      EntryAt(chain, end, k);
      if k % 2 == 0 {
        CorridorBetween(chain, end, k / 2);
      }
    }
  }
}
