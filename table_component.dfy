/**
  The board's click handlers (src/app/components/table/table.component.ts).
  The component holds nothing of its own: both handlers read and change the
  game service they are given, followed by the effects the change triggers.
 */
module TableComponent {
  import opened GameInterface
  import opened Grid
  import opened Boards
  import opened StateService

  /** The mark a right click leaves on a cell with mark `m`. */
  function NextMark(m: Mark): (r: Mark)
    ensures r == Visible <==> m == Visible
    ensures m != Visible ==> r != m
  {
    match m
    case Hidden => Flag
    case Flag => Question
    case Question => Hidden
    case Visible => Visible
  }

  /** How a right click on a cell with mark `m` changes the flag counter. */
  function FlagDelta(m: Mark): (r: int)
    ensures r == (if NextMark(m) == Flag then 1 else 0) - (if m == Flag then 1 else 0)
  {
    match m
    case Hidden => 1
    case Flag => -1
    case _ => 0
  }

  /**
    Three right clicks bring any cell back to its mark, and the flag counter
    back to its value.
   */
  lemma RightClickCycle(m: Mark)
    ensures NextMark(NextMark(NextMark(m))) == m
    ensures FlagDelta(m) + FlagDelta(NextMark(m)) + FlagDelta(NextMark(NextMark(m))) == 0
  {
  }

  /**
    `clickCell`: outside a game, or on a cell that is not hidden (visible,
    flagged or questioned), nothing happens. A hidden bomb becomes an
    explosion and the game is lost, which shows every cell. A hidden empty
    cell cascades; any other hidden cell alone becomes visible. Either way
    `revealed` is exactly what turned visible, it holds the clicked cell and
    no bomb, `cleanedCells` grows by its size, and the game is won when
    every cell that is not a bomb has been cleaned.
   */
  method ClickCell(svc: Game, row: int, col: int) returns (ghost revealed: set<Position>)
    requires svc.Valid()
    requires 0 <= row < svc.size.rows && 0 <= col < svc.size.cols
    modifies svc`cleanedCells, svc`status, svc`ticking, svc`points, svc`maxPoints, svc.table
    ensures svc.Valid()
    ensures svc.table == old(svc.table) && svc.size == old(svc.size) && svc.bombs == old(svc.bombs)
    ensures svc.flags == old(svc.flags) && svc.time == old(svc.time)
    ensures old(svc.status) != Playing || old(svc.table[row, col].state) != Hidden ==>
      revealed == {} && unchanged(svc) && unchanged(svc.table)
    ensures old(svc.status) == Playing && old(svc.table[row, col]) == Cell(Bomb, Hidden) ==>
      svc.status == Lost && !svc.ticking && svc.cleanedCells == old(svc.cleanedCells) &&
      svc.points == old(svc.points) && svc.maxPoints == Best(old(svc.maxPoints), svc.points) &&
      svc.table[row, col] == Cell(Explosion, Visible) &&
      forall i, j :: 0 <= i < svc.size.rows && 0 <= j < svc.size.cols && (i != row || j != col) ==>
        svc.table[i, j] == old(svc.table[i, j]).(state := Visible)
    ensures old(svc.status) == Playing && old(svc.table[row, col].state) == Hidden && old(svc.table[row, col].value) != Bomb ==>
      Revealed(old(BoardOf(svc.table)), BoardOf(svc.table), revealed) &&
      Position(row, col) in revealed &&
      revealed !! HoldingOf(BoardOf(svc.table), Bomb) &&
      svc.cleanedCells == old(svc.cleanedCells) + |revealed| &&
      (forall p :: p in revealed ==> Reachable(HoldingOf(old(BoardOf(svc.table)), Empty), Position(row, col), p)) &&
      NeighboursShown(BoardOf(svc.table), revealed, HoldingOf(BoardOf(svc.table), Empty)) &&
      (old(svc.table[row, col].value) != Empty ==> revealed == {Position(row, col)}) &&
      (old(svc.Dealt()) ==> svc.Dealt()) &&
      svc.status == if WinReached(svc.cleanedCells, svc.size, svc.bombs) then Won else Playing
    ensures old(svc.status) == Playing && old(svc.table[row, col].state) == Hidden && old(svc.table[row, col].value) != Bomb ==>
      if svc.status == Won then
        !svc.ticking && svc.points == old(svc.points) + svc.time * svc.Rate() &&
        svc.maxPoints == Best(old(svc.maxPoints), svc.points)
      else
        svc.ticking == old(svc.ticking) && svc.maxPoints == old(svc.maxPoints)
  {
    if svc.status != Playing {
      revealed := {};
      return;
    }
    var t := svc.table;
    var cell := t[row, col];
    if cell.state != Hidden {
      revealed := {};
      return;
    }
    if cell.value == Bomb {
      t[row, col] := cell.(value := Explosion);
      svc.StopGame(Lost);
      revealed := {};
    } else {
      revealed := Uncover(svc, row, col);
    }
  }

  /**
    The two branches of `clickCell` for a hidden cell that is not a bomb: an
    empty cell cascades, any other becomes visible alone and is counted;
    then the effects of `cleanedCells` run.
   */
  method Uncover(svc: Game, row: int, col: int) returns (ghost revealed: set<Position>)
    requires svc.Valid() && svc.status == Playing
    requires 0 <= row < svc.size.rows && 0 <= col < svc.size.cols
    requires svc.table[row, col].state == Hidden && svc.table[row, col].value != Bomb
    modifies svc`cleanedCells, svc`status, svc`ticking, svc`points, svc`maxPoints, svc.table
    ensures svc.Valid()
    ensures Revealed(old(BoardOf(svc.table)), BoardOf(svc.table), revealed)
    ensures Position(row, col) in revealed
    ensures revealed !! HoldingOf(BoardOf(svc.table), Bomb)
    ensures svc.cleanedCells == old(svc.cleanedCells) + |revealed|
    ensures forall p :: p in revealed ==> Reachable(HoldingOf(old(BoardOf(svc.table)), Empty), Position(row, col), p)
    ensures NeighboursShown(BoardOf(svc.table), revealed, HoldingOf(BoardOf(svc.table), Empty))
    ensures old(svc.table[row, col].value) != Empty ==> revealed == {Position(row, col)}
    ensures old(svc.Dealt()) ==> svc.Dealt()
    ensures svc.status == if WinReached(svc.cleanedCells, svc.size, svc.bombs) then Won else Playing
    ensures if svc.status == Won then
        !svc.ticking && svc.points == old(svc.points) + svc.time * svc.Rate() &&
        svc.maxPoints == Best(old(svc.maxPoints), svc.points)
      else
        svc.ticking == old(svc.ticking) && svc.maxPoints == old(svc.maxPoints)
  {
    revealed := Reveal(svc, row, col);
    svc.CleanedCellsChanged();
  }

  /**
    The reveal itself, before the effects: the cascade from an empty cell or
    the single cell, counted, with the board invariant restored and the
    bombs where they were.
   */
  method Reveal(svc: Game, row: int, col: int) returns (ghost revealed: set<Position>)
    requires svc.Valid() && svc.status == Playing
    requires 0 <= row < svc.size.rows && 0 <= col < svc.size.cols
    requires svc.table[row, col].state == Hidden && svc.table[row, col].value != Bomb
    modifies svc`cleanedCells, svc.table
    ensures svc.Steady()
    ensures Revealed(old(BoardOf(svc.table)), BoardOf(svc.table), revealed)
    ensures Position(row, col) in revealed
    ensures revealed !! HoldingOf(BoardOf(svc.table), Bomb)
    ensures HoldingOf(BoardOf(svc.table), Bomb) == old(HoldingOf(BoardOf(svc.table), Bomb))
    ensures svc.cleanedCells == old(svc.cleanedCells) + |revealed|
    ensures forall p :: p in revealed ==> Reachable(HoldingOf(old(BoardOf(svc.table)), Empty), Position(row, col), p)
    ensures NeighboursShown(BoardOf(svc.table), revealed, HoldingOf(BoardOf(svc.table), Empty))
    ensures old(svc.table[row, col].value) != Empty ==> revealed == {Position(row, col)}
  {
    var t := svc.table;
    var cell := t[row, col];
    ghost var start := Position(row, col);
    ghost var g0 := BoardOf(t);
    BoardAt(t, row, col);
    if cell.value == Empty {
      revealed := svc.ShowNearCells(row, col, HoldingOf(g0, Empty));
      RevealedIncludes(g0, BoardOf(t), revealed, start);
    } else {
      t[row, col] := cell.(state := Visible);
      svc.cleanedCells := svc.cleanedCells + 1;
      assert BoardOf(t) == g0[start := cell.(state := Visible)];
      RevealedOne(g0, start);
      revealed := {start};
      ReachableFromItself(HoldingOf(g0, Empty), start);
    }
    Settle(svc, g0, start, revealed);
  }

  /**
    After a reveal from a cell that is not a bomb, the board invariant of a
    game in play holds again: the reveal keeps consistency, and what it
    added to the visible cells holds no bomb.
   */
  lemma Settle(svc: Game, g0: Board, start: Position, revealed: set<Position>)
    requires svc.Shaped() && svc.TimerInvariant() && svc.status == Playing
    requires ConsistentBoard(g0) && HoldingOf(g0, Bomb) !! VisibleOf(g0)
    requires svc.cleanedCells == |VisibleOf(g0)| + |revealed|
    requires Revealed(g0, BoardOf(svc.table), revealed)
    requires start in g0 && g0[start].value != Bomb
    requires forall p :: p in revealed ==> Reachable(HoldingOf(g0, Empty), start, p)
    ensures svc.Steady()
    ensures revealed !! HoldingOf(BoardOf(svc.table), Bomb)
    ensures HoldingOf(BoardOf(svc.table), Bomb) == HoldingOf(g0, Bomb)
    ensures HoldingOf(BoardOf(svc.table), Empty) == HoldingOf(g0, Empty)
  {
    var g1 := BoardOf(svc.table);
    RevealedVisible(g0, g1, revealed);
    RevealedKeepsHolding(g0, g1, revealed, Bomb);
    RevealedKeepsHolding(g0, g1, revealed, Empty);
    RevealedKeepsConsistent(g0, g1, revealed);
    CascadeIsSafe(g0, start, revealed);
  }

  /**
    `clickRightCell`: outside a game nothing happens. Otherwise the cell's
    mark moves one step along hidden, flag, question and back, and the flag
    counter follows: up when a flag is placed, down when one is taken off.
    A visible cell keeps its mark. The counter minus the flagged cells is
    kept.
   */
  method ClickRightCell(svc: Game, row: int, col: int)
    requires svc.Valid()
    requires 0 <= row < svc.size.rows && 0 <= col < svc.size.cols
    modifies svc`flags, svc.table
    ensures svc.Valid()
    ensures old(svc.status) != Playing ==> svc.flags == old(svc.flags) && unchanged(svc.table)
    ensures old(svc.status) == Playing ==>
      svc.table[row, col] == old(svc.table[row, col]).(state := NextMark(old(svc.table[row, col].state))) &&
      svc.flags == old(svc.flags) + FlagDelta(old(svc.table[row, col].state))
    ensures forall i, j :: 0 <= i < svc.size.rows && 0 <= j < svc.size.cols && (i != row || j != col) ==>
      svc.table[i, j] == old(svc.table[i, j])
    ensures svc.flags - |FlaggedOf(BoardOf(svc.table))| == old(svc.flags - |FlaggedOf(BoardOf(svc.table))|)
    ensures old(svc.Dealt()) ==> svc.Dealt()
  {
    if svc.status != Playing {
      return;
    }
    var t := svc.table;
    var cell := t[row, col];
    ghost var p := Position(row, col);
    ghost var g0 := BoardOf(t);
    BoardAt(t, row, col);
    if cell.state == Visible {
      return;
    }
    var mark;
    if cell.state == Hidden {
      svc.flags := svc.flags + 1;
      mark := Flag;
    } else if cell.state == Flag {
      svc.flags := svc.flags - 1;
      mark := Question;
    } else {
      mark := Hidden;
    }
    t[row, col] := cell.(state := mark);
    assert BoardOf(t) == g0[p := g0[p].(state := mark)];
    MarkChangeKeeps(g0, p, mark);
    MarkChangeFlags(g0, p, mark);
  }
}
