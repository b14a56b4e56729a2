/**
  The table as a value: a map from each position of the board to its cell.
  The facts the cascading reveal and the click handlers rely on are stated
  and proved here on such values, independently of the array that holds
  the live table.
 */
module Boards {
  import opened GameInterface
  import opened Grid

  type Board = map<Position, Cell>

  /** Every position of a board of `rows` rows and `cols` columns. */
  ghost function Positions(rows: int, cols: int): set<Position>
  {
    set i, j | 0 <= i < rows && 0 <= j < cols :: Position(i, j)
  }

  lemma PositionsAreInBounds(size: Size)
    ensures forall p :: p in Positions(size.rows, size.cols) <==> InBounds(p, size)
  {
    forall p | InBounds(p, size)
      ensures p in Positions(size.rows, size.cols)
    {
      assert p == Position(p.row, p.col);
    }
  }

  /** The positions whose cell is visible. */
  ghost function VisibleOf(g: Board): set<Position>
  {
    set p | p in g && g[p].state == Visible
  }

  /** The positions whose cell is hidden, flagged or questioned. */
  ghost function HiddenOf(g: Board): set<Position>
  {
    set p | p in g && g[p].state != Visible
  }

  /** The positions holding `v`. */
  ghost function HoldingOf(g: Board, v: Value): set<Position>
  {
    set p | p in g && g[p].value == v
  }

  /**
    Every cell that is not a bomb holds what board construction derives
    from its bomb neighbours: `Empty` for none, otherwise their number.
   */
  ghost predicate ConsistentBoard(g: Board)
  {
    forall p :: p in g ==> g[p].value == Bomb || g[p].value == ValueFor(|BombsAround(HoldingOf(g, Bomb), p)|)
  }

  /**
    `after` is `before` with exactly the cells of `r` turned visible: each
    of them was not visible, and every other cell is unchanged.
   */
  ghost predicate Revealed(before: Board, after: Board, r: set<Position>)
  {
    after.Keys == before.Keys && r <= before.Keys &&
    (forall p :: p in r ==> before[p].state != Visible) &&
    (forall p :: p in before ==> after[p] == if p in r then before[p].(state := Visible) else before[p])
  }

  /** Every empty cell of `r` has all its neighbours on the board visible. */
  ghost predicate NeighboursShown(g: Board, r: set<Position>, empties: set<Position>)
  {
    forall p, q :: p in r && p in empties && Adjacent(p, q) && q in g ==> g[q].state == Visible
  }

  /** The neighbours of `start` on the board in rows before `i` are visible. */
  ghost predicate ShownAbove(g: Board, start: Position, i: int)
  {
    forall q :: q in g && Adjacent(start, q) && q.row < i ==> g[q].state == Visible
  }

  /** The neighbours of `start` on the board in row `i` and columns before `j` are visible. */
  ghost predicate ShownLeft(g: Board, start: Position, i: int, j: int)
  {
    forall q :: q in g && Adjacent(start, q) && q.row == i && q.col < j ==> g[q].state == Visible
  }

  lemma RevealedNothing(g: Board)
    ensures Revealed(g, g, {})
  {
  }

  /** Turning one non-visible cell visible reveals exactly that cell. */
  lemma RevealedOne(g: Board, p: Position)
    requires p in g && g[p].state != Visible
    ensures Revealed(g, g[p := g[p].(state := Visible)], {p})
  {
  }

  /** A cell that was not visible before a reveal and is visible after it was revealed by it. */
  lemma RevealedIncludes(g0: Board, g1: Board, r: set<Position>, p: Position)
    requires Revealed(g0, g1, r)
    requires p in g0 && g0[p].state != Visible && p in VisibleOf(g1)
    ensures p in r
  {
  }

  /** Two reveals in a row reveal the disjoint union of what each revealed. */
  lemma RevealedTrans(g0: Board, g1: Board, g2: Board, r1: set<Position>, r2: set<Position>)
    requires Revealed(g0, g1, r1) && Revealed(g1, g2, r2)
    ensures r1 !! r2 && Revealed(g0, g2, r1 + r2)
  {
    forall p | p in r1
      ensures p !in r2
    {
      assert g1[p].state == Visible;
    }
  }

  /** A reveal changes no value: the cells holding `v` stay the same. */
  lemma RevealedKeepsHolding(g0: Board, g1: Board, r: set<Position>, v: Value)
    requires Revealed(g0, g1, r)
    ensures HoldingOf(g1, v) == HoldingOf(g0, v)
  {
  }

  /** A reveal changes no value, so it keeps a board consistent. */
  lemma RevealedKeepsConsistent(g0: Board, g1: Board, r: set<Position>)
    requires Revealed(g0, g1, r) && ConsistentBoard(g0)
    ensures ConsistentBoard(g1)
  {
    RevealedKeepsHolding(g0, g1, r, Bomb);
  }

  /** A reveal takes exactly the cells of `r` out of the cells left to reveal. */
  lemma RevealedHidden(g0: Board, g1: Board, r: set<Position>)
    requires Revealed(g0, g1, r)
    ensures |HiddenOf(g1)| == |HiddenOf(g0)| - |r|
  {
    assert HiddenOf(g1) == HiddenOf(g0) - r;
    SubsetCard(r, HiddenOf(g0));
  }

  /** A reveal keeps every visible cell and adds exactly `r` to them. */
  lemma RevealedVisible(g0: Board, g1: Board, r: set<Position>)
    requires Revealed(g0, g1, r)
    ensures VisibleOf(g1) == VisibleOf(g0) + r && VisibleOf(g0) !! r
    ensures |VisibleOf(g1)| == |VisibleOf(g0)| + |r|
  {
    assert VisibleOf(g1) == VisibleOf(g0) + r;
  }

  /** Revealing more keeps the neighbours already shown. */
  lemma NeighboursShownKept(g0: Board, g1: Board, r: set<Position>, a: set<Position>, empties: set<Position>)
    requires Revealed(g0, g1, r) && NeighboursShown(g0, a, empties)
    ensures NeighboursShown(g1, a, empties)
  {
  }

  lemma ShownNearKept(g0: Board, g1: Board, r: set<Position>, start: Position, i: int, j: int)
    requires Revealed(g0, g1, r)
    ensures ShownAbove(g0, start, i) ==> ShownAbove(g1, start, i)
    ensures ShownLeft(g0, start, i, j) ==> ShownLeft(g1, start, i, j)
  {
  }

  /** One more column of row `i` done: the cell there is visible or off the board. */
  lemma ShownLeftStep(g: Board, start: Position, i: int, j: int)
    requires ShownLeft(g, start, i, j)
    requires Position(i, j) in g ==> g[Position(i, j)].state == Visible
    ensures ShownLeft(g, start, i, j + 1)
  {
  }

  /** Row `i` done once its neighbours of `start` up to column `start.col + 1` are visible. */
  lemma ShownAboveStep(g: Board, start: Position, i: int)
    requires ShownAbove(g, start, i) && ShownLeft(g, start, i, start.col + 2)
    ensures ShownAbove(g, start, i + 1)
  {
  }

  /** A row holding no position of the board needs nothing revealed. */
  lemma ShownAboveSkip(g: Board, start: Position, i: int)
    requires ShownAbove(g, start, i)
    requires forall q :: q in g ==> q.row != i
    ensures ShownAbove(g, start, i + 1)
  {
  }

  /** Once its three rows are done, an empty `start` has all its neighbours visible. */
  lemma StartNeighboursShown(g: Board, start: Position, empties: set<Position>)
    requires start in empties ==> ShownAbove(g, start, start.row + 2)
    ensures NeighboursShown(g, {start}, empties)
  {
  }

  lemma NeighboursShownUnion(g: Board, a: set<Position>, b: set<Position>, c: set<Position>, empties: set<Position>)
    requires NeighboursShown(g, a, empties) && NeighboursShown(g, b, empties)
    requires c <= a + b
    ensures NeighboursShown(g, c, empties)
  {
  }

  /** On a consistent board no empty cell has a bomb among its neighbours. */
  lemma EmptiesHaveNoBombNeighbours(g: Board)
    requires ConsistentBoard(g)
    ensures forall e :: e in HoldingOf(g, Empty) ==> BombsAround(HoldingOf(g, Bomb), e) == {}
  {
    forall e | e in HoldingOf(g, Empty)
      ensures BombsAround(HoldingOf(g, Bomb), e) == {}
    {
      assert |BombsAround(HoldingOf(g, Bomb), e)| == 0;
    }
  }

  /**
    On a consistent board, cells reachable through empty cells from a cell
    that is not a bomb are not bombs: a cascade never reveals a bomb.
   */
  lemma CascadeIsSafe(g: Board, start: Position, revealed: set<Position>)
    requires ConsistentBoard(g)
    requires start !in HoldingOf(g, Bomb)
    requires forall p :: p in revealed ==> Reachable(HoldingOf(g, Empty), start, p)
    ensures revealed !! HoldingOf(g, Bomb)
  {
    EmptiesHaveNoBombNeighbours(g);
    forall p | p in revealed
      ensures p !in HoldingOf(g, Bomb)
    {
      ReachedCellsAreSafe(HoldingOf(g, Empty), HoldingOf(g, Bomb), start, p);
    }
  }

  /** The positions of row `i` in columns before `cols`. */
  ghost function RowPositions(i: int, cols: int): set<Position>
  {
    set j | 0 <= j < cols :: Position(i, j)
  }

  lemma {:induction false} RowPositionsCard(i: int, cols: nat)
    ensures |RowPositions(i, cols)| == cols
  {
    if cols > 0 {
      RowPositionsCard(i, cols - 1);
      assert RowPositions(i, cols) == RowPositions(i, cols - 1) + {Position(i, cols - 1)};
    } else {
      assert RowPositions(i, cols) == {};
    }
  }

  /** The positions of `rows + 1` rows are those of the first `rows` rows and those of the last row. */
  lemma PositionsSplit(rows: nat, cols: int)
    ensures Positions(rows + 1, cols) == Positions(rows, cols) + RowPositions(rows, cols)
    ensures Positions(rows, cols) !! RowPositions(rows, cols)
  {
    forall p | p in Positions(rows + 1, cols)
      ensures p in Positions(rows, cols) + RowPositions(rows, cols)
    {
      if p.row < rows {
        assert p in Positions(rows, cols);
      } else {
        assert p in RowPositions(rows, cols);
      }
    }
    forall p | p in Positions(rows, cols) + RowPositions(rows, cols)
      ensures p in Positions(rows + 1, cols)
    {
      if p in RowPositions(rows, cols) {
        var j :| 0 <= j < cols && p == Position(rows, j);
        assert Position(rows, j) in Positions(rows + 1, cols);
      } else {
        PositionsAreInBounds(Size(rows, cols));
        assert Position(p.row, p.col) in Positions(rows + 1, cols);
      }
    }
  }

  /** A board of `rows` rows and `cols` columns has `rows * cols` positions. */
  lemma {:induction false} PositionsCard(rows: nat, cols: nat)
    ensures |Positions(rows, cols)| == rows * cols
  {
    if rows > 0 {
      PositionsCard(rows - 1, cols);
      RowPositionsCard(rows - 1, cols);
      PositionsSplit(rows - 1, cols);
      var below := |Positions(rows - 1, cols)|;
      assert |Positions(rows, cols)| == below + cols;
      assert below + cols == rows * cols by {
        assert below == (rows - 1) * cols;
      }
    } else {
      assert Positions(rows, cols) == {} by {
        PositionsAreInBounds(Size(rows, cols));
      }
    }
  }

  /**
    On a board of `size` holding `bombs` bombs, none of them visible, the
    visible cells number `rows * cols - bombs` exactly when every cell that
    is not a bomb is visible.
   */
  lemma AllSafeShown(g: Board, size: Size, bombs: int)
    requires size.rows >= 0 && size.cols >= 0
    requires g.Keys == Positions(size.rows, size.cols)
    requires |HoldingOf(g, Bomb)| == bombs
    requires HoldingOf(g, Bomb) !! VisibleOf(g)
    ensures |VisibleOf(g)| == Area(size) - bombs <==> VisibleOf(g) == g.Keys - HoldingOf(g, Bomb)
  {
    var safe := g.Keys - HoldingOf(g, Bomb);
    PositionsCard(size.rows, size.cols);
    assert HoldingOf(g, Bomb) <= g.Keys;
    SubsetCard(HoldingOf(g, Bomb), g.Keys);
    assert |safe| == Area(size) - bombs;
    assert VisibleOf(g) <= safe;
    SubsetCard(VisibleOf(g), safe);
    if |VisibleOf(g)| == |safe| {
      assert |safe - VisibleOf(g)| == 0;
      assert safe - VisibleOf(g) == {};
    }
  }

  /** The positions whose cell carries a flag. */
  ghost function FlaggedOf(g: Board): set<Position>
  {
    set p | p in g && g[p].state == Flag
  }

  /** Changing the mark of one cell between marks that are not visible keeps the visible cells and every value. */
  lemma MarkChangeKeeps(g: Board, p: Position, m: Mark)
    requires p in g && g[p].state != Visible && m != Visible
    ensures VisibleOf(g[p := g[p].(state := m)]) == VisibleOf(g)
    ensures HoldingOf(g[p := g[p].(state := m)], Bomb) == HoldingOf(g, Bomb)
    ensures ConsistentBoard(g[p := g[p].(state := m)]) <==> ConsistentBoard(g)
  {
    var h := g[p := g[p].(state := m)];
    assert VisibleOf(h) == VisibleOf(g);
    assert HoldingOf(h, Bomb) == HoldingOf(g, Bomb);
  }

  /** Changing the mark of one cell moves the number of flags by one for each flag placed or removed. */
  lemma MarkChangeFlags(g: Board, p: Position, m: Mark)
    requires p in g
    ensures |FlaggedOf(g[p := g[p].(state := m)])| ==
      |FlaggedOf(g)| + (if m == Flag then 1 else 0) - (if g[p].state == Flag then 1 else 0)
  {
    var h := g[p := g[p].(state := m)];
    var rest := FlaggedOf(g) - {p};
    assert FlaggedOf(h) - {p} == rest;
    if m == Flag {
      assert FlaggedOf(h) == rest + {p};
    } else {
      assert FlaggedOf(h) == rest;
    }
    if g[p].state == Flag {
      assert FlaggedOf(g) == rest + {p};
    }
  }
}
