/**
  The game engine (src/app/shared/services/state.service.ts): the session
  state as a class over a two-dimensional cell array, board construction,
  the cascading reveal, starting and stopping a game, the timer tick and the
  four effects. An effect runs here as an explicit call made right after the
  change it reacts to.
 */
module StateService {
  import opened Wrappers
  import opened GameInterface
  import opened Grid
  import opened Settings
  import opened Boards

  /** The table `t` as a value: its cell at each of its positions. */
  ghost function BoardOf(t: array2<Cell>): Board
    reads t
  {
    map p | p in Positions(t.Length0, t.Length1) :: t[p.row, p.col]
  }

  lemma BoardKeys(t: array2<Cell>)
    ensures forall p :: p in BoardOf(t) <==> 0 <= p.row < t.Length0 && 0 <= p.col < t.Length1
  {
    PositionsAreInBounds(Size(t.Length0, t.Length1));
  }

  lemma BoardAt(t: array2<Cell>, i: int, j: int)
    requires 0 <= i < t.Length0 && 0 <= j < t.Length1
    ensures Position(i, j) in BoardOf(t) && BoardOf(t)[Position(i, j)] == t[i, j]
  {
    assert Position(i, j) in Positions(t.Length0, t.Length1);
  }

  /** The cell of `t` at `p` exists and holds `v`. */
  ghost predicate ValueAt(t: array2<Cell>, p: Position, v: Value)
    reads t
  {
    0 <= p.row < t.Length0 && 0 <= p.col < t.Length1 && t[p.row, p.col].value == v
  }

  /** `cells` is exactly the set of positions of `t` whose value is `v`. */
  ghost predicate HoldsExactly(t: array2<Cell>, cells: set<Position>, v: Value)
    reads t
  {
    forall p :: p in cells <==> ValueAt(t, p, v)
  }

  /** Every cell of `t` that is not a bomb holds the value its neighbours among `bombs` give it. */
  ghost predicate CountsFrom(t: array2<Cell>, bombs: set<Position>)
    reads t
  {
    forall i, j :: 0 <= i < t.Length0 && 0 <= j < t.Length1 ==>
      t[i, j].value == Bomb || t[i, j].value == ValueFor(|BombsAround(bombs, Position(i, j))|)
  }

  /**
    The random draws of row and column lie on the board and hit at least
    `bombs` different cells, which the rejection loop of board
    construction needs in order to finish.
   */
  ghost predicate DrawsSuffice(draws: seq<Position>, size: Size, bombs: int)
  {
    (forall k :: 0 <= k < |draws| ==> InBounds(draws[k], size)) &&
    |set p | p in draws| >= bombs
  }

  /** A table whose bombs are `bombs` and whose other cells count them is a consistent board. */
  lemma BuiltBoard(t: array2<Cell>, bombs: set<Position>)
    requires HoldsExactly(t, bombs, Bomb) && CountsFrom(t, bombs)
    ensures HoldingOf(BoardOf(t), Bomb) == bombs
    ensures ConsistentBoard(BoardOf(t))
  {
    BoardKeys(t);
    assert HoldingOf(BoardOf(t), Bomb) == bombs;
  }

  /** A table with no visible cell shows nothing. */
  lemma NothingShown(t: array2<Cell>)
    requires forall i, j :: 0 <= i < t.Length0 && 0 <= j < t.Length1 ==> t[i, j].state != Visible
    ensures VisibleOf(BoardOf(t)) == {}
  {
    BoardKeys(t);
  }

  /** `_newEmptyTable`: `rows` rows of `cols` cells, each empty and hidden. */
  method NewEmptyTable(size: Size) returns (t: array2<Cell>)
    requires size.rows >= 0 && size.cols >= 0
    ensures fresh(t) && t.Length0 == size.rows && t.Length1 == size.cols
    ensures forall i, j :: 0 <= i < size.rows && 0 <= j < size.cols ==> t[i, j] == Cell(Empty, Hidden)
  {
    t := new Cell[size.rows, size.cols]((i, j) => Cell(Empty, Hidden));
  }

  /** The bombs adjacent to `p` in rows before `at.row`, or in row `at.row` before column `at.col`. */
  ghost function BombsBefore(bombs: set<Position>, p: Position, at: Position): set<Position>
  {
    set q | q in bombs && Adjacent(p, q) && (q.row < at.row || (q.row == at.row && q.col < at.col))
  }

  lemma BombsBeforeStep(bombs: set<Position>, p: Position, at: Position)
    ensures |BombsBefore(bombs, p, Position(at.row, at.col + 1))| ==
      |BombsBefore(bombs, p, at)| + if at in bombs && Adjacent(p, at) then 1 else 0
  {
    if at in bombs && Adjacent(p, at) {
      assert BombsBefore(bombs, p, Position(at.row, at.col + 1)) == BombsBefore(bombs, p, at) + {at};
    } else {
      assert BombsBefore(bombs, p, Position(at.row, at.col + 1)) == BombsBefore(bombs, p, at);
    }
  }

  lemma BombsBeforeRows(bombs: set<Position>, p: Position, row: int)
    ensures BombsBefore(bombs, p, Position(row, p.col + 2)) == BombsBefore(bombs, p, Position(row + 1, p.col - 1))
    ensures BombsBefore(bombs, p, Position(p.row + 2, p.col - 1)) == BombsAround(bombs, p)
  {
  }

  /**
    The two inner loops of board construction: the number of bombs in the
    3x3 window around a cell that is not a bomb, clipped at the edges.
   */
  method CountNearBombs(t: array2<Cell>, row: int, col: int, ghost bombs: set<Position>) returns (counter: nat)
    requires 0 <= row < t.Length0 && 0 <= col < t.Length1
    requires t[row, col].value != Bomb
    requires HoldsExactly(t, bombs, Bomb)
    ensures counter == |BombsAround(bombs, Position(row, col))|
  {
    ghost var p := Position(row, col);
    counter := 0;
    for i := row - 1 to row + 2
      invariant counter == |BombsBefore(bombs, p, Position(i, col - 1))|
    {
      for j := col - 1 to col + 2
        invariant counter == |BombsBefore(bombs, p, Position(i, j))|
      {
        BombsBeforeStep(bombs, p, Position(i, j));
        if i < 0 || i >= t.Length0 || j < 0 || j >= t.Length1 {
          assert !ValueAt(t, Position(i, j), Bomb);
          continue;
        }
        if t[i, j].value == Bomb {
          assert ValueAt(t, Position(i, j), Bomb) && Position(i, j) != p;
          counter := counter + 1;
        } else {
          assert !ValueAt(t, Position(i, j), Bomb);
        }
      }
      BombsBeforeRows(bombs, p, i);
    }
    BombsBeforeRows(bombs, p, row + 2);
  }

  /** Every cell of `t` is hidden and either empty or a bomb: the table while bombs are being placed. */
  ghost predicate HiddenBombsOrEmpty(t: array2<Cell>)
    reads t
  {
    forall i, j :: 0 <= i < t.Length0 && 0 <= j < t.Length1 ==>
      t[i, j].state == Hidden && (t[i, j].value == Bomb || t[i, j].value == Empty)
  }

  /** The distinct cells hit by the first `k` draws. */
  ghost function Drawn(draws: seq<Position>, k: int): set<Position>
    requires 0 <= k <= |draws|
  {
    set p | p in draws[..k]
  }

  lemma DrawnStep(draws: seq<Position>, k: int)
    requires 0 <= k < |draws|
    ensures Drawn(draws, k + 1) == Drawn(draws, k) + {draws[k]}
    ensures Drawn(draws, k) <= set p | p in draws
    ensures Drawn(draws, 0) == {} && Drawn(draws, |draws|) == set p | p in draws
  {
    assert draws[..k + 1] == draws[..k] + [draws[k]];
    assert draws[..|draws|] == draws;
  }

  /** One bomb on an empty cell: the bombs of `t` become `placed` and `p`. */
  method SetBomb(t: array2<Cell>, p: Position, ghost placed: set<Position>)
    requires 0 <= p.row < t.Length0 && 0 <= p.col < t.Length1
    requires t[p.row, p.col].value == Empty
    requires HoldsExactly(t, placed, Bomb) && HiddenBombsOrEmpty(t)
    modifies t
    ensures HoldsExactly(t, placed + {p}, Bomb) && HiddenBombsOrEmpty(t)
    ensures p !in placed
  {
    assert !ValueAt(t, p, Bomb);
    var cell := t[p.row, p.col];
    t[p.row, p.col] := cell.(value := Bomb);
    forall q
      ensures q in placed + {p} <==> ValueAt(t, q, Bomb)
    {
      if q != p {
        assert ValueAt(t, q, Bomb) == old(ValueAt(t, q, Bomb));
      }
    }
  }

  /**
    The first loop of board construction: draw positions until `bombs`
    empty cells have received a bomb; a draw that hits a bomb is redrawn.
   */
  method PlaceBombs(t: array2<Cell>, draws: seq<Position>, bombs: int) returns (ghost placed: set<Position>)
    requires bombs >= 0
    requires forall k :: 0 <= k < |draws| ==> 0 <= draws[k].row < t.Length0 && 0 <= draws[k].col < t.Length1
    requires |set p | p in draws| >= bombs
    requires forall i, j :: 0 <= i < t.Length0 && 0 <= j < t.Length1 ==> t[i, j] == Cell(Empty, Hidden)
    modifies t
    ensures |placed| == bombs && placed <= set p | p in draws
    ensures HoldsExactly(t, placed, Bomb)
    ensures HiddenBombsOrEmpty(t)
  {
    var settedBombs := bombs;
    var k := 0;
    placed := {};
    if |draws| > 0 {
      DrawnStep(draws, 0);
    }
    while settedBombs > 0
      invariant 0 <= k <= |draws| && settedBombs >= 0
      invariant placed == Drawn(draws, k)
      invariant settedBombs == bombs - |placed|
      invariant HoldsExactly(t, placed, Bomb) && HiddenBombsOrEmpty(t)
      invariant k == |draws| ==> settedBombs == 0
      decreases |draws| - k
    {
      var randomRow := draws[k].row;
      var randomCol := draws[k].col;
      var cell := t[randomRow, randomCol];
      DrawnStep(draws, k);
      if cell.value == Empty {
        SetBomb(t, draws[k], placed);
        settedBombs := settedBombs - 1;
      } else {
        assert ValueAt(t, draws[k], Bomb);
        assert placed + {draws[k]} == placed;
      }
      placed := placed + {draws[k]};
      k := k + 1;
    }
    if k < |draws| {
      DrawnStep(draws, k);
    } else if |draws| > 0 {
      DrawnStep(draws, 0);
    }
  }

  /**
    The second loop of board construction: every cell that is not a bomb
    gets the number of its bomb neighbours, or `Empty` for none.
   */
  method FillCounts(t: array2<Cell>, ghost placed: set<Position>)
    requires HoldsExactly(t, placed, Bomb)
    modifies t
    ensures HoldsExactly(t, placed, Bomb)
    ensures forall i, j :: 0 <= i < t.Length0 && 0 <= j < t.Length1 ==> t[i, j].state == old(t[i, j].state)
    ensures CountsFrom(t, placed)
  {
    for row := 0 to t.Length0
      invariant HoldsExactly(t, placed, Bomb)
      invariant forall i, j :: 0 <= i < t.Length0 && 0 <= j < t.Length1 ==> t[i, j].state == old(t[i, j].state)
      invariant forall i, j :: 0 <= i < row && 0 <= j < t.Length1 ==>
        t[i, j].value == Bomb || t[i, j].value == ValueFor(|BombsAround(placed, Position(i, j))|)
    {
      for col := 0 to t.Length1
        invariant HoldsExactly(t, placed, Bomb)
        invariant forall i, j :: 0 <= i < t.Length0 && 0 <= j < t.Length1 ==> t[i, j].state == old(t[i, j].state)
        invariant forall i, j :: 0 <= i < t.Length0 && 0 <= j < t.Length1 && (i < row || (i == row && j < col)) ==>
          t[i, j].value == Bomb || t[i, j].value == ValueFor(|BombsAround(placed, Position(i, j))|)
      {
        if t[row, col].value == Bomb {
          continue;
        }
        var counter := CountNearBombs(t, row, col, placed);
        t[row, col] := t[row, col].(value := if counter != 0 then Count(counter) else Empty);
      }
    }
  }

  /** The sweep of `stopGame` over a game not won: every cell becomes visible, its value kept. */
  method RevealAll(t: array2<Cell>)
    modifies t
    ensures forall i, j :: 0 <= i < t.Length0 && 0 <= j < t.Length1 ==> t[i, j] == old(t[i, j]).(state := Visible)
  {
    for row := 0 to t.Length0
      invariant forall i, j :: 0 <= i < t.Length0 && 0 <= j < t.Length1 ==>
        t[i, j] == if i < row then old(t[i, j]).(state := Visible) else old(t[i, j])
    {
      for col := 0 to t.Length1
        invariant forall i, j :: 0 <= i < t.Length0 && 0 <= j < t.Length1 ==>
          t[i, j] == if i < row || (i == row && j < col) then old(t[i, j]).(state := Visible) else old(t[i, j])
      {
        var cell := t[row, col];
        if cell.state == Visible {
          continue;
        }
        t[row, col] := cell.(state := Visible);
      }
    }
  }

  /**
    The condition of the won-game effect: some cell cleaned, and as many as
    there are cells without a bomb. A board that is all bombs never reaches it.
   */
  predicate WinReached(cleaned: int, size: Size, bombs: int): (r: bool)
    ensures r ==> cleaned + bombs == Area(size)
    ensures bombs == Area(size) ==> !r
  {
    cleaned != 0 && cleaned == Area(size) - bombs
  }

  /** The best score after a game that ends with `points`: the larger of the two. */
  function Best(best: int, points: int): (r: int)
    ensures r >= best && r >= points
    ensures r == best || r == points
  {
    if points > best then points else best
  }

  /** The session state the service keeps in its signals. */
  class Game {
    var size: Size
    var table: array2<Cell>
    var bombs: int
    var flags: int
    var maxPoints: int
    var points: int
    /** The remaining seconds (`_gameTimeInt`). */
    var time: int
    /** Whether the one-second interval subscription is active. */
    var ticking: bool
    var status: Status
    var cleanedCells: int

    /** The table has the configured size. */
    ghost predicate Sized()
      reads this`size, this`table
    {
      table.Length0 == size.rows && table.Length1 == size.cols
    }

    /** Settings within their bounds and a table of the configured size. */
    ghost predicate Shaped()
      reads this`size, this`table, this`bombs, this`time
    {
      RowsInRange(size.rows) && ColsInRange(size.cols) && Area(size) >= 1 && Sized() &&
      bombs == ValidatedBombs(bombs, size) &&
      0 <= time <= MaxTime
    }

    /**
      While playing, `cleanedCells` counts the visible cells, the table is as
      board construction left it, and no bomb is visible.
     */
    ghost predicate BoardInvariant()
      reads this, table
    {
      status == Playing ==>
        cleanedCells == |VisibleOf(BoardOf(table))| && ConsistentBoard(BoardOf(table)) &&
        HoldingOf(BoardOf(table), Bomb) !! VisibleOf(BoardOf(table))
    }

    /** The interval runs only while playing and with time left. */
    ghost predicate TimerInvariant()
      reads this
    {
      ticking ==> status == Playing && time > 0
    }

    /** While playing, the points are the cleaned cells times the rate. */
    ghost predicate PointsInvariant()
      reads this
      requires Shaped()
    {
      status == Playing ==> points == cleanedCells * Rate()
    }

    /** Every invariant but the points, which lag behind `cleanedCells` until the points effect runs. */
    ghost predicate Steady()
      reads this, table
    {
      Shaped() && BoardInvariant() && TimerInvariant()
    }

    ghost predicate Valid()
      reads this, table
    {
      Steady() && PointsInvariant()
    }

    /** The table holds exactly `bombs` bombs, as `startGame` deals it. */
    ghost predicate Dealt()
      reads this, table
    {
      |HoldingOf(BoardOf(table), Bomb)| == bombs
    }

    /** The `ratePoints` computed value. */
    function Rate(): (r: int)
      reads this
      requires Area(size) > 0
      ensures r * Area(size) <= 10 * bombs < (r + 1) * Area(size)
      ensures bombs >= 0 ==> r >= 0
    {
      RatePoints(bombs, size)
    }

    /**
      Construction followed by the first run of the bomb-count effect. The
      three stored values are what storage returned; `ngOnInit` fills the
      table with the empty board.
     */
    constructor (storedMaxPoints: Option<int>, storedSize: Option<Size>, storedBombs: Option<int>)
      ensures Valid() && fresh(table)
      ensures size == ValidSizeTable(storedSize)
      ensures maxPoints == StoredOr(storedMaxPoints, 0)
      ensures bombs == ValidatedBombs(StoredOr(storedBombs, 0), size)
      ensures status == Playing && !ticking && time == MaxTime
      ensures points == 0 && flags == 0 && cleanedCells == 0
      ensures forall i, j :: 0 <= i < size.rows && 0 <= j < size.cols ==> table[i, j] == Cell(Empty, Hidden)
    {
      var validSize := ValidSizeTable(storedSize);
      ValidSizeArea(validSize);
      maxPoints := StoredOr(storedMaxPoints, 0);
      size := validSize;
      bombs := StoredOr(storedBombs, 0);
      flags := 0;
      points := 0;
      time := MaxTime;
      ticking := false;
      status := Playing;
      cleanedCells := 0;
      var empty := NewEmptyTable(validSize);
      table := empty;
      new;
      ValidateBombs();
      NothingShown(table);
      BuiltBoard(table, {});
    }

    /** The bomb-count effect: an out-of-range count is replaced by the default. */
    method ValidateBombs()
      modifies this`bombs
      ensures bombs == ValidatedBombs(old(bombs), size)
    {
      if bombs > MaxBombs(size) || bombs < MinBombs {
        bombs := DefaultBombs(size);
      }
    }

    /**
      `_createTable`: a fresh hidden table with exactly `bombs` bombs, all
      at cells the draws picked, and every other cell holding the value its
      bomb neighbours give it. `draws` stands for the successive
      `Math.random` row and column picks.
     */
    method CreateTable(draws: seq<Position>) returns (t: array2<Cell>)
      requires Shaped()
      requires DrawsSuffice(draws, size, bombs)
      ensures fresh(t) && t.Length0 == size.rows && t.Length1 == size.cols
      ensures forall i, j :: 0 <= i < size.rows && 0 <= j < size.cols ==> t[i, j].state == Hidden
      ensures |HoldingOf(BoardOf(t), Bomb)| == bombs
      ensures HoldingOf(BoardOf(t), Bomb) <= set p | p in draws
      ensures ConsistentBoard(BoardOf(t))
    {
      t := NewEmptyTable(size);
      ghost var placed := PlaceBombs(t, draws, bombs);
      FillCounts(t, placed);
      BuiltBoard(t, placed);
    }
  
    /**
      `startGame`: a new game on a freshly dealt table, with the timer
      running from its maximum and points, flags and cleaned cells at zero.
      The effects it triggers change nothing: no cell is cleaned and the
      time is left.
     */
    method StartGame(draws: seq<Position>)
      requires Shaped() && !ticking
      requires DrawsSuffice(draws, size, bombs)
      modifies this
      ensures Valid() && Dealt()
      ensures status == Playing && ticking && time == MaxTime
      ensures points == 0 && flags == 0 && cleanedCells == 0
      ensures size == old(size) && bombs == old(bombs) && maxPoints == old(maxPoints)
      ensures fresh(table)
      ensures forall i, j :: 0 <= i < size.rows && 0 <= j < size.cols ==> table[i, j].state == Hidden
      ensures HoldingOf(BoardOf(table), Bomb) <= set p | p in draws
      ensures ConsistentBoard(BoardOf(table))
    {
      var t := CreateTable(draws);
      NothingShown(t);
      ghost var dealt := BoardOf(t);
      status, time, points, table, flags, cleanedCells, ticking := Playing, MaxTime, 0, t, 0, 0, true;
      assert BoardOf(table) == dealt;
      FreshGameValid();
    }

    /** A game just started, with nothing shown, nothing cleaned and no points, is valid. */
    lemma FreshGameValid()
      requires Shaped() && status == Playing && ticking && time > 0
      requires points == 0 && cleanedCells == 0
      requires VisibleOf(BoardOf(table)) == {} && ConsistentBoard(BoardOf(table))
      ensures Valid()
    {
    }

    /**
      `stopGame`: set the status and stop the interval; a won game adds the
      remaining seconds times the rate to the points; the best score becomes
      the larger of itself and the points; any other ending turns every
      cell visible (the pacing delay is not modelled).
     */
    method StopGame(newStatus: Status)
      requires Shaped()
      modifies this`status, this`ticking, this`points, this`maxPoints, table
      ensures status == newStatus && !ticking
      ensures points == if newStatus == Won then old(points) + time * Rate() else old(points)
      ensures maxPoints == Best(old(maxPoints), points)
      ensures newStatus == Won ==> unchanged(table)
      ensures newStatus != Won ==> forall i, j :: 0 <= i < size.rows && 0 <= j < size.cols ==>
        table[i, j] == old(table[i, j]).(state := Visible)
      ensures newStatus != Playing ==> Valid()
    {
      status := newStatus;
      ticking := false;
      if newStatus == Won {
        var playedPoints := points;
        points := playedPoints + time * Rate();
      }
      if points > maxPoints {
        maxPoints := points;
      }
      if newStatus == Won {
        return;
      }
      RevealAll(table);
    }

    /**
      The won-game effect, run when `cleanedCells` changes: once every cell
      that is not a bomb has been cleaned, stop the game as won.
     */
    method WonEffect()
      requires Steady()
      modifies this`status, this`ticking, this`points, this`maxPoints, table
      ensures Steady() && unchanged(table)
      ensures status == if WinReached(cleanedCells, size, bombs) then Won else old(status)
      ensures WinReached(cleanedCells, size, bombs) ==>
        !ticking && points == old(points) + time * Rate() && maxPoints == Best(old(maxPoints), points)
      ensures !WinReached(cleanedCells, size, bombs) ==>
        ticking == old(ticking) && points == old(points) && maxPoints == old(maxPoints)
    {
      if cleanedCells == 0 {
        return;
      }
      var rows := size.rows;
      var cols := size.cols;
      if cleanedCells == rows * cols - bombs {
        StopGame(Won);
      }
    }

    /** The points effect, run when `cleanedCells` changes: while playing, the points follow the cleaned cells. */
    method PointsEffect()
      requires Steady()
      modifies this`points
      ensures Valid()
      ensures points == if status == Playing then cleanedCells * Rate() else old(points)
    {
      if status != Playing {
        return;
      }
      var rate := Rate();
      points := cleanedCells * rate;
    }

    /**
      The two effects that track `cleanedCells`, in the order they are
      declared: a win is settled before the points catch up with the cells
      cleaned by the move that won.
     */
    method CleanedCellsChanged()
      requires Steady()
      modifies this`status, this`ticking, this`points, this`maxPoints, table
      ensures Valid() && unchanged(table)
      ensures status == if WinReached(cleanedCells, size, bombs) then Won else old(status)
      ensures WinReached(cleanedCells, size, bombs) ==>
        !ticking && points == old(points) + time * Rate() && maxPoints == Best(old(maxPoints), points)
      ensures !WinReached(cleanedCells, size, bombs) ==>
        ticking == old(ticking) && maxPoints == old(maxPoints) &&
        points == if status == Playing then cleanedCells * Rate() else old(points)
    {
      WonEffect();
      PointsEffect();
    }

    /**
      One second of the interval: the remaining time drops by one and the
      time-lost effect runs, which ends the game as lost when it hits zero.
     */
    method Tick()
      requires Valid() && ticking
      modifies this`time, this`status, this`ticking, this`points, this`maxPoints, table
      ensures Valid()
      ensures time == old(time) - 1
      ensures time == 0 ==> status == Lost && !ticking && points == old(points) && maxPoints == Best(old(maxPoints), points)
      ensures time == 0 ==> forall i, j :: 0 <= i < size.rows && 0 <= j < size.cols ==>
        table[i, j] == old(table[i, j]).(state := Visible)
      ensures time > 0 ==> status == Playing && ticking && unchanged(table) && points == old(points) && maxPoints == old(maxPoints)
      ensures time > 0 && old(Dealt()) ==> Dealt()
    {
      time := time - 1;
      TimeLostEffect();
    }

    /** The time-lost effect: a game still playing with no time left is lost. */
    method TimeLostEffect()
      requires Shaped() && BoardInvariant() && PointsInvariant()
      requires ticking ==> status == Playing
      modifies this`status, this`ticking, this`points, this`maxPoints, table
      ensures Valid()
      ensures status == if old(status) == Playing && time <= 0 then Lost else old(status)
      ensures old(status) == Playing && time <= 0 ==>
        !ticking && points == old(points) && maxPoints == Best(old(maxPoints), points) &&
        forall i, j :: 0 <= i < size.rows && 0 <= j < size.cols ==> table[i, j] == old(table[i, j]).(state := Visible)
      ensures !(old(status) == Playing && time <= 0) ==>
        ticking == old(ticking) && points == old(points) && maxPoints == old(maxPoints) && unchanged(table)
    {
      if status != Playing {
        return;
      }
      if time <= 0 {
        StopGame(Lost);
      }
    }

    /**
      While playing on a dealt table, the won-game effect fires exactly when
      some cell has been cleaned and every cell that is not a bomb is visible.
     */
    lemma WinMeansAllSafeShown()
      requires Valid() && Dealt() && status == Playing
      ensures WinReached(cleanedCells, size, bombs) <==>
        cleanedCells > 0 && VisibleOf(BoardOf(table)) == BoardOf(table).Keys - HoldingOf(BoardOf(table), Bomb)
    {
      assert BoardOf(table).Keys == Positions(size.rows, size.cols);
      AllSafeShown(BoardOf(table), size, bombs);
    }

    /**
      `showNearCells`: reveal the cell and, when it is empty, cascade into
      every neighbour not yet visible. `revealed` is exactly what the call
      changed (each of its cells was not visible and is now its old self
      made visible; nothing else changed), `cleanedCells` grows by its
      size, each of its cells is reachable from the start through empty
      cells, and every empty cell in it has all its neighbours visible
      afterwards. `empties` names the empty cells of the table.
     */
    method ShowNearCells(row: int, col: int, ghost empties: set<Position>) returns (ghost revealed: set<Position>)
      requires Sized()
      requires 0 <= row < size.rows && 0 <= col < size.cols
      requires empties == HoldingOf(BoardOf(table), Empty)
      modifies table, this`cleanedCells
      decreases |HiddenOf(BoardOf(table))|, 1
      ensures Revealed(old(BoardOf(table)), BoardOf(table), revealed)
      ensures Position(row, col) in VisibleOf(BoardOf(table))
      ensures cleanedCells == old(cleanedCells) + |revealed|
      ensures forall p :: p in revealed ==> Reachable(empties, Position(row, col), p)
      ensures NeighboursShown(BoardOf(table), revealed, empties)
    {
      var rows := size.rows;
      var t := table;
      ghost var start := Position(row, col);
      ghost var g0 := BoardOf(t);
      var cell := t[row, col];
      BoardAt(t, row, col);
      if cell.state == Visible {
        revealed := {};
        RevealedNothing(g0);
        return;
      }
      cleanedCells := cleanedCells + 1;
      t[row, col] := cell.(state := Visible);
      assert BoardOf(t) == g0[start := cell.(state := Visible)];
      RevealedOne(g0, start);
      revealed := {start};
      ReachableFromItself(empties, start);
      for i := row - 1 to row + 2
        invariant Revealed(g0, BoardOf(t), revealed)
        invariant start in revealed
        invariant cleanedCells == old(cleanedCells) + |revealed|
        invariant forall p :: p in revealed ==> Reachable(empties, start, p)
        invariant NeighboursShown(BoardOf(t), revealed - {start}, empties)
        invariant cell.value == Empty ==> ShownAbove(BoardOf(t), start, i)
      {
        ghost var g1 := BoardOf(t);
        if i < 0 || i >= rows {
          if cell.value == Empty {
            BoardKeys(t);
            ShownAboveSkip(g1, start, i);
          }
          continue;
        }
        RevealedHidden(g0, g1, revealed);
        RevealedKeepsHolding(g0, g1, revealed, Empty);
        ghost var more := ShowNearRow(row, col, i, empties);
        ghost var g2 := BoardOf(t);
        RevealedTrans(g0, g1, g2, revealed, more);
        NeighboursShownKept(g1, g2, more, revealed - {start}, empties);
        NeighboursShownUnion(g2, revealed - {start}, more, revealed + more - {start}, empties);
        ShownNearKept(g1, g2, more, start, i, 0);
        if cell.value == Empty {
          ShownAboveStep(g2, start, i);
        }
        revealed := revealed + more;
      }
      assert start in empties ==> cell.value == Empty;
      StartNeighboursShown(BoardOf(t), start, empties);
      NeighboursShownUnion(BoardOf(t), revealed - {start}, {start}, revealed, empties);
    }

    /**
      The inner loop of `showNearCells` over row `i` around the revealed
      cell at (`row`, `col`): when that cell is empty, each neighbour in row
      `i` not yet visible is cascaded into. `revealed` is what the row
      changed, with the same guarantees as `ShowNearCells`; when the cell is
      empty its neighbours in row `i` are all visible afterwards.
     */
    method ShowNearRow(row: int, col: int, i: int, ghost empties: set<Position>) returns (ghost revealed: set<Position>)
      requires Sized()
      requires 0 <= row < size.rows && 0 <= col < size.cols && 0 <= i < size.rows && row - 1 <= i <= row + 1
      requires empties == HoldingOf(BoardOf(table), Empty)
      requires Position(row, col) in VisibleOf(BoardOf(table))
      modifies table, this`cleanedCells
      decreases |HiddenOf(BoardOf(table))| + 1, 0
      ensures Revealed(old(BoardOf(table)), BoardOf(table), revealed)
      ensures cleanedCells == old(cleanedCells) + |revealed|
      ensures forall p :: p in revealed ==> Reachable(empties, Position(row, col), p)
      ensures NeighboursShown(BoardOf(table), revealed, empties)
      ensures Position(row, col) in empties ==> ShownLeft(BoardOf(table), Position(row, col), i, col + 2)
    {
      var cols := size.cols;
      var t := table;
      ghost var start := Position(row, col);
      ghost var g0 := BoardOf(t);
      var cell := t[row, col];
      BoardAt(t, row, col);
      revealed := {};
      RevealedNothing(g0);
      for j := col - 1 to col + 2
        invariant Revealed(g0, BoardOf(t), revealed)
        invariant cleanedCells == old(cleanedCells) + |revealed|
        invariant forall p :: p in revealed ==> Reachable(empties, start, p)
        invariant NeighboursShown(BoardOf(t), revealed, empties)
        invariant cell.value == Empty ==> ShownLeft(BoardOf(t), start, i, j)
      {
        ghost var g1 := BoardOf(t);
        if j < 0 || j >= cols {
          if cell.value == Empty {
            BoardKeys(t);
            ShownLeftStep(g1, start, i, j);
          }
          continue;
        }
        var nearCell := t[i, j];
        BoardAt(t, i, j);
        if nearCell.state == Visible {
          if cell.value == Empty {
            ShownLeftStep(g1, start, i, j);
          }
          continue;
        }
        if cell.value == Empty {
          ghost var near := Position(i, j);
          RevealedHidden(g0, g1, revealed);
          RevealedKeepsHolding(g0, g1, revealed, Empty);
          ghost var more := ShowNearCells(i, j, empties);
          ghost var g2 := BoardOf(t);
          RevealedTrans(g0, g1, g2, revealed, more);
          forall p | p in more
            ensures Reachable(empties, start, p)
          {
            ReachableStep(empties, start, near, p);
          }
          NeighboursShownKept(g1, g2, more, revealed, empties);
          NeighboursShownUnion(g2, revealed, more, revealed + more, empties);
          ShownNearKept(g1, g2, more, start, i, j);
          ShownLeftStep(g2, start, i, j);
          revealed := revealed + more;
        }
      }
    }
  }
}
