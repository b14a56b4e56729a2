/**
  Settings validation and the numbers derived from the settings: the board
  size read back from storage, the default and maximum bomb counts, the
  bomb-count validation and the scoring rate (state.service.ts).
 */
module Settings {
  import opened Wrappers
  import opened GameInterface

  const MinTable := Size(1, 1)
  const MaxTable := Size(20, 50)
  const DefaultSize := Size(10, 10)
  const MinBombs := 1
  /** The countdown starts here on every new game. */
  const MaxTime := 999

  predicate RowsInRange(rows: int)
  {
    MinTable.rows <= rows <= MaxTable.rows
  }

  predicate ColsInRange(cols: int)
  {
    MinTable.cols <= cols <= MaxTable.cols
  }

  /**
    The size read back from storage: no stored size gives 10x10, otherwise
    each dimension outside its bounds is replaced by its default and an
    in-range dimension is kept.
   */
  function ValidSizeTable(stored: Option<Size>): (r: Size)
    ensures RowsInRange(r.rows) && ColsInRange(r.cols)
    ensures stored.None? ==> r == DefaultSize
    ensures stored.Some? ==> (r.rows == stored.value.rows <==> RowsInRange(stored.value.rows))
    ensures stored.Some? ==> (r.cols == stored.value.cols <==> ColsInRange(stored.value.cols))
    ensures stored.Some? && !RowsInRange(stored.value.rows) ==> r.rows == DefaultSize.rows
    ensures stored.Some? && !ColsInRange(stored.value.cols) ==> r.cols == DefaultSize.cols
  {
    match stored
    case None => DefaultSize
    case Some(size) =>
      var cols := if size.cols < MinTable.cols || size.cols > MaxTable.cols then DefaultSize.cols else size.cols;
      var rows := if size.rows < MinTable.rows || size.rows > MaxTable.rows then DefaultSize.rows else size.rows;
      Size(rows, cols)
  }

  /** A validated size is kept as it is, so validating twice changes nothing. */
  lemma ValidSizeTableIdempotent(stored: Option<Size>)
    ensures ValidSizeTable(Some(ValidSizeTable(stored))) == ValidSizeTable(stored)
  {
  }

  /** A size within the bounds has between 1 and 1000 cells. */
  lemma ValidSizeArea(size: Size)
    requires RowsInRange(size.rows) && ColsInRange(size.cols)
    ensures 1 <= Area(size) <= MaxTable.rows * MaxTable.cols
  {
    assert size.rows * size.cols <= MaxTable.rows * size.cols;
  }

  /** JavaScript's `stored || fallback` on a number read from storage: a missing value and 0 both fall back. */
  function StoredOr(stored: Option<int>, fallback: int): (r: int)
    ensures r == fallback <==> stored.None? || stored.value == 0 || stored.value == fallback
    ensures stored.Some? && stored.value != 0 ==> r == stored.value
  {
    if stored.Some? && stored.value != 0 then stored.value else fallback
  }

  /** The largest bomb count the settings accept: one cell must stay safe. */
  function MaxBombs(size: Size): (r: int)
    ensures r < Area(size) && r + 1 == Area(size)
    ensures Area(size) >= 1 ==> r >= 0
  {
    Area(size) - 1
  }

  /**
    The default bomb count, one bomb per five cells rounded down, and 1
    when that rounds to 0.
   */
  function DefaultBombs(size: Size): (r: int)
    ensures Area(size) >= 1 ==> r >= MinBombs
    ensures Area(size) >= 2 ==> r <= MaxBombs(size)
    ensures Area(size) >= 5 ==> 5 * r <= Area(size) < 5 * (r + 1)
    ensures 0 <= Area(size) < 5 ==> r == 1
  {
    var fifth := Area(size) / 5;
    if fifth == 0 then 1 else fifth
  }

  /**
    On every board with at least two cells the default lies in
    [MinBombs, MaxBombs]; on the 1x1 board it is 1 while MaxBombs is 0.
   */
  lemma DefaultBombsAgainstMax(size: Size)
    requires Area(size) >= 1
    ensures Area(size) >= 2 ==> MinBombs <= DefaultBombs(size) <= MaxBombs(size)
    ensures Area(size) == 1 ==> DefaultBombs(size) == 1 && MaxBombs(size) == 0
  {
  }

  /**
    The bomb-count effect: a count in [MinBombs, MaxBombs] is kept, any
    other is replaced by the default.
   */
  function ValidatedBombs(bombs: int, size: Size): (r: int)
    ensures MinBombs <= bombs <= MaxBombs(size) ==> r == bombs
    ensures Area(size) >= 2 ==> MinBombs <= r <= MaxBombs(size)
    ensures Area(size) >= 2 ==> (r == bombs <==> MinBombs <= bombs <= MaxBombs(size))
    ensures !(MinBombs <= bombs <= MaxBombs(size)) ==> r == DefaultBombs(size)
    ensures Area(size) >= 1 ==> 1 <= r <= Area(size)
  {
    if bombs > MaxBombs(size) || bombs < MinBombs then DefaultBombs(size) else bombs
  }

  /** Running the bomb-count effect a second time changes nothing. */
  lemma ValidatedBombsIdempotent(bombs: int, size: Size)
    ensures ValidatedBombs(ValidatedBombs(bombs, size), size) == ValidatedBombs(bombs, size)
  {
  }

  /**
    Points per cleaned cell: the number of bombs per ten cells, rounded
    down; `floor(bombs / (rows*cols/10))` computed exactly.
   */
  function RatePoints(bombs: int, size: Size): (r: int)
    requires Area(size) > 0
    ensures r * Area(size) <= 10 * bombs < (r + 1) * Area(size)
    ensures bombs >= 0 ==> r >= 0
  {
    (10 * bombs) / Area(size)
  }
}
