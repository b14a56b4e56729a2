/**
  The value types of the game: cells, positions, board sizes and the
  session status (src/app/shared/interfaces/game.interface.ts).
 */
module GameInterface {

  /**
    What a cell holds. `Count(n)` is a neighbour-bomb count (1..8 on a
    generated board, a count of zero is stored as `Empty`). `Explosion` is
    written on the bomb the player clicked; the interface type does not list
    it, but the table component assigns it.
   */
  datatype Value = Empty | Bomb | Explosion | Count(n: int)

  /** How the player sees a cell. */
  datatype Mark = Visible | Hidden | Flag | Question

  datatype Cell = Cell(value: Value, state: Mark)

  /** The session status; `Stopped` is the source's `'stoped'`. */
  datatype Status = Playing | Won | Lost | Stopped

  datatype Size = Size(rows: int, cols: int)

  datatype Position = Position(row: int, col: int)

  /** Number of cells of a board of the given size. */
  function Area(size: Size): int
  {
    size.rows * size.cols
  }
}
