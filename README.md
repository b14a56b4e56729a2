# Minesweeper engine, modelled and verified in Dafny

This project models the engine of Cartago's Minesweeper, an Angular game.
The engine is the `StateService` of `src/app/shared/services/state.service.ts`, plus the two board click handlers of the table component and the face button of the table header.

The service keeps the session in signals:
- the board size, the table of cells, the bomb count and the flag counter;
- the points and the best score;
- the remaining seconds, the game status and the number of cleaned cells.

Four effects react to those signals: bomb-count validation, game won, time lost and points.

The model keeps that shape:

- `GameInterface` holds the value types of `game.interface.ts`: a cell's value, its mark, the game status, sizes and positions.
- `Settings` holds the pure validators and derived numbers: stored size validation, default and maximum bomb counts, bomb-count validation and the scoring rate.
- `Display` holds the two zero-padded header counters and a reader that parses them back.
- `Grid` covers positions, adjacency, the bombs around a cell, and walks through empty cells.
- `Boards` is a value view of a table, `map<Position, Cell>`. It is used to state what a reveal changes, when a board is consistent (every safe cell holds its bomb-neighbour count), and the counting facts behind the win condition.
- `StateService` holds the `Game` class over an `array2<Cell>` table. Its methods change the table in place and are proved against the `Boards` view:
  - `_newEmptyTable` and `_createTable`, with its bomb-placement and counting loops;
  - the recursive `showNearCells` cascade;
  - `startGame` and `stopGame`, the interval tick, and the effects as explicit calls.
- `TableComponent` and `TableHeaderComponent` hold `clickCell`, `clickRightCell` and `clickFace`. Each acts on the `Game` it is given and then runs the effects the change triggers.

While a game is playing, `Game.Valid` states these invariants:
- the cleaned-cell counter equals the number of visible cells;
- the table is a consistent board with no visible bomb;
- the points are the cleaned cells times the rate;
- the interval runs only during play with time left.

The player actions (`clickCell`, `clickRightCell`, `clickFace`), the interval tick, `startGame` and a `stopGame` that ends the game all keep `Valid`. The effects state the part of it they restore, and `showNearCells` works inside a move, before the invariant is restored.

## Model

| member | source | states |
|---|---|---|
| Settings.ValidSizeTable | src/app/shared/services/state.service.ts:138-149 | no stored size gives 10x10; the result is within 1..20 rows and 1..50 columns; each stored dimension is kept exactly when it is in range, otherwise it becomes 10 |
| Settings.ValidSizeTableIdempotent | src/app/shared/services/state.service.ts:138-149 | validating a validated size changes nothing |
| Settings.ValidSizeArea | src/app/shared/services/state.service.ts:27-34 | a size within the min and max table has between 1 and 1000 cells |
| Settings.StoredOr | src/app/shared/services/state.service.ts:130-136 | like `stored \|\| fallback`: a stored non-zero value is returned as it is, and the result is the fallback exactly when nothing or 0 is stored (or the stored value equals the fallback) |
| Settings.DefaultBombs | src/app/shared/services/state.service.ts:151-154 | the default is one bomb per five cells rounded down (5r <= rows*cols < 5(r+1)), and 1 below five cells; at least 1, at most rows*cols-1 from two cells on |
| Settings.DefaultBombsAgainstMax | src/app/shared/services/state.service.ts:40-43 | from two cells on the default lies in [1, maxBombs]; on the 1x1 board it is 1 while maxBombs is 0 |
| Settings.MaxBombs | src/app/shared/services/state.service.ts:40-43 | the largest bomb count that leaves one safe cell: one less than rows*cols, and never negative on a board with a cell |
| Settings.ValidatedBombs | src/app/shared/services/state.service.ts:83-90 | the bomb-count effect keeps a count in [1, maxBombs] and replaces any other with the default; from two cells on, the result is in range, and it equals the input exactly when the input was in range |
| Settings.ValidatedBombsIdempotent | src/app/shared/services/state.service.ts:83-90 | running the bomb-count effect twice equals running it once |
| Settings.RatePoints | src/app/shared/services/state.service.ts:56-61 | the rate r is floor(bombs / (rows*cols/10)): r*rows*cols <= 10*bombs < (r+1)*rows*cols, and it is never negative for a non-negative count |
| Display.NatToString | src/app/shared/services/state.service.ts:49-50 | `toString` of a non-negative number: at least one character, all decimal digits, no leading zero, one character below 10 |
| Display.PadStart | src/app/shared/services/state.service.ts:49-50 | `padStart` with one fill character: the result has the larger of the width and the input's length, ends with the input, and holds only fill before it |
| Display.DiffBombsFlags | src/app/shared/services/state.service.ts:46-51 | the bombs-minus-flags text is at least three characters wide |
| Display.DiffBombsFlagsRoundTrip | src/app/shared/services/state.service.ts:46-51 | the counter reads back as bombs - flags; it is '-' and digits when flags outnumber bombs and digits only otherwise, so the padding is zeros; it is three characters wide from -99 to 999 |
| Display.GameTime | src/app/shared/services/state.service.ts:66-68 | the time text is at least three characters wide |
| Display.GameTimeRoundTrip | src/app/shared/services/state.service.ts:66-68 | a non-negative time text is all digits, so it is zero-padded; it reads back as the time and is three characters wide up to 999 |
| Grid.NeighbourCountInRange | src/app/shared/services/state.service.ts:172-182 | a counted cell has at most 8 bomb neighbours, so its value is empty or a count from 1 to 8 |
| Grid.ReachedCellsAreSafe | src/app/shared/services/state.service.ts:249-256 | when no cell passed through has a bomb neighbour, nothing reachable from a safe cell is a bomb |
| Boards.CascadeIsSafe | src/app/shared/services/state.service.ts:255 | on a consistent board, every cell reachable through empty cells from a safe cell is safe, so a cascade never reveals a bomb |
| Boards.AllSafeShown | src/app/shared/services/state.service.ts:97 | with no bomb visible, `visible == rows*cols - bombs` holds exactly when every safe cell is visible |
| Boards.MarkChangeKeeps | src/app/components/table/table.component.ts:54-60 | changing one hidden mark to another keeps the visible cells, the bombs and consistency |
| Boards.MarkChangeFlags | src/app/components/table/table.component.ts:54-60 | changing one mark moves the number of flagged cells by +1 for a flag placed and -1 for a flag removed |
| StateService.BuiltBoard | src/app/shared/services/state.service.ts:169-184 | a table whose bombs are a set and whose other cells count that set is a consistent board whose bombs are that set |
| StateService.NewEmptyTable | src/app/shared/services/state.service.ts:188-196 | a fresh rows x cols table with every cell empty and hidden |
| StateService.PlaceBombs | src/app/shared/services/state.service.ts:159-168 | the rejection loop puts exactly `bombs` bombs, all on drawn cells, and every cell stays hidden and either empty or a bomb |
| StateService.SetBomb | src/app/shared/services/state.service.ts:164-166 | a bomb on a hidden empty cell adds exactly that cell to the bombs, which did not hold it, and the table stays hidden cells that are empty or bombs |
| StateService.CountNearBombs | src/app/shared/services/state.service.ts:172-178 | the clipped 3x3 scan counts exactly the bombs adjacent to the cell |
| StateService.FillCounts | src/app/shared/services/state.service.ts:169-184 | every cell that is not a bomb gets its bomb-neighbour count (empty for none); bombs and marks are unchanged |
| StateService.RevealAll | src/app/shared/services/state.service.ts:229-238 | every cell becomes visible and keeps its value |
| StateService.WinReached | src/app/shared/services/state.service.ts:95-97 | the won-effect condition; when it holds, cleaned cells plus bombs make up the whole board, and a board that is all bombs (the 1x1 board) never reaches it |
| StateService.Best | src/app/shared/services/state.service.ts:223-226 | the best score after a game: at least the old best and the points, and equal to one of them |
| StateService.Game.constructor | src/app/shared/services/state.service.ts:80-126 | size is the validated stored size; maxPoints is the stored value or 0; bombs is the validated stored count; status is playing with no interval and 999 seconds; counters are 0; the table is empty and hidden; the game is valid |
| StateService.Game.ValidateBombs | src/app/shared/services/state.service.ts:83-90 | the bomb count becomes its validated value |
| StateService.Game.Rate | src/app/shared/services/state.service.ts:56-61 | the `ratePoints` computed over the current size and bomb count: r*rows*cols <= 10*bombs < (r+1)*rows*cols, never negative |
| StateService.Game.CreateTable | src/app/shared/services/state.service.ts:156-186 | a fresh hidden table of the configured size, with exactly `bombs` bombs, all on drawn cells, and every other cell holding its bomb-neighbour count |
| StateService.Game.StartGame | src/app/shared/services/state.service.ts:200-211 | status is playing; the interval is running from 999; points, flags and cleaned cells are 0; the table is freshly dealt (hidden, `bombs` bombs, consistent); size, bombs and best score are unchanged; the game is valid |
| StateService.Game.StopGame | src/app/shared/services/state.service.ts:213-239 | status is set and the interval stopped; a win adds time*rate to the points, any other ending keeps them; the best score becomes Best(old best, points); a win leaves the table alone, any other ending makes every cell visible; an ended game is valid |
| StateService.Game.WonEffect | src/app/shared/services/state.service.ts:93-102 | the game becomes won exactly when cleanedCells is non-zero and equals rows*cols - bombs; a win stops the interval, adds time*rate to the points and makes the best score Best(old best, points); otherwise the interval, points and best score are unchanged; the table is unchanged |
| StateService.Game.PointsEffect | src/app/shared/services/state.service.ts:114-121 | while playing, points become cleanedCells*rate; otherwise they are kept; the game is valid afterwards |
| StateService.Game.CleanedCellsChanged | src/app/shared/services/state.service.ts:92-121 | the won and points effects in declaration order. A win stops the interval, adds time*rate to the points held before the move and updates the best score. Otherwise the interval and best score are kept, and the points become cleanedCells*rate while playing and are kept when not. The table is unchanged and the game is valid |
| StateService.Game.Tick | src/app/shared/services/state.service.ts:208-210 | one second passes. At zero the game is lost, the interval stops, the points are kept, the best score becomes Best(old best, points) and every cell is shown. Otherwise play continues with the table, points and best score unchanged, so a dealt table stays dealt |
| StateService.Game.TimeLostEffect | src/app/shared/services/state.service.ts:105-111 | a game still playing with no time left becomes lost: the interval stops, the points are kept, the best score becomes Best(old best, points) and every cell is shown. Otherwise the status, interval, points, best score and table are unchanged |
| StateService.Game.WinMeansAllSafeShown | src/app/shared/services/state.service.ts:93-102 | on a dealt table in play, the win condition holds exactly when some cell is cleaned and the visible cells are exactly the cells without a bomb |
| StateService.Game.ShowNearCells | src/app/shared/services/state.service.ts:241-258 | terminates; the clicked cell is visible; only cells that were not visible change, each made visible with its value kept; cleanedCells grows by their number; each is reachable from the clicked cell through empty cells; every empty cell it reveals has all its neighbours visible |
| StateService.Game.ShowNearRow | src/app/shared/services/state.service.ts:249-257 | the same guarantees for one row of the 3x3 window; when the centre is empty, all its neighbours in that row are visible afterwards |
| TableComponent.NextMark | src/app/components/table/table.component.ts:54-60 | a right click moves hidden -> flag -> question -> hidden, and leaves a visible cell visible |
| TableComponent.FlagDelta | src/app/components/table/table.component.ts:54-60 | the flag counter moves by +1 when a flag is placed and -1 when one is removed, and 0 otherwise |
| TableComponent.RightClickCycle | src/app/components/table/table.component.ts:54-60 | three right clicks restore the mark and leave the flag counter unchanged |
| TableComponent.ClickCell | src/app/components/table/table.component.ts:29-43 | not playing, or a cell that is not hidden: nothing changes. A hidden bomb: explosion, game lost, interval stopped, every cell shown, points kept, best score Best(old best, points). Any other hidden cell: what is revealed holds the cell and no bomb, is reachable through empty cells, and every empty cell it reveals has all its neighbours visible; cleanedCells grows by its size; a numbered cell reveals only itself; the bombs stay where they were, so a dealt table stays dealt; the game is won exactly when the win condition holds, with the interval stopped, time*rate added to the points and the best score updated; otherwise the interval and best score are kept. Size, bombs, flags and time never change, and the game stays valid |
| TableComponent.Uncover | src/app/components/table/table.component.ts:35-42 | the safe branches of clickCell: the cascade or the single reveal, then the effects of cleanedCells, with the same reveal, dealt-table, win, points, interval and best-score outcomes as clickCell |
| TableComponent.Reveal | src/app/components/table/table.component.ts:35-41 | the reveal before the effects: the cascade from an empty cell or the single cell, counted in cleanedCells, holding the cell and no bomb, with the bombs unchanged and the board invariant restored |
| TableComponent.Settle | src/app/components/table/table.component.ts:35-42 | after a reveal from a safe cell, the board invariant holds again, the bombs and empty cells are where they were, and nothing revealed is a bomb |
| TableComponent.ClickRightCell | src/app/components/table/table.component.ts:45-61 | not playing: nothing changes. Otherwise the cell's mark becomes NextMark of it and flags move by FlagDelta; no other cell changes; flags minus flagged cells is kept; a dealt table stays dealt; the game stays valid |
| TableHeaderComponent.ClickFace | src/app/components/table-header/table-header.component.ts:22-26 | size and bombs are always kept. During play the game stops as stopped: every cell is shown, the points, flags, cleaned cells and time are kept, and the best score becomes Best(old best, points). Otherwise a new game starts with a dealt table of hidden cells whose bombs lie on drawn cells, zero counters and the best score kept |

## Left out

- Local storage is not modelled. The three stored values are constructor inputs (`Option`); a stored 0 counts as absent, as `||` makes it. `saveMaxPoint` is not modelled.
- `Math.random` is not modelled. Its successive row and column picks are the `draws` sequence. `StartGame` and `CreateTable` require the draws to lie on the board and to hit at least `bombs` distinct cells; without that, the rejection loop does not finish.
- The rxjs one-second interval is the `ticking` flag plus an explicit `Tick` call.
- StateService.Game.StartGame: requires that no interval is running. The source does not guard against this, and a restart during play would leave the old subscription ticking. Every caller (`clickFace`, the table's `ngOnInit`) starts a game only when none is running.
- The pacing delay and change detection in `stopGame`'s sweep are not modelled. The sweep is a plain loop.
- Angular signals and effects are explicit method calls.
  - `ValidateBombs` runs after construction.
  - `CleanedCellsChanged` runs after every change of `cleanedCells`, and holds the won and points effects in declaration order.
  - `TimeLostEffect` runs after each tick.
  - The model assumes the effects run in declaration order. On the winning move the points effect then finds the game over, so the final score uses the points from before that move's cells.
- `ratePoints` replaces floating-point division by exact division rounded down. Float rounding at exact multiples is not modelled.
- The table is a grid of cell values, not arrays of shared objects.
  - `_newEmptyTable` fills each row with one shared cell object. `_createTable` replaces every cell with a copy, so no shared cell reaches a game.
  - The constructor also builds the empty table that the service's `ngOnInit` would set. Angular runs no `ngOnInit` on a service, so in the application the table stays `[]` until the first `startGame`.
- The cascade reveals flagged and questioned neighbours and does not lower the flag counter, as the source does. This is modelled as written.
- The 1x1 board holds one bomb and no safe cell. The won effect's `cleanedCells === 0` guard means it can never be won. This is modelled as written.
- These parts are not part of this model:
  - `event.preventDefault`, change-detector wiring, the table component's `ngOnInit` (a single `startGame` call), and the UI flags `isClicking`, `isRightClicking` and `showModal`;
  - the settings modal, the game page and the local-storage service.
