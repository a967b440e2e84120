# Number-Connect game engine in Dafny

Number-Connect is a number-matching puzzle. A board nine columns wide holds tiles
valued 1..9. The player picks two tiles that are equal or that sum to ten. The pair
must also be connectable: along a straight row, column or diagonal whose interior is
empty, or along the row-major reading order when every cell between them is empty.
A matched pair is removed and scores points, with a bonus for consecutive matches.
Rows left without tiles are dropped. A limited "add numbers" move copies every
remaining tile value, in reading order, below the board. A limited hint finds the
first legal pair.

This project models the rules engine, the `GameService` class. The class keeps
its grid and counters as fields, and each public operation is a method that
updates them in place:

- `models.dfy` (module `GameModels`): the records: `Cell`, `Point`, `Path`, the
  stats snapshot and the match events.
- `board.dfy` (module `Board`): the grid as a sequence of rows. It holds the
  specification functions the methods are proved against:
  - `OccupiedValues`: the row-major list of tile values;
  - `Tally` and `ClearedFlags`: the per-value counts and the cleared flags;
  - `LayOut`: how a list of values is written into rows of nine;
  - `Vacated` and `Compacted`: removing one tile, and dropping empty rows while
    renumbering;
  - the lemmas connecting these functions.
- `paths.dfy` (module `Paths`): the connectivity rule. It covers the straight
  case, the scan-order case, the path `findPath` yields and the cells shown for
  a failed attempt, with lemmas on the shape of each path.
- `service.dfy` (module `Service`): the class `GameService` with the fields `grid`,
  `currentScore`, `stage`, `numbersCleared`, `allTimeScore`, `hintsRemaining`,
  `addsRemaining` and `comboCount`:
  - one method per operation of the source;
  - row-level helper methods for the inner loops;
  - the hint-order and replenish lemmas.

The class invariant `Valid()` holds before and after every public operation:
- every row is nine cells wide;
- every cell's `row`/`col` equals its position;
- an occupied cell holds a value in 1..9 and is marked as once occupied;
- an unoccupied cell holds no value;
- the counters are non-negative;
- `numbersCleared` has a 0/1 flag for each value 1..9;
- `stage` is 1.

The model follows the code as written:
- A removed tile loses its value (it becomes `None`).
- Hints are limited by the `hintsRemaining` counter.
- Nothing awards a win or changes `stage`.
- `addNumbers` starts its scan right after the last pristine cell, a cell
  that has never been occupied
  (number-connect-app/src/app/services/game.service.ts:284-296). Every cell
  from there to the end of the grid has been occupied before, and the
  placement loop skips such cells (line 311). So the copy is always written
  from column 0 of a new row below the grid. The pristine padding of a fresh
  deal, at indices 42..44, is therefore never filled.
- The deal writes the 42 values in the order given. The code performs no
  shuffle.
- The test file expects a score of 2 after one match. The code adds 10, plus 5
  for each earlier match in the combo, and the model follows the code.

## Model

| member | source | states |
|---|---|---|
| Service.GameService.constructor | number-connect-app/src/app/services/game.service.ts:47-51 | a new service holds the saved all-time score, all flags 0, score and combo 0, 5 hints, 3 adds, and the grid laid out from the deal |
| Service.GameService.InitNumbersCleared | number-connect-app/src/app/services/game.service.ts:62-66 | afterwards the flag table has exactly the keys 1..9, all 0 |
| Service.GameService.InitGame | number-connect-app/src/app/services/game.service.ts:79-118 | the grid becomes the 42 deal values laid out row-major nine to a row, padded with pristine cells; score, combo and flags are reset; the all-time score and the hint and add counters are kept; the invariant holds |
| Service.DealRow | number-connect-app/src/app/services/game.service.ts:89-113 | one pass of the row loop builds exactly row r of the laid-out deal, and the created count becomes min(9(r+1), 42) |
| Service.FreshDeal | number-connect-app/src/app/services/game.service.ts:79-118 | a deal gives five well-formed rows of nine; reading the occupied values back returns the 42 deal values in order; cells 42 up to 44 are pristine and hold no value |
| Service.GameService.CheckWin | number-connect-app/src/app/services/game.service.ts:130-132 | the board counts as won exactly when no occupied value remains |
| Board.AllVacantIffNoValues | number-connect-app/src/app/services/game.service.ts:130-132 | on a well-formed grid, "every cell unoccupied" holds exactly when the row-major list of occupied values is empty |
| Service.GameService.TryMatch | number-connect-app/src/app/services/game.service.ts:134-182 | returns true exactly for two distinct occupied cells whose values are equal or sum to 10 and that are connectable. An unoccupied cell or the same cell twice gives no event. A value mismatch gives a failed event with just the two points. A connectivity failure gives a failed event with the two points plus the attempted cells. A match gives a found event carrying the resolved path |
| Service.MatchRemovesTwo | number-connect-app/src/app/services/game.service.ts:134-212 | removing a legal pair and compacting leaves exactly two fewer occupied values |
| Service.GameService.RemoveTiles | number-connect-app/src/app/services/game.service.ts:184-212 | combo +1; score grows by 10 + 5 * (old combo); all-time = max(old all-time, new score); the grid becomes the compaction of the grid with both cells vacated (unoccupied, value None); flags match the new grid; hint/add counters and stage unchanged |
| Board.VacatedCount | number-connect-app/src/app/services/game.service.ts:201-204 | vacating a cell removes one occupied value exactly when that cell held one |
| Board.RemovePairCount | number-connect-app/src/app/services/game.service.ts:201-204 | vacating two distinct occupied cells removes exactly two occupied values |
| Board.VacatedWellFormed | number-connect-app/src/app/services/game.service.ts:201-204 | vacating a cell keeps the grid well formed and keeps its height |
| Service.GameService.UpdateNumbersCleared | number-connect-app/src/app/services/game.service.ts:214-237 | the flags become ClearedFlags of the grid: 1 for a value no occupied cell holds, 0 otherwise |
| Service.GameService.CountRemaining | number-connect-app/src/app/services/game.service.ts:220-229 | the count map is the tally of the row-major occupied values, with every entry at least 1 |
| Service.CountRow | number-connect-app/src/app/services/game.service.ts:223-228 | the inner loop over one row adds that row's occupied values to the count map, cell by cell |
| Board.TallyMeaning | number-connect-app/src/app/services/game.service.ts:220-229 | a value has a count entry exactly when it occurs, and the entry is its number of occurrences |
| Board.TallyRowMeaning | number-connect-app/src/app/services/game.service.ts:222-228 | counting a row on top of the counts of earlier values equals counting the concatenated values |
| Service.MarkCleared | number-connect-app/src/app/services/game.service.ts:231-236 | starting from all-zero flags, the result has keys 1..9; value v is flagged 1 exactly when v has no count entry |
| Board.ClearedFlagsMeaning | number-connect-app/src/app/services/game.service.ts:214-236 | for v in 1..9, the flag is 0 or 1, and it is 1 exactly when no occupied cell anywhere holds v |
| Board.CompactedClearedFlags | number-connect-app/src/app/services/game.service.ts:207-209 | dropping empty rows does not change the cleared flags, so computing them before compaction gives the same table |
| Service.GameService.CheckAndRemoveEmptyRows | number-connect-app/src/app/services/game.service.ts:239-265 | the grid becomes its compaction. The reported rows are exactly the old indices of all-unoccupied rows, in descending order. The invariant holds |
| Service.GameService.DropEmptyRows | number-connect-app/src/app/services/game.service.ts:240-247 | the backwards splice loop leaves the non-empty rows in their order and reports the empty-row indices from the bottom up |
| Service.GameService.RenumberCells | number-connect-app/src/app/services/game.service.ts:259-264 | every cell's row/col fields are rewritten to its position; nothing else changes |
| Board.CompactedFacts | number-connect-app/src/app/services/game.service.ts:239-264 | after compaction, no row is empty; the occupied values keep their row-major order and count; a well-formed grid stays well formed and nine wide |
| Board.CompactedNoEmptyRows | number-connect-app/src/app/services/game.service.ts:241-246 | no row of the compacted grid is all unoccupied |
| Board.CompactedWellFormed | number-connect-app/src/app/services/game.service.ts:259-264 | renumbering after the drop makes every surviving cell's row/col equal its new position |
| Board.KeepNonEmptyValues | number-connect-app/src/app/services/game.service.ts:241-246 | dropping empty rows keeps the row-major list of occupied values unchanged |
| Board.EmptyRowIndicesFacts | number-connect-app/src/app/services/game.service.ts:241-246 | the reported indices are exactly the empty rows at or after the start, strictly descending |
| Service.GameService.AddNumbers | number-connect-app/src/app/services/game.service.ts:267-331 | with no adds left, nothing changes. Otherwise adds drop by 1 and the combo resets to 0, even on an empty board. The values are the row-major occupied values. The grid becomes the old grid followed by those values laid out from column 0 of a new row. The positions are the consecutive indices after the old grid. Score, hints, flags and stage are unchanged |
| Service.GameService.CollectOccupiedValues | number-connect-app/src/app/services/game.service.ts:273-280 | the collected list is the row-major list of occupied values |
| Service.CollectRow | number-connect-app/src/app/services/game.service.ts:275-279 | the inner loop appends exactly that row's occupied values |
| Service.GameService.LastPristineIndex | number-connect-app/src/app/services/game.service.ts:284-291 | the result is -1 or the index of a pristine cell, and no later cell is pristine |
| Service.GameService.PlaceValues | number-connect-app/src/app/services/game.service.ts:296-320 | when no cell at or after the start index is pristine, placing L gives the old grid followed by L laid out from a new row; the positions are the consecutive indices after the old grid |
| Service.GameService.PlaceValue | number-connect-app/src/app/services/game.service.ts:298-319 | the inner search skips cells already occupied once, appends a pristine row when it runs past the end, fills the first never-occupied cell, and leaves the grid as the layout extended by that value |
| Service.ReplenishDoubles | number-connect-app/src/app/services/game.service.ts:273-320 | after replenishing, the row-major occupied values are the old list twice over, so the tile count doubles |
| Board.LayOutValues | number-connect-app/src/app/services/game.service.ts:296-320 | reading back the occupied values of a laid-out list returns the list |
| Board.AppendLayOutWellFormed | number-connect-app/src/app/services/game.service.ts:303-314 | appending laid-out values in 1..9 to a well-formed grid keeps it well formed and nine wide |
| Service.GameService.FindPath | number-connect-app/src/app/services/game.service.ts:333-345 | the result is the straight path if one is clear, else the scan-order path if one is clear, else none; it is found exactly when the cells are connectable |
| Paths.ResolvedPathSound | number-connect-app/src/app/services/game.service.ts:333-345 | a path exists exactly when the cells are connectable. A found path starts at p1, ends at p2, and passes only through unoccupied cells of the grid |
| Service.GameService.GetAttemptedPathCells | number-connect-app/src/app/services/game.service.ts:347-374 | the cells are the straight interior followed by the scan interior, without duplicates, each at its first occurrence. A point is listed exactly when it lies in either interior and is neither endpoint |
| Paths.FirstOccurrencesFacts | number-connect-app/src/app/services/game.service.ts:363-373 | de-duplication keeps exactly the non-endpoint points of the input, each once |
| Service.GameService.GetStraightPathBlocked | number-connect-app/src/app/services/game.service.ts:376-399 | the result is the cells strictly between p1 and p2 on their line, from p1's side; it is empty when the points are equal or not on a line |
| Service.GameService.GetScanOrderPathBlocked | number-connect-app/src/app/services/game.service.ts:401-418 | the result is the cells whose row-major index lies strictly between the two indices, ascending |
| Service.GameService.GetScanOrderPath | number-connect-app/src/app/services/game.service.ts:420-452 | a path is found exactly when every cell strictly between the two indices is unoccupied, and it is then the scan walk from p1 to p2 |
| Service.ScanOrderWalk | number-connect-app/src/app/services/game.service.ts:437-451 | the built path is p1, the in-between cells in index order moving towards p2, then p2 |
| Paths.ScanWalkShape | number-connect-app/src/app/services/game.service.ts:420-452 | for distinct in-grid points, the scan walk has abs(idx1 - idx2) + 1 points, starts at p1, ends at p2, and its k-th point has index idx1 ± k towards idx2 |
| Paths.RowEndMeetsNextRowStart | number-connect-app/src/app/services/game.service.ts:420-436 | the last cell of a row and the first cell of the next row always connect in scan order |
| Service.GameService.GetStraightPath | number-connect-app/src/app/services/game.service.ts:454-477 | a path is found exactly when the offset is non-zero and horizontal, vertical or diagonal and every interior cell is unoccupied; it is then the straight path |
| Paths.StraightPathShape | number-connect-app/src/app/services/game.service.ts:454-477 | the straight path has max(abs(dr), abs(dc)) + 1 points, starts at p1, ends at p2, and consecutive points differ by exactly (stepR, stepC) |
| Service.GameService.FindHintPair | number-connect-app/src/app/services/game.service.ts:537-563 | the search finds nothing exactly when no legal pair exists. A found pair is legal, and no pair earlier in the nested r1, c1, r2, c2 order is legal |
| Service.NoMatchAnywhere | number-connect-app/src/app/services/game.service.ts:537-563 | once the search has passed every first cell without a match, no legal pair exists |
| Service.GameService.GetHint | number-connect-app/src/app/services/game.service.ts:534-564 | with no hints left, the result is none. Otherwise the result is none exactly when no legal pair exists. A returned pair is legal and the first in search order. The counter drops by 1 exactly when a pair is returned |
| Service.GameService.GetStats | number-connect-app/src/app/services/game.service.ts:566-575 | the snapshot carries the current counters; stage is 1, the hint and add counts are non-negative, and the flag table covers 1..9 with 0/1 entries |

## Left out

- Loading and saving the all-time score in browser storage (number-connect-app/src/app/services/game.service.ts:53-60) is I/O. The saved score is a constructor parameter, and saving is not modelled.
- The reactive streams and their pushes are presentation plumbing with `Date.now()` timestamps (`updateState`, `updateStats` and the event subjects). `TryMatch`, `CheckAndRemoveEmptyRows` and `AddNumbers` return what would be pushed as out-parameters. `GetStats` stands for the stats snapshot. The board-state snapshot is not modelled.
- The 300 ms timer between a match and the removal is not modelled. `TryMatch` changes nothing, and `RemoveTiles` is a separate call. Interleavings in which the board changes before the timer fires are not modelled.
- `Math.random` in the deal is randomness. The 42 values are a parameter constrained to 1..9.
- `getOneTurnPath`, `getTwoTurnPath`, `getStraightOrthogonalPath`, `isCellEmpty` and `isCellWithinBounds` (number-connect-app/src/app/services/game.service.ts:479-532) are never called by `findPath`, so they are left out.
- In `getScanOrderPath`, the check loop builds a `path` array that is never used. The model's check loop does not build it.
- `removeTiles` reads both cell values into locals that it never uses. The model does not read them.
- Service.GameService.TryMatch, Service.GameService.RemoveTiles, Service.GameService.FindPath, Service.GameService.GetStraightPath, Service.GameService.GetScanOrderPath: require both points to lie on the grid. The source indexes the grid with them unchecked, and callers only pass board positions.
- The UI components and the test file's assertions for a different API (`newGame`, stars, hint cost) are not part of this model.
- JavaScript numbers are modelled as unbounded integers. The scores and counters stay far below 2^53.
