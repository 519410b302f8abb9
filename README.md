# SeaBattle game logic in Dafny

This project models the game logic of the browser game SeaBattle, the class
`SeaBattle` in `index.js`. Two fields of 10 x 10 cells are involved: the
player fires at the computer's field and the computer fires back at the
player's. The model covers four parts:

- **Configuration** (`config.dfy`, module `Config`):
  - the board size and the two cell markers;
  - the fleet: one ship of 4 cells, two of 3, three of 2 and four of 1;
  - `requiredHits`, the number of hits that wins, computed by the constructor's `reduce` over the fleet.
- **Ship-map generator** (`shipmap.dfy`, module `ShipMap`):
  - `generateRandomShipMap` with `isPointFree`, `canPutHorizontal` and `canPutVertical`;
  - the generator keeps a map with a one-cell border, indices -1..10;
  - here it is a 12 x 12 `array2<int>`, and the source's `map[r][c]` is `m[r + 1, c + 1]`.
- **Shot map** (`shotmap.dfy`, module `ShotMap`):
  - the computer's list of cells it may still fire at, built by `generateShotMap`;
  - the list operations the targeting code applies to it: `splice`, `findIndex` and the `some` filter;
  - the neighbour lists of hunt mode.
- **Game state** (`game.dfy`, class `Game.SeaBattle`):
  - the two ship maps, the shot map, the hit counters, `gameStopped`, `pcGoing` and the hunt target `previousHit`;
  - the operations `userFire`, `takeRandomShot`, `pcFire`, `stopGame`, `prepareToPcFire` and the resets of `startNewGame`.

Random choices (`getRandomInt`) are parameters supplied by the caller, with
range preconditions where the source would read past the end of a list:

- the placement origins come from a finite sequence;
- `takeRandomShot` takes an index;
- the hunt-mode pick takes an index.

The class invariant has two parts:

- `MapsValid`: the ghost sets `pcShips` and `userShips` are exactly the ship cells of the two maps;
- `StateValid`:
  - the shot map lists distinct board cells not fired at;
  - each hit counter is the number of ship cells its side has fired at;
  - the game is over exactly when a counter reaches `requiredHits`, and then nobody's turn is pending.

The constructor and `StartNewGame` establish this invariant. `UserFire`, `PcFire`, `TakeRandomShot`, `RemoveFromShotMap` and `NextShot` keep it, and `ResolvePcShot` keeps `StateValid`. The other methods are steps inside these and do not keep it on their own:

- `StopGame` run on a fresh game stops it with both counters at 0;
- `PrepareToPcFire` run on a stopped game hands the turn to the computer;
- `SetShipMaps`, `ResetPlay` and `StrikeDiagonals` each change only part of the state.

The source calls `stopGame` and `prepareToPcFire` only where the invariant survives (index.js:389, 402-403, 514-518).

The main results:

- Every read of the generator stays inside the padded map; this is checked as the precondition of `At`.
- `isPointFree` tests exactly the 3 x 3 square around the origin.
- A horizontal ship is accepted exactly when it and its whole surrounding ring are empty.
- A vertical ship is accepted exactly when its ring is empty except the lower-left corner (c - 1, r + len). The content of that cell never affects the scan's answer: the scan reads it only in rows r + len and r + len + 1, after it has already counted len free rows.
- The generator lays a fleet of ships, reported as a ghost sequence:
  - each ship is straight and on the board, and every ship of one cell is horizontal;
  - no ship shares a cell with an earlier ship, nor has one of its cells in its ring (save that corner); the model calls such a fleet laid apart (`Separated`);
  - the ships cover exactly the occupied cells of the map;
  - a completed map holds the lengths 4, 3, 3, 2, 2, 2, 1, 1, 1, 1 in that order, hence exactly 20 ship cells, and `requiredHits` is 20.
- The shot map starts as the 100 board cells in row-major order.
- The computer never fires at a cell twice.
- In hunt mode the computer fires next to its previous hit.
- After a hit, the hit cell and its diagonal neighbours are gone from the shot map.
- A side reaches `requiredHits` exactly when it has hit every ship cell of the other side.

Three behaviours of the source are easy to miss. The model follows the source in each:

- The vertical placement scan lets the cell diagonally below-left of the ship's last cell hold a ship, so a vertical ship can touch another ship at that corner. `VerticalPlacementIff` states exactly what is checked.
  - On the player's map this can end the game badly. A computer hit on either of the two touching cells strikes the other one off the shot map (index.js:494-506), so the computer can then never fire at every ship cell.
  - By `WinMeansEveryShipCellHit` it then never reaches `requiredHits`, and its shot map can run empty; see the `PcFire` line under "Left out".
- `startNewGame` resets the shot map, both counters and both flags, but not `previousHit`. The first computer shot of a new game can therefore hunt around a hit of the previous game.
- A pending computer shot is never cancelled. Here that means nothing more than `PcFire` being callable in any state: it does nothing once the game is over.

## Model

| member | source | states |
|---|---|---|
| Config.ReduceHits | index.js:26-28 | the constructor's reduce, a left fold adding maxShips * pointCount per fleet line to the running total (its closed form is ReduceIsFleetCells) |
| Config.ReduceIsFleetCells | index.js:26-28 | the left fold of the constructor's reduce, from any start value, adds exactly the cells of the fleet (maxShips * pointCount per line) |
| Config.RequiredHitsIsTwenty | index.js:18-28 | the reduce over the fleet gives 20, the number of ship cells of the fleet |
| Config.FleetStep | index.js:226 | taking one more line of the fleet adds its cells and appends its maxShips ship lengths |
| Config.FleetShipLengths | index.js:18-23 | the ships the generator places have the lengths 4, 3, 3, 2, 2, 2, 1, 1, 1, 1, in that order |
| Config.SumShipLengths | index.js:18-28 | the ship lengths of any fleet add up to its cell count, the quantity the reduce computes |
| ShipMap.IsPointFree | index.js:269-293 | isPointFree: the origin and its eight neighbours, read in the source's order, are all empty (its square form is IsPointFreeIff) |
| ShipMap.IsPointFreeIff | index.js:269-293 | isPointFree holds exactly when the origin and its eight neighbours, the 3 x 3 square, are all empty |
| ShipMap.CanPutHorizontal | index.js:296-332 | the scan's answer is true exactly when the ship ends inside the board and every one of its columns has an empty six-cell corridor |
| ShipMap.CanPutVertical | index.js:335-371 | the same for rows, with the vertical scan's own corridor, which reads (c - 1, y - 1) and not (c - 1, y + 1) |
| ShipMap.OneCellIsHorizontal | index.js:269-309 | a free origin always passes the horizontal scan for one cell, so the generator lays every one-cell ship horizontally |
| ShipMap.HorizontalPlacementIff | index.js:236-244 | a free origin that passes the horizontal scan is exactly a ship ending inside the board with the ship and its whole ring empty |
| ShipMap.VerticalPlacementIff | index.js:335-371 | a free origin that passes the vertical scan is exactly a ship ending inside the board whose ring is empty except the corner (c - 1, r + len) |
| ShipMap.ShipCells | index.js:241-253 | a ship of len cells covers exactly len cells, those of one straight segment from its origin |
| ShipMap.WriteShip | index.js:241-253 | the write loop marks exactly the cells of the ship occupied and leaves every other cell as it was |
| ShipMap.FitsCellsEmpty | index.js:240-253 | the cells a ship that passed either scan covers lie on the board and are empty |
| ShipMap.PlaceShip | index.js:241-253 | laying a ship keeps a valid ship map, and the occupied cells grow by exactly the ship's cells, none of them occupied before |
| ShipMap.TryPlace | index.js:232-254 | one placement attempt succeeds exactly when the origin is free and a scan accepts; on failure the map is unchanged; on success the ship lies on the board, was empty before (horizontally with its whole ring), and the occupied cells grow by exactly its cells |
| ShipMap.EmptyShipMap | index.js:214-220 | the first loops leave a fresh padded map with every cell empty |
| ShipMap.RectEmptyOccupied | index.js:240-245 | on a ship map a rectangle is empty exactly when no occupied cell lies in it |
| ShipMap.VerticalRingOccupied | index.js:248-253 | on a ship map the vertical ring is empty exactly when no occupied cell lies in it |
| ShipMap.PlaceAttempt | index.js:236-255 | one attempt at an origin: on failure the occupied cells are unchanged; on success the ship starts there with the given length, lies on the board over cells not occupied before, the occupied cells grow by exactly its cells, a vertical ship has at least two cells (so a one-cell ship is horizontal), and no cell occupied before lies in the ring of any ship it returns |
| ShipMap.PlaceWithRetries | index.js:228-256 | the retry loop never frees an occupied cell: it either runs out of origins with the occupied cells unchanged, or places the ship at the last origin drawn: on the board, over cells not occupied before, the occupied cells growing by exactly its cells and its length, vertical only when two cells or longer, and no earlier occupied cell in its ring |
| ShipMap.FleetUnionCovers | index.js:226-258 | every ship's cells lie among the cells of its fleet |
| ShipMap.SeparatedPair | index.js:226-258 | in a fleet laid apart a ship shares no cell with any earlier ship |
| ShipMap.SeparatedDisjoint | index.js:226-258 | in a fleet laid apart no two ships share a cell |
| ShipMap.SeparatedCount | index.js:226-258 | a fleet laid apart covers exactly as many cells as its ship lengths add up to |
| ShipMap.AddShip | index.js:226-258 | a ship clear of the fleet's cells and with none of them in its ring keeps the fleet laid apart and adds exactly its cells and its length |
| ShipMap.AddShipOfLength | index.js:227-257 | the same, extending the fleet's lengths by one more ship of the current line |
| ShipMap.PlaceShipsOfConfig | index.js:227-257 | the loop over one line of the fleet keeps the fleet laid apart and equal to the occupied cells, never frees an occupied cell, and when every ship of the line was placed adds maxShips ships of pointCount cells |
| ShipMap.GenerateShipMap | index.js:211-261 | the generator returns a padded map whose border is empty, with a fleet of ships, laid apart (every ship of one cell horizontal, none sharing a cell with an earlier ship or holding one in its ring) and pairwise disjoint, that covers exactly the occupied cells; when every ship was placed, the fleet's lengths are 4, 3, 3, 2, 2, 2, 1, 1, 1, 1 and the map has exactly requiredHits occupied cells |
| ShotMap.GenerateShotMap | index.js:194-208 | the push loop builds the board's cells in row-major order |
| ShotMap.RowMajorLayout | index.js:194-208 | that list has 100 pairwise distinct entries, each on the board |
| ShotMap.RowMajorCovers | index.js:194-208 | every board cell is in that list |
| ShotMap.Splice | index.js:428-430 | splice(i, 1) shortens the list by one and keeps the elements before and after i in order |
| ShotMap.SplicePermutation | index.js:428-430 | splice(i, 1) leaves a permutation of the list less its element i |
| ShotMap.SpliceDistinct | index.js:428-430 | on a list without repetitions, splice removes the element at i and no other |
| ShotMap.IndexOf | index.js:470 | findIndex returns -1 exactly when the cell is absent, and otherwise the position of its first occurrence |
| ShotMap.IndexOfDistinct | index.js:470 | on a list without repetitions, findIndex of the element at i is i |
| ShotMap.RemoveFirst | index.js:503-506 | findIndex, then splice(index, 1) only when the index is not -1; the list is unchanged when the cell is absent (its meaning is RemoveFirstDistinct). The hunt branch at index.js:470-471 splices without the guard, because the cell it removes is always present |
| ShotMap.RemoveFirstDistinct | index.js:470-471 | findIndex then splice removes exactly that cell from a list without repetitions, one shorter when it was present |
| ShotMap.RemoveAll | index.js:502-507 | the diagonal loop: RemoveFirst of each listed cell in turn, in list order (its meaning is RemoveAllDistinct) |
| ShotMap.RemoveAllDistinct | index.js:503-508 | removing each cell of a list in turn removes exactly those cells and keeps the list free of repetitions |
| ShotMap.Available | index.js:459-463 | the filter keeps exactly the candidates still in the shot map, never more than there were |
| ShotMap.HuntCandidates | index.js:451-463 | the neighbour filter: the cells above, below, left and right of the hit, kept in that order when still in the shot map (its meaning is HuntCandidatesIff) |
| ShotMap.HuntCandidatesIff | index.js:447-463 | a hunt candidate is exactly an orthogonal neighbour of the previous hit that is still in the shot map |
| ShotMap.DiagonalsIff | index.js:494-499 | the four listed diagonal cells are exactly the cells touching the hit only at a corner |
| ShotMap.StrikeOffOk | index.js:494-508 | striking off the diagonal cells keeps the shot map's invariant and removes exactly the diagonal neighbours |
| ShotMap.AfterHit | index.js:491-508 | after a hit the shot map holds exactly its earlier cells less the hit cell and its diagonal neighbours |
| Game.FireCount | index.js:396-397 | firing at a new cell adds one hit exactly when that cell is a ship cell |
| Game.AllCellsFired | index.js:401-404 | when the hits reach the number of ship cells, every ship cell has been fired at |
| Game.SeaBattle.constructor | index.js:18-28 | the constructor followed by startNewGame: requiredHits is 20, the invariant holds, the shot map is the full row-major list, no hits, no turn pending, no hunt target |
| Game.SeaBattle.StartNewGame | index.js:81-97 | startNewGame installs the two new maps and resets the shot map, both counters and both flags, keeps previousHit, and establishes the invariant |
| Game.SeaBattle.SetShipMaps | index.js:86-87 | the two generated maps become the game's maps and their ship cells its ship sets, 20 each |
| Game.SeaBattle.ResetPlay | index.js:89-93 | the shot map becomes the full row-major list, the counters zero and both flags false |
| Game.SeaBattle.WinMeansEveryShipCellHit | index.js:401-404 | a counter equals requiredHits exactly when its side has fired at every ship cell of the other side's map |
| Game.SeaBattle.StopGame | index.js:100-105 | stopGame sets gameStopped and clears pcGoing |
| Game.SeaBattle.PrepareToPcFire | index.js:416-422 | the computer's turn begins: pcGoing is set |
| Game.SeaBattle.UserFire | index.js:374-409 | a shot when the game is over, during the computer's turn or at a cell already fired at changes nothing; a miss hands the turn to the computer; a hit adds one and stops the game exactly when the count reaches requiredHits; the invariant is kept |
| Game.SeaBattle.TakeRandomShot | index.js:424-433 | the shot is the map's entry at the chosen index and the map loses exactly that entry, keeping the order of the rest |
| Game.SeaBattle.FreeNeighbours | index.js:447-463 | the neighbours collected are the cells above, below, left and right of the hit that are still in the shot map, in that order |
| Game.SeaBattle.RemoveFromShotMap | index.js:470-471 | findIndex and splice remove the chosen cell from the shot map, keeping the invariant |
| Game.SeaBattle.NextShot | index.js:441-477 | with no previous hit, or none of its neighbours left, previousHit is cleared and the shot is taken at random; otherwise it is the chosen unfired orthogonal neighbour; in both cases it was in the shot map and leaves it |
| Game.SeaBattle.StrikeDiagonals | index.js:494-508 | the loop removes each of the four diagonal cells of the hit from the shot map when present |
| Game.SeaBattle.ResolvePcShot | index.js:483-520 | a miss ends the computer's turn with the counters and the shot map unchanged; a hit becomes previousHit, strikes the diagonals off, adds one hit and stops the game exactly at requiredHits, the turn otherwise staying with the computer |
| Game.SeaBattle.PcFire | index.js:436-521 | nothing happens once the game is over; otherwise the shot is a cell never fired at before and on the board, chosen as NextShot says, and the outcome is the one ResolvePcShot states, with the invariant kept |

## Left out

- The DOM and rendering: buildToolbar, buildGameFields, buildFooter, drawGameCells, obtainOrCreateBlock, getPointBlockIdByCoords, updateToolbar and the X/O templates. They only draw the state the model keeps.
- The delay in prepareToPcFire: the timer is left out, and the caller calls PcFire while pcGoing is set. Stale timers are not cancelled in the source either, and a call with the game over does nothing.
- getRandomInt and Math.random: replaced by caller-supplied indices and origins.
- ShipMap.GenerateShipMap: promises the full fleet and 20 ship cells only when complete is true. The source's retry loop ends only with probability one; here it draws from a finite sequence of origins and reports whether every ship was placed.
- The JSON deep copy of the fleet, the string-valued coordinates read from the event target's dataset, and the coordLength parameter, which is always 10.
- The player's per-cell guard: the source removes the click handler of the cell fired at. Here it is the field userFired. drawGameCells reinstalls every handler in startNewGame, and StartNewGame empties userFired.
- StartNewGame and the constructor take the two maps generateRandomShipMap produced as parameters. They must be complete maps.
- PcFire requires a chosen index inside the shot map whenever a random shot is due. With an empty shot map the source reads `undefined` and fails.
- The ghost sets pcFired, pcShips and userShips are bookkeeping for the proofs. The source has no such fields.
