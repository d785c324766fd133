# Minesweeper game state, modelled and verified in Dafny

This project models the non-graphical core of `minesweeper.py`: the
`Minesweeper` class on a 15x15 board with 40 mines. The model covers:

- mine placement, deferred to the first click, with a safe 3x3 zone around
  the clicked cell
- the recursive flood fill of `reveal_cell`
- the loss path that reveals every mine
- the win scan of `check_victory`
- the board logic of `handle_click`: pixel to cell, the game-over guard,
  flag toggling capped at the mine count, and left-click reveals

The files are:

- `board.dfy` (module `Board`): values. The cell record, the clipped 3x3
  block `Block(r, c)` that both placement (`range(max(0, r-1), min(GRID_SIZE, r+2))`)
  and the flood fill walk over, the mine count of a block, and `Accepted`,
  the cells a sequence of draws would accept. The placement loop stops at
  `BombCount` mines, so only the cells some prefix of the draws accepts
  become mines.
- `layout.dfy` (module `Layout`): the grid rectangle of the window and the
  floor division that maps a pixel to a cell.
- `flood.dfy` (module `Flood`): the board as a value (`Grid`) and the
  relations between a board before and after a reveal:
  - only `revealed` changes, and only to true (`Grows`)
  - no mine or flag is newly revealed (`SafeReveals`)
  - every newly revealed zero cell has its whole block shown (`Spreads`)
  - every other newly revealed cell is reached from the target by a path of
    zero cells, each in the block of the next, all newly revealed after the
    target (`Connected`). It is stated as a reveal order (`Chain`): a list of
    the newly revealed cells in which each cell is fed by the target or by
    an earlier zero cell. `ConnectedReaches` turns that order into the path.

  It also proves that these relations compose and what each step of the
  fill adds.
- `game.dfy` (module `Game`): the class `Minesweeper` with `board: array2<Cell>`
  and the four fields the source updates, its invariant `Valid()`, and one
  method per operation. The random source of `_place_bombs` is a parameter
  `draws`.

`Valid()` is the object invariant. It says:

- the board is 15x15
- every `adjacent` equals the number of mines in the cell's clipped block
- `flagsPlaced` is the number of flagged cells and at most `BombCount`
- a board awaiting its first click is fresh
- a placed board holds exactly `BombCount` mines
- while the game runs, no revealed cell holds a mine or a flag
- a won game has every safe cell revealed
- a lost game has every mine revealed

The constructor and the methods that stand for the class's operations keep
`Valid()`: `ResetGame`, `PlaceBombs`, `CheckVictory`, `RevealCell` and the
steps of its flood fill, `ToggleFlag`, `ClickCell`, `ClickBoard` and
`HandleClick`. Some helpers work on a board that is not yet valid or in the
middle of the loss path: `IncrementAround`, `AddBomb`, `Draw`, `Sample`,
`Populate` and `RevealAllBombs`. They state their own facts instead.

## Model

| member | source | states |
|---|---|---|
| Board.InBlock | minesweeper.py:90-92 | a cell is in the clipped block of `(r, c)` exactly when it is on the board and at Chebyshev distance at most 1 |
| Board.BlockSymmetric | minesweeper.py:101-103 | for cells on the board, `(i, j)` is in the block of `(r, c)` exactly when `(r, c)` is in the block of `(i, j)`, so a new mine raises exactly the counts whose blocks contain it |
| Board.BlockBounds | minesweeper.py:90-92 | a cell on the board lies in its own block, and a block has at most nine cells |
| Board.AdjacentRange | minesweeper.py:101-103 | a cell without a mine has a count in [0, 8]; a mine's count also counts the mine itself, so it is in [1, 9] |
| Board.ZeroMeansNoBombNear | minesweeper.py:206-210 | a zero count means no mine in the block, so the cells the flood fill recurses into are safe |
| Board.CountWithNewBomb | minesweeper.py:97-103 | a new mine raises the mine count of a zone by one exactly when it lies in the zone |
| Board.AroundNewBomb | minesweeper.py:97-103 | a new mine at `(r, c)` raises the count of `(i, j)` by one exactly when `(i, j)` is in the block of `(r, c)` |
| Board.AcceptedOutside | minesweeper.py:94-99 | every cell the draws accept was drawn and lies outside the safe zone |
| Board.AcceptedPrefix | minesweeper.py:94-99 | the cells a prefix of the draws accepts, which are the ones that become mines, are among those the whole sequence accepts |
| Board.DrawLeft | minesweeper.py:94-95 | while fewer mines stand than the draws can give, a draw is left |
| Board.AcceptedStep | minesweeper.py:95-99 | one more draw adds exactly that draw to the mines, unless it lies in the safe zone |
| Layout.CellOf | minesweeper.py:163-169 | the computed cell is the one whose 30x30 pixel square holds the point, and it is on the board exactly when the point is inside the grid rectangle |
| Flood.AllSafeGrows | minesweeper.py:221-229 | revealing more cells keeps a won board won |
| Flood.GrowsHides | minesweeper.py:194-198 | a reveal never hides a cell again, so the hidden cells only shrink |
| Flood.RevealHides | minesweeper.py:197-198 | revealing one hidden cell removes exactly that cell from the hidden ones, which is what makes the recursion end |
| Flood.Compose | minesweeper.py:207-210 | the four reveal relations (only reveals, no mine or flag revealed, zero cells settled, new cells reached from the target) carry over from two reveals in a row to their composition |
| Flood.ComposeChains | minesweeper.py:207-210 | the reveal orders of two reveals in a row, one after the other, are a reveal order of their composition |
| Flood.ConnectedStill | minesweeper.py:192-196 | when nothing is revealed, the empty reveal order satisfies `Connected` |
| Flood.InOrderCons | minesweeper.py:206-210 | the neighbour of a zero cell put in front of the reveal order of the recursive call on it keeps every cell after a zero cell that feeds it |
| Flood.Reseed | minesweeper.py:206-210 | what a recursive call on a neighbour of a revealed zero cell reveals is reached from that zero cell: the neighbour, put first, is fed by it |
| Flood.EntryReached | minesweeper.py:206-210 | every cell of a reveal order ends a path from the target in which each cell is a zero cell whose block holds the next, and every cell after the target is newly revealed |
| Flood.ConnectedReaches | minesweeper.py:190-212 | under `Connected` every cell revealed besides the target is reached from it through newly revealed zero cells, so no region cut off from the target is revealed |
| Flood.PathAboveRow | minesweeper.py:206-210 | a path of the fill from above a row in which nothing is newly revealed never reaches that row, because each recursive call moves at most one row |
| Flood.RowBarrier | minesweeper.py:190-212 | when no cell of a row below the target is newly revealed, every newly revealed cell lies above that row: the fill never jumps over a wall of hidden cells |
| Flood.AfterTarget | minesweeper.py:197-212 | revealing the target and then flooding from it satisfies the four reveal relations from the snapshot before the target was revealed |
| Flood.RowDoneStep | minesweeper.py:208-210 | once one more cell of a row is shown, one more column of the row is done |
| Flood.BlockDoneStep | minesweeper.py:207-210 | once one more row of a block is done, one more row of the block is done |
| Flood.BlockDoneSettled | minesweeper.py:206-210 | once every row of a block is done, every cell of the block is revealed or flagged |
| Game.RightClick | minesweeper.py:175-182 | a right click changes only the `flagged` bit of a hidden cell. It clears a flag, or plants one only while fewer than `BombCount` are out. The counter moves with the bit and stays in [0, BombCount]; a revealed cell is left alone |
| Game.RightClickTwice | minesweeper.py:175-182 | a second right click on a hidden cell undoes the first, unless the first was refused at the flag cap, and a refused click changes nothing |
| Game.Minesweeper.NewGameIsValid | minesweeper.py:66-77 | the state `reset_game` leaves satisfies the invariant |
| Game.Minesweeper.constructor | minesweeper.py:31-42 | a new game is fresh and valid |
| Game.Minesweeper.ResetGame | minesweeper.py:66-77 | after a reset the board is a new fresh board, the counters are cleared and the invariant holds |
| Game.Minesweeper.IncrementAround | minesweeper.py:101-103 | exactly the cells of the clipped block of the new mine get one more on their count; nothing else changes |
| Game.Minesweeper.AddBomb | minesweeper.py:97-103 | the cell becomes a mine, the mine set grows by exactly that cell, every count stays right, and no reveal or flag changes |
| Game.Minesweeper.FreshBoard | minesweeper.py:73-77 | a fresh board has no mine, all counts right and nothing revealed or flagged |
| Game.Minesweeper.PlacedIsValid | minesweeper.py:85-105 | a board after placement satisfies the invariant |
| Game.Minesweeper.Draw | minesweeper.py:95-103 | a draw becomes a mine exactly when it lies outside the safe zone and holds no mine yet, and the mine count grows by one exactly then |
| Game.Minesweeper.Sample | minesweeper.py:94-103 | the loop ends with exactly `BombCount` mines. They are the cells the draws used so far accept, with `bombs_placed` equal to the number of mines throughout, and all counts right |
| Game.Minesweeper.Populate | minesweeper.py:89-103 | on a fresh board: `BombCount` mines, none in the safe zone, all among the draws, all counts right, nothing revealed or flagged |
| Game.Minesweeper.PlaceBombs | minesweeper.py:85-105 | `BombCount` mines, none in the clipped 3x3 block of the first click, all among the draws. After it `first_click` is false, nothing is revealed or flagged, and the invariant holds |
| Game.Minesweeper.RevealAllBombs | minesweeper.py:214-219 | every mine is revealed and every other cell is left exactly as it was |
| Game.Minesweeper.AllSafeCellsRevealed | minesweeper.py:223-227 | the scan returns true exactly when every cell without a mine is revealed |
| Game.Minesweeper.WinKeepsValid | minesweeper.py:228-229 | declaring a board with every safe cell revealed won keeps the invariant |
| Game.Minesweeper.CheckVictory | minesweeper.py:221-229 | the game ends as won exactly when every safe cell is revealed; the board does not change |
| Game.Minesweeper.Spread | minesweeper.py:206-210 | the fill around a revealed zero cell leaves its whole block revealed or flagged. Meanwhile it only reveals, reveals no mine or flag, every newly revealed zero cell has its block shown, and every newly revealed cell is reached from the centre through newly revealed zero cells. The game ends only as won |
| Game.Minesweeper.SpreadRow | minesweeper.py:208-210 | one row of the fill: every cell of that row of the block ends shown, with the same reveal relations |
| Game.Minesweeper.SpreadStep | minesweeper.py:209-210 | one recursive call of the fill, skipping the centre: the cell ends shown, with the same reveal relations, and the hidden cells do not grow |
| Game.Minesweeper.RevealOne | minesweeper.py:197-198 | the target cell is revealed and nothing else changes |
| Game.Minesweeper.Lose | minesweeper.py:198-204 | revealing a mine ends the game as lost, and exactly the mines are revealed in addition |
| Game.Minesweeper.Open | minesweeper.py:198-212 | revealing a safe cell (and flooding from it when its count is zero) satisfies the four reveal relations, and the game ends as won exactly when no safe cell is hidden |
| Game.Minesweeper.RevealCell | minesweeper.py:190-212 | off the board, on a revealed cell or on a flagged cell nothing changes. A mine loses the game and reveals every mine. Otherwise: only reveals, no mine or flag revealed, every newly revealed zero cell has its block shown, every new cell reached from the target through newly revealed zero cells, won exactly when every safe cell is revealed. The target ends revealed or flagged |
| Game.Minesweeper.ToggleFlag | minesweeper.py:175-182 | the clicked hidden cell and the flag counter change as `RightClick` says, every other cell is unchanged, and the invariant, including flag counter = number of flags, holds |
| Game.Minesweeper.MoveFlag | minesweeper.py:176-181 | planting or removing one flag changes that cell's `flagged` only and moves the counter by one |
| Game.Minesweeper.OnlyFlagsMoved | minesweeper.py:176-181 | moving flags on hidden cells keeps every count right and no mine or flag revealed |
| Game.Minesweeper.FlagCount | minesweeper.py:176-181 | a flag set that differs in one cell differs in size by exactly the change of that cell |
| Game.Minesweeper.ClickCell | minesweeper.py:175-188 | no click moves a mine or a count. A right click applies `RightClick` to the cell and nothing else. A left click on a flagged or revealed cell does nothing. A left click on a hidden unflagged cell reveals it and loses exactly when it holds a mine. On a mine exactly the mines are revealed in addition; otherwise the reveal relations hold and the game is won exactly when no safe cell is hidden |
| Game.Minesweeper.FirstClick | minesweeper.py:172-173 | the first click places the mines. None is in the clicked block, so the clicked cell has a zero count, and nothing is revealed or flagged |
| Game.Minesweeper.ClickBoard | minesweeper.py:169-188 | after a click on the board the mines are placed. A first left click opens a zero cell and never loses; a first right click plants the first flag and reveals nothing |
| Game.Minesweeper.HandleClick | minesweeper.py:161-188 | outside the grid or after the game is over nothing changes. Otherwise the mines are placed, and a first click places them away from the block under the pixel; a first left click opens that cell and never loses |

## Left out

- Window, fonts, icons (`_create_bomb_icon`, `_create_flag_icon`), `draw`, and the event loop `run` (quit, mouse dispatch, `R` to restart): these are all pygame I/O.
- Game.Minesweeper.constructor: models only the game part of `__init__`, which is `reset_game`. `pygame.init`, the display and the clock are I/O.
- `grid_rect` and `collidepoint`: the pygame rectangle built in `reset_game` is the predicate `Layout.InGrid`. Its left and top edges are inside it, its right and bottom edges outside.
- Game.Minesweeper.PlaceBombs: `random.randint` is replaced by the sequence `draws`, with at least `BombCount` distinct cells outside the safe zone. The source loop ends only with probability one, and the uniformity of the sampling is not modelled.
- Game.Minesweeper.RevealCell: requires the mines to be placed (`first_click` false). `handle_click` only calls `reveal_cell` after placement, so the case before placement is not modelled.
- Game.Minesweeper.RevealCell: Python's recursion limit is not modelled. The recursion is proved to end because every nested call starts with fewer hidden cells.
- Game.Minesweeper.ClickBoard: its contract states only what the first click adds. A click after the first is `ClickCell` on the same cell, and `ClickCell`'s contract describes it.
- Game.Minesweeper.HandleClick: its contract states the guard and the first-click facts in pixel terms. For the flag and reveal effects on the cell under the pixel it relies on `ClickBoard` and `ClickCell`.
- Counts on mine cells: the code adds one for every mine in the clipped 3x3 block, the cell itself included (minesweeper.py:101-103). A mine's own count is therefore between 1 and 9, whereas an 8-neighbourhood count in [0, 8] would be the reading for cells without a mine. The model follows the code, and the counts of mine cells are never shown.
