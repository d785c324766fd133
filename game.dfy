/** The game state of minesweeper.py's `Minesweeper` class without its
    window: the board, deferred mine placement, the flood-fill reveal, the
    win and loss scans, and the board logic of a mouse click. */
module Game {
  import opened Board
  import opened Layout
  import opened Flood

  /** The right-click rule of `handle_click` on a cell with the given
      `revealed` and `flagged` bits, with `flags` flags out: the cell's new
      `flagged` bit and the new flag counter. A hidden flagged cell loses
      its flag, a hidden unflagged cell gains one while fewer than
      `BombCount` flags are out, and a revealed cell is left alone; the
      counter follows the bit. */
  function RightClick(revealed: bool, flagged: bool, flags: int): (r: (bool, int))
    ensures r.1 == flags + (if r.0 then 1 else 0) - (if flagged then 1 else 0)
    ensures revealed ==> r == (flagged, flags)
    ensures !revealed && flagged ==> !r.0
    ensures !revealed && !flagged ==> (r.0 <==> flags < BombCount)
    ensures (flagged ==> 1 <= flags) && 0 <= flags <= BombCount ==> 0 <= r.1 <= BombCount
  {
    if revealed then (flagged, flags)
    else if flagged then (false, flags - 1)
    else if flags < BombCount then (true, flags + 1)
    else (flagged, flags)
  }

  /** A second right click on the same hidden cell undoes the first, unless
      the first was refused because every flag was out; a refused click
      changes nothing. */
  lemma RightClickTwice(flagged: bool, flags: int)
    requires flags <= BombCount
    ensures flagged || flags < BombCount ==>
      RightClick(false, RightClick(false, flagged, flags).0, RightClick(false, flagged, flags).1) == (flagged, flags)
    ensures !flagged && flags >= BombCount ==> RightClick(false, flagged, flags) == (flagged, flags)
  {
  }

  class Minesweeper {
    var board: array2<Cell>
    var firstClick: bool
    var gameOver: bool
    var victory: bool
    var flagsPlaced: int

    predicate Dims()
      reads this`board
    {
      board.Length0 == GridSize && board.Length1 == GridSize
    }

    /** A board whose cells did not change has the same snapshot. */
    twostate lemma SnapUnchanged()
      requires old(Dims()) && board == old(board) && unchanged(board)
      ensures Snap() == old(Snap())
    {
    }

    /** The cells that hold a mine. */
    ghost function Bombs(): set<Pos>
      reads this`board, board
      requires Dims()
    {
      set i, j | 0 <= i < GridSize && 0 <= j < GridSize && board[i, j].isBomb :: (i, j)
    }

    /** The cells that carry a flag. */
    ghost function Flagged(): set<Pos>
      reads this`board, board
      requires Dims()
    {
      set i, j | 0 <= i < GridSize && 0 <= j < GridSize && board[i, j].flagged :: (i, j)
    }

    /** The board as a value. */
    ghost function Snap(): (g: Grid)
      reads this`board, board
      requires Dims()
      ensures IsGrid(g)
      ensures forall i, j :: 0 <= i < GridSize && 0 <= j < GridSize ==> g[i][j] == board[i, j]
    {
      var b := board;
      seq(GridSize, i requires 0 <= i < GridSize reads b =>
        seq(GridSize, j requires 0 <= j < GridSize reads b => b[i, j]))
    }

    /** Every cell is as a fresh board has it. */
    ghost predicate Untouched()
      reads this`board, board
      requires Dims()
    {
      forall i, j :: 0 <= i < GridSize && 0 <= j < GridSize ==> board[i, j] == Fresh
    }

    /** What the loss screen shows: every mine is revealed. */
    ghost predicate AllBombsRevealed()
      reads this`board, board
      requires Dims()
    {
      forall i, j :: 0 <= i < GridSize && 0 <= j < GridSize && board[i, j].isBomb ==> board[i, j].revealed
    }

    /** The `adjacent` of cell `(i, j)` is the number of mines in its
        clipped 3x3 block, the cell itself included. */
    ghost predicate CountOk(i: int, j: int)
      reads this`board, board
      requires Dims() && InBounds(i, j)
    {
      board[i, j].adjacent == BombsAround(Bombs(), i, j)
    }

    /** Every cell's count is right. */
    ghost predicate CountsCorrect()
      reads this`board, board
      requires Dims()
    {
      forall i, j :: 0 <= i < GridSize && 0 <= j < GridSize ==> CountOk(i, j)
    }

    /** While the game runs, no revealed cell holds a mine or a flag. */
    ghost predicate NothingBadRevealed()
      reads this`board, board
      requires Dims()
    {
      forall i, j :: 0 <= i < GridSize && 0 <= j < GridSize && board[i, j].revealed ==>
        !board[i, j].isBomb && !board[i, j].flagged
    }

    /** The object invariant: the board has its size, the counts are right,
        the flag counter counts the flags and stays within the mine count,
        a board awaiting its first click is fresh, a placed board holds
        exactly `BombCount` mines, and the two end states are what their
        flags say. */
    ghost predicate Valid()
      reads this, board
    {
      Dims() &&
      CountsCorrect() &&
      flagsPlaced == |Flagged()| && flagsPlaced <= BombCount &&
      (firstClick ==> Untouched() && !gameOver) &&
      (!firstClick ==> |Bombs()| == BombCount) &&
      (!gameOver ==> !victory && NothingBadRevealed()) &&
      (gameOver && victory ==> AllSafe(Snap())) &&
      (gameOver && !victory ==> AllBombsRevealed())
    }

    /** The state `reset_game` leaves: a fresh board and cleared counters. */
    ghost predicate NewGame()
      reads this, board
    {
      Dims() && Untouched() && firstClick && !gameOver && !victory && flagsPlaced == 0
    }

    lemma NewGameIsValid()
      requires NewGame()
      ensures Valid()
    {
      assert Bombs() == {};
      assert Flagged() == {};
    }

    /** A game ready for its first click (the game part of `__init__`). */
    constructor ()
      ensures NewGame() && Valid()
    {
      board := new Cell[GridSize, GridSize]((i, j) => Fresh);
      firstClick, gameOver, victory, flagsPlaced := true, false, false, 0;
      new;
      NewGameIsValid();
    }

    /** `reset_game`: clears the counters and replaces the board with a
        fresh one. */
    method ResetGame()
      modifies this
      ensures NewGame() && Valid() && fresh(board)
    {
      firstClick := true;
      gameOver := false;
      victory := false;
      flagsPlaced := 0;
      board := new Cell[GridSize, GridSize]((i, j) => Fresh);
      NewGameIsValid();
    }

    /** The inner loops of `_place_bombs`: add one to the count of every
        cell of the clipped 3x3 block of the new mine at `(row, col)`. */
    method IncrementAround(row: int, col: int)
      requires Dims() && InBounds(row, col)
      modifies board
      ensures forall i, j :: 0 <= i < GridSize && 0 <= j < GridSize ==>
        board[i, j] == old(board[i, j]).(adjacent := board[i, j].adjacent)
      ensures forall i, j :: 0 <= i < GridSize && 0 <= j < GridSize ==>
        board[i, j].adjacent == old(board[i, j].adjacent) + if (i, j) in Block(row, col) then 1 else 0
    {
      var r := Lo(row);
      while r < Hi(row)
        invariant Lo(row) <= r <= Hi(row)
        invariant forall i, j :: 0 <= i < GridSize && 0 <= j < GridSize ==>
          board[i, j] == old(board[i, j]).(adjacent := old(board[i, j].adjacent) +
            if Lo(row) <= i < r && Lo(col) <= j < Hi(col) then 1 else 0)
      {
        var c := Lo(col);
        while c < Hi(col)
          invariant Lo(col) <= c <= Hi(col)
          invariant forall i, j :: 0 <= i < GridSize && 0 <= j < GridSize ==>
            board[i, j] == old(board[i, j]).(adjacent := old(board[i, j].adjacent) +
              if (Lo(row) <= i < r && Lo(col) <= j < Hi(col)) || (i == r && Lo(col) <= j < c) then 1 else 0)
        {
          board[r, c] := board[r, c].(adjacent := board[r, c].adjacent + 1);
          c := c + 1;
        }
        r := r + 1;
      }
    }

    /** One accepted draw of `_place_bombs`: make `(row, col)` a mine and
        raise the count of every cell of its clipped 3x3 block, which keeps
        every count right. */
    method AddBomb(row: int, col: int)
      requires Dims() && InBounds(row, col) && !board[row, col].isBomb
      requires CountsCorrect()
      modifies board
      ensures Bombs() == old(Bombs()) + {(row, col)}
      ensures CountsCorrect()
      ensures forall i, j :: 0 <= i < GridSize && 0 <= j < GridSize ==>
        board[i, j].revealed == old(board[i, j].revealed) && board[i, j].flagged == old(board[i, j].flagged)
    {
      ghost var before := Bombs();
      board[row, col] := board[row, col].(isBomb := true);
      IncrementAround(row, col);
      assert Bombs() == before + {(row, col)};
      forall i, j | 0 <= i < GridSize && 0 <= j < GridSize
        ensures CountOk(i, j)
      {
        assert old(CountOk(i, j));
        assert board[i, j].adjacent == old(board[i, j].adjacent) + if (i, j) in Block(row, col) then 1 else 0;
        AroundNewBomb(before, row, col, i, j);
      }
    }

    /** No cell is revealed or flagged. */
    ghost predicate Blank()
      reads this`board, board
      requires Dims()
    {
      forall i, j :: 0 <= i < GridSize && 0 <= j < GridSize ==> !board[i, j].revealed && !board[i, j].flagged
    }

    /** A fresh board has no mine, so every count (all zero) is right, and
        nothing is revealed or flagged. */
    lemma FreshBoard()
      requires Dims() && Untouched()
      ensures Bombs() == {} && CountsCorrect() && Blank()
    {
      assert Bombs() == {};
    }

    /** A board with right counts, `BombCount` mines and nothing revealed
        or flagged is a valid game in progress. */
    lemma PlacedIsValid()
      requires Dims() && CountsCorrect() && Blank() && |Bombs()| == BombCount
      requires !firstClick && !gameOver && !victory && flagsPlaced == 0
      ensures Valid()
    {
      assert Flagged() == {};
    }

    /** One round of the sampling loop of `_place_bombs`: the draw `d`
        becomes a mine unless it lies in `zone` or already holds one. */
    method Draw(d: Pos, zone: set<Pos>) returns (placed: bool)
      requires Dims() && InBounds(d.0, d.1) && CountsCorrect() && Blank()
      modifies board
      ensures placed == (d !in zone && d !in old(Bombs()))
      ensures Bombs() == old(Bombs()) + (if d in zone then {} else {d})
      ensures |Bombs()| == |old(Bombs())| + (if placed then 1 else 0)
      ensures CountsCorrect() && Blank()
    {
      var (row, col) := d;
      placed := false;
      if d !in zone && !board[row, col].isBomb {
        AddBomb(row, col);
        placed := true;
      } else if d !in zone {
        assert d in old(Bombs());
      }
    }

    /** The sampling loop of `_place_bombs`: take draws in order until
        `BombCount` mines stand; `n` is the number of draws used. */
    method Sample(draws: seq<Pos>, zone: set<Pos>) returns (n: nat)
      requires Dims() && Bombs() == {} && CountsCorrect() && Blank()
      requires forall k :: 0 <= k < |draws| ==> InBounds(draws[k].0, draws[k].1)
      requires |Accepted(draws, zone)| >= BombCount
      modifies board
      ensures n <= |draws|
      ensures Bombs() == Accepted(draws[..n], zone)
      ensures |Bombs()| == BombCount
      ensures CountsCorrect() && Blank()
    {
      var bombsPlaced := 0;
      n := 0;
      while bombsPlaced < BombCount
        invariant n <= |draws|
        invariant Bombs() == Accepted(draws[..n], zone)
        invariant bombsPlaced == |Bombs()| <= BombCount
        invariant CountsCorrect() && Blank()
        decreases |draws| - n
      {
        DrawLeft(draws, zone, n);
        AcceptedStep(draws, zone, n);
        var placed := Draw(draws[n], zone);
        n := n + 1;
        if placed {
          bombsPlaced := bombsPlaced + 1;
        }
      }
    }

    /** `_place_bombs`: deferred mine placement. The random coordinates the
        source draws are the sequence `draws`; a draw inside the safe zone
        (the clipped 3x3 block of the first click) or on a mine is skipped.
        The sequence must hold at least `BombCount` distinct cells outside
        the safe zone, which is what makes the sampling loop end. */
    method PlaceBombs(firstRow: int, firstCol: int, draws: seq<Pos>)
      requires NewGame()
      requires forall k :: 0 <= k < |draws| ==> InBounds(draws[k].0, draws[k].1)
      requires |Accepted(draws, Block(firstRow, firstCol))| >= BombCount
      modifies this`firstClick, board
      ensures Valid() && !firstClick
      ensures |Bombs()| == BombCount
      ensures Bombs() * Block(firstRow, firstCol) == {}
      ensures Bombs() <= Accepted(draws, Block(firstRow, firstCol))
      ensures Blank()
    {
      var safeZone := Block(firstRow, firstCol);
      Populate(draws, safeZone);
      firstClick := false;
      PlacedIsValid();
    }

    /** The placement loop of `_place_bombs` on a fresh board, with the
        safe zone `zone`: `BombCount` mines, all drawn and none in the zone. */
    method Populate(draws: seq<Pos>, zone: set<Pos>)
      requires Dims() && Untouched()
      requires forall k :: 0 <= k < |draws| ==> InBounds(draws[k].0, draws[k].1)
      requires |Accepted(draws, zone)| >= BombCount
      modifies board
      ensures |Bombs()| == BombCount
      ensures Bombs() * zone == {}
      ensures Bombs() <= Accepted(draws, zone)
      ensures CountsCorrect() && Blank()
    {
      FreshBoard();
      var n := Sample(draws, zone);
      AcceptedPrefix(draws, zone, n);
      AcceptedOutside(draws, zone);
    }

    /** `reveal_all_bombs`: reveal every mine, leave every other cell as it is. */
    method RevealAllBombs()
      requires Dims()
      modifies board
      ensures forall i, j :: 0 <= i < GridSize && 0 <= j < GridSize ==>
        board[i, j] == old(board[i, j]).(revealed := old(board[i, j].revealed) || old(board[i, j].isBomb))
    {
      var row := 0;
      while row < GridSize
        invariant 0 <= row <= GridSize
        invariant forall i, j :: 0 <= i < GridSize && 0 <= j < GridSize ==>
          board[i, j] == if i < row && old(board[i, j].isBomb) then old(board[i, j]).(revealed := true) else old(board[i, j])
      {
        var col := 0;
        while col < GridSize
          invariant 0 <= col <= GridSize
          invariant forall i, j :: 0 <= i < GridSize && 0 <= j < GridSize ==>
            board[i, j] == if (i < row || (i == row && j < col)) && old(board[i, j].isBomb)
                           then old(board[i, j]).(revealed := true) else old(board[i, j])
        {
          if board[row, col].isBomb {
            board[row, col] := board[row, col].(revealed := true);
          }
          col := col + 1;
        }
        row := row + 1;
      }
    }

    /** The scan of `check_victory`: true exactly when every cell without a
        mine is revealed; it stops at the first hidden safe cell. */
    method AllSafeCellsRevealed() returns (allSafe: bool)
      requires Dims()
      ensures allSafe == AllSafe(Snap())
    {
      var row := 0;
      while row < GridSize
        invariant 0 <= row <= GridSize
        invariant forall i, j :: 0 <= i < row && 0 <= j < GridSize ==> board[i, j].isBomb || board[i, j].revealed
      {
        var col := 0;
        while col < GridSize
          invariant 0 <= col <= GridSize
          invariant forall i, j :: (0 <= i < row && 0 <= j < GridSize) || (i == row && 0 <= j < col) ==>
            board[i, j].isBomb || board[i, j].revealed
        {
          if !board[row, col].isBomb && !board[row, col].revealed {
            return false;
          }
          col := col + 1;
        }
        row := row + 1;
      }
      return true;
    }

    /** Declaring a board with every safe cell revealed won keeps the invariant. */
    twostate lemma WinKeepsValid()
      requires old(Valid()) && board == old(board) && unchanged(board)
      requires firstClick == old(firstClick) && flagsPlaced == old(flagsPlaced)
      requires gameOver && victory && AllSafe(Snap())
      ensures Valid()
    {
      // A fresh board still has a hidden safe cell, so it is not won.
      assert board[0, 0].isBomb || board[0, 0].revealed;
    }

    /** `check_victory`: end the game as won when every safe cell is
        revealed, and change nothing otherwise. */
    method CheckVictory()
      requires Valid()
      modifies this`gameOver, this`victory
      ensures Valid()
      ensures gameOver == (old(gameOver) || AllSafe(Snap()))
      ensures victory == (old(victory) || AllSafe(Snap()))
      ensures Snap() == old(Snap())
    {
      var allSafe := AllSafeCellsRevealed();
      if allSafe {
        gameOver := true;
        victory := true;
        WinKeepsValid();
      }
      SnapUnchanged();
    }

    /** The flood fill around `(row, col)`, a revealed cell with a zero
        count: `reveal_cell` on every other cell of its clipped 3x3 block,
        row by row. `bound` is the measure of the call that revealed
        `(row, col)`, which is more than the hidden cells left now. */
    method Spread(row: int, col: int, ghost bound: nat)
      requires Valid() && !firstClick
      requires InBounds(row, col) && board[row, col].revealed && Opens(board[row, col])
      requires |Hiddens(Snap())| < bound
      modifies this`gameOver, this`victory, board
      decreases bound, 2
      ensures Valid()
      ensures Grows(old(Snap()), Snap()) && SafeReveals(old(Snap()), Snap())
      ensures Spreads(old(Snap()), Snap()) && Connected(old(Snap()), Snap(), (row, col))
      ensures Settled(Snap(), row, col)
      ensures old(gameOver) ==> gameOver
      ensures old(victory) ==> victory
      ensures gameOver ==> old(gameOver) || AllSafe(Snap())
      ensures victory ==> old(victory) || AllSafe(Snap())
    {
      ghost var g0 := Snap();
      ConnectedStill(g0, (row, col));
      var r := Lo(row);
      while r < Hi(row)
        invariant Lo(row) <= r <= Hi(row)
        invariant Valid()
        invariant board[row, col].revealed && Opens(board[row, col])
        invariant |Hiddens(Snap())| < bound
        invariant Grows(g0, Snap()) && SafeReveals(g0, Snap())
        invariant Spreads(g0, Snap()) && Connected(g0, Snap(), (row, col))
        invariant BlockDone(Snap(), row, col, r)
        invariant old(gameOver) ==> gameOver
        invariant old(victory) ==> victory
        invariant gameOver ==> old(gameOver) || AllSafe(Snap())
        invariant victory ==> old(victory) || AllSafe(Snap())
      {
        ghost var before := Snap();
        SpreadRow(r, row, col, bound);
        ghost var after := Snap();
        Compose(g0, before, after, (row, col));
        BlockDoneStep(before, after, row, col, r);
        GrowsHides(before, after);
        AllSafeGrows(before, after);
        r := r + 1;
      }
      BlockDoneSettled(Snap(), row, col);
    }

    /** Row `r` of the flood fill around `(row, col)`: `reveal_cell` on
        each cell of the row inside the block, skipping `(row, col)` itself. */
    method SpreadRow(r: int, row: int, col: int, ghost bound: nat)
      requires Valid() && !firstClick
      requires InBounds(row, col) && board[row, col].revealed && Opens(board[row, col])
      requires Lo(row) <= r < Hi(row)
      requires |Hiddens(Snap())| < bound
      modifies this`gameOver, this`victory, board
      decreases bound, 1
      ensures Valid()
      ensures board[row, col].revealed && Opens(board[row, col])
      ensures |Hiddens(Snap())| < bound
      ensures Grows(old(Snap()), Snap()) && SafeReveals(old(Snap()), Snap())
      ensures Spreads(old(Snap()), Snap()) && Connected(old(Snap()), Snap(), (row, col))
      ensures RowDone(Snap(), r, Lo(col), Hi(col))
      ensures old(gameOver) ==> gameOver
      ensures old(victory) ==> victory
      ensures gameOver ==> old(gameOver) || AllSafe(Snap())
      ensures victory ==> old(victory) || AllSafe(Snap())
    {
      ghost var g0 := Snap();
      ConnectedStill(g0, (row, col));
      var c := Lo(col);
      while c < Hi(col)
        invariant Lo(col) <= c <= Hi(col)
        invariant Valid()
        invariant board[row, col].revealed && Opens(board[row, col])
        invariant |Hiddens(Snap())| < bound
        invariant Grows(g0, Snap()) && SafeReveals(g0, Snap())
        invariant Spreads(g0, Snap()) && Connected(g0, Snap(), (row, col))
        invariant RowDone(Snap(), r, Lo(col), c)
        invariant old(gameOver) ==> gameOver
        invariant old(victory) ==> victory
        invariant gameOver ==> old(gameOver) || AllSafe(Snap())
        invariant victory ==> old(victory) || AllSafe(Snap())
      {
        ghost var before := Snap();
        SpreadStep(r, c, row, col, bound);
        ghost var after := Snap();
        Compose(g0, before, after, (row, col));
        RowDoneStep(before, after, r, Lo(col), c);
        AllSafeGrows(before, after);
        c := c + 1;
      }
    }

    /** One cell `(r, c)` of the flood fill around `(row, col)`:
        `reveal_cell` on it unless it is `(row, col)` itself. */
    method SpreadStep(r: int, c: int, row: int, col: int, ghost bound: nat)
      requires Valid() && !firstClick
      requires InBounds(row, col) && board[row, col].revealed && Opens(board[row, col])
      requires (r, c) in Block(row, col)
      requires |Hiddens(Snap())| < bound
      modifies this`gameOver, this`victory, board
      decreases bound, 0
      ensures Valid()
      ensures board[row, col].revealed && Opens(board[row, col])
      ensures |Hiddens(Snap())| <= |Hiddens(old(Snap()))|
      ensures Shown(board[r, c])
      ensures Grows(old(Snap()), Snap()) && SafeReveals(old(Snap()), Snap())
      ensures Spreads(old(Snap()), Snap()) && Connected(old(Snap()), Snap(), (row, col))
      ensures old(gameOver) ==> gameOver
      ensures old(victory) ==> victory
      ensures gameOver ==> old(gameOver) || AllSafe(Snap())
      ensures victory ==> old(victory) || AllSafe(Snap())
    {
      if (r, c) != (row, col) {
        InBlock(row, col, r, c);
        // A zero count means no mine in the block, so the recursive call
        // is never the losing one.
        assert CountOk(row, col);
        ZeroMeansNoBombNear(Bombs(), row, col, r, c);
        ghost var before := Snap();
        RevealCell(r, c);
        ghost var after := Snap();
        assert Newly(before[r][c], after[r][c]) || before == after;
        Reseed(before, after, (r, c), (row, col));
        GrowsHides(before, after);
      } else {
        ConnectedStill(Snap(), (row, col));
      }
    }

    /** A change that moves no mine and no count keeps the mine set and
        every count right. */
    twostate lemma CountsKept()
      requires old(Dims()) && board == old(board)
      requires forall i, j :: 0 <= i < GridSize && 0 <= j < GridSize ==>
        board[i, j].isBomb == old(board[i, j].isBomb) && board[i, j].adjacent == old(board[i, j].adjacent)
      requires old(CountsCorrect())
      ensures Bombs() == old(Bombs())
      ensures CountsCorrect()
    {
      assert Bombs() == old(Bombs());
      forall i, j | 0 <= i < GridSize && 0 <= j < GridSize
        ensures CountOk(i, j)
      {
        assert old(CountOk(i, j));
      }
    }

    /** A change that moves no flag keeps the flag set. */
    twostate lemma FlagsKept()
      requires old(Dims()) && board == old(board)
      requires forall i, j :: 0 <= i < GridSize && 0 <= j < GridSize ==>
        board[i, j].flagged == old(board[i, j].flagged)
      ensures Flagged() == old(Flagged())
    {
      assert Flagged() == old(Flagged());
    }

    /** Whether `reveal_cell` acts on `(row, col)` at all: the cell is on the
        board, hidden and not flagged. */
    ghost predicate Revealable(row: int, col: int)
      reads this`board, board
      requires Dims()
    {
      InBounds(row, col) && !board[row, col].revealed && !board[row, col].flagged
    }

    /** The first step of `reveal_cell` on a hidden, unflagged cell
        without a mine: mark it revealed. Nothing bad is revealed, and a
        won or lost board stays so. */
    method RevealOne(row: int, col: int)
      requires Valid() && !firstClick
      requires Revealable(row, col) && !board[row, col].isBomb
      modifies board
      ensures Valid()
      ensures OnlyRevealed(old(Snap()), Snap(), (row, col))
    {
      board[row, col] := board[row, col].(revealed := true);
      CountsKept();
      FlagsKept();
    }

    /** The losing branch of `reveal_cell` on the hidden mine `(row, col)`:
        reveal it, end the game as lost and reveal every mine. */
    method Lose(row: int, col: int)
      requires Valid() && !firstClick
      requires Revealable(row, col) && board[row, col].isBomb
      modifies this`gameOver, this`victory, board
      ensures Valid()
      ensures Grows(old(Snap()), Snap())
      ensures gameOver && !victory
      ensures forall i, j :: 0 <= i < GridSize && 0 <= j < GridSize ==>
        board[i, j].revealed == (old(board[i, j].revealed) || board[i, j].isBomb)
    {
      board[row, col] := board[row, col].(revealed := true);
      gameOver := true;
      victory := false;
      RevealAllBombs();
      CountsKept();
      FlagsKept();
    }

    /** The safe branch of `reveal_cell` on the hidden, unflagged, mine-free
        cell `(row, col)`: reveal it, spread from it when its count is
        zero, then check for victory. */
    method Open(row: int, col: int)
      requires Valid() && !firstClick
      requires Revealable(row, col) && !board[row, col].isBomb
      modifies this`gameOver, this`victory, board
      decreases |Hiddens(Snap())|, 3
      ensures Valid()
      ensures board[row, col].revealed
      ensures Grows(old(Snap()), Snap()) && SafeReveals(old(Snap()), Snap())
      ensures Spreads(old(Snap()), Snap()) && Connected(old(Snap()), Snap(), (row, col))
      ensures gameOver == (old(gameOver) || AllSafe(Snap()))
      ensures victory == (old(victory) || AllSafe(Snap()))
    {
      ghost var g0 := Snap();
      RevealOne(row, col);
      ghost var g1 := Snap();
      RevealHides(g0, g1, (row, col));
      if board[row, col].adjacent == 0 {
        Spread(row, col, |Hiddens(g0)|);
      } else {
        ConnectedStill(g1, (row, col));
      }
      ghost var g2 := Snap();
      AfterTarget(g0, g1, g2, (row, col));
      CheckVictory();
    }

    /** `reveal_cell`: the recursive flood fill. On a cell that is off the
        board, revealed or flagged it does nothing. Otherwise it reveals the
        cell; a mine ends the game as lost and shows every mine; a cell with
        a zero count spreads to its neighbours; and a safe cell ends with
        the victory check. Recursion ends because every recursive call
        starts with fewer hidden cells than its caller. */
    method RevealCell(row: int, col: int)
      requires Valid() && !firstClick
      modifies this`gameOver, this`victory, board
      decreases |Hiddens(Snap())|, 4
      ensures Valid()
      // Only `revealed` changes, and only from false to true.
      ensures Grows(old(Snap()), Snap())
      ensures InBounds(row, col) ==> Shown(board[row, col])
      // Off the board, revealed or flagged: nothing happens.
      ensures !old(Revealable(row, col)) ==>
        unchanged(board) && gameOver == old(gameOver) && victory == old(victory)
      // A mine: lost, and exactly the mines are revealed in addition.
      ensures old(Revealable(row, col)) && old(board[row, col].isBomb) ==>
        gameOver && !victory &&
        forall i, j :: 0 <= i < GridSize && 0 <= j < GridSize ==>
          board[i, j].revealed == (old(board[i, j].revealed) || board[i, j].isBomb)
      // Anything but a mine: no mine or flag is revealed, every newly
      // revealed zero cell has its whole block shown, and every other newly
      // revealed cell is reached from the target through newly revealed
      // zero cells.
      ensures !(old(Revealable(row, col)) && old(board[row, col].isBomb)) ==>
        SafeReveals(old(Snap()), Snap()) && Spreads(old(Snap()), Snap()) &&
        Connected(old(Snap()), Snap(), (row, col))
      // A safe cell: the game is won exactly when no safe cell is hidden.
      ensures old(Revealable(row, col)) && !old(board[row, col].isBomb) ==>
        gameOver == (old(gameOver) || AllSafe(Snap())) && victory == (old(victory) || AllSafe(Snap()))
    {
      if !(0 <= row < GridSize && 0 <= col < GridSize) {
        ConnectedStill(Snap(), (row, col));
        return;
      }
      if board[row, col].revealed || board[row, col].flagged {
        ConnectedStill(Snap(), (row, col));
        return;
      }
      if board[row, col].isBomb {
        Lose(row, col);
      } else {
        Open(row, col);
      }
    }

    /** The right-click branch of `handle_click` on the hidden cell
        `(row, col)`: toggle its flag, capped at `BombCount` flags. */
    method ToggleFlag(row: int, col: int)
      requires Valid() && !firstClick && !gameOver
      requires InBounds(row, col) && !board[row, col].revealed
      modifies this`flagsPlaced, board
      ensures Valid()
      ensures Bombs() == old(Bombs())
      ensures var r := RightClick(false, old(board[row, col].flagged), old(flagsPlaced));
        board[row, col] == old(board[row, col]).(flagged := r.0) && flagsPlaced == r.1
      ensures forall i, j :: 0 <= i < GridSize && 0 <= j < GridSize && (i, j) != (row, col) ==>
        board[i, j] == old(board[i, j])
    {
      if board[row, col].flagged {
        MoveFlag(row, col, false);
      } else if flagsPlaced < BombCount {
        MoveFlag(row, col, true);
      }
    }

    /** Plant (`f`) or remove (`!f`) the flag of the hidden cell
        `(row, col)`, and count it. */
    method MoveFlag(row: int, col: int, f: bool)
      requires Valid() && !firstClick && !gameOver
      requires InBounds(row, col) && !board[row, col].revealed
      requires board[row, col].flagged == !f
      requires f ==> flagsPlaced < BombCount
      modifies this`flagsPlaced, board
      ensures Valid()
      ensures Bombs() == old(Bombs())
      ensures board[row, col] == old(board[row, col]).(flagged := f)
      ensures flagsPlaced == old(flagsPlaced) + (if f then 1 else -1)
      ensures forall i, j :: 0 <= i < GridSize && 0 <= j < GridSize && (i, j) != (row, col) ==>
        board[i, j] == old(board[i, j])
    {
      ghost var before := Flagged();
      assert (row, col) in before <==> !f;
      board[row, col] := board[row, col].(flagged := f);
      flagsPlaced := flagsPlaced + (if f then 1 else -1);
      OnlyFlagsMoved();
      FlagCount(before, row, col);
      InPlayIsValid();
    }

    /** The invariant of a game in play, from its parts. */
    lemma InPlayIsValid()
      requires Dims() && CountsCorrect() && NothingBadRevealed()
      requires flagsPlaced == |Flagged()| <= BombCount
      requires !firstClick && |Bombs()| == BombCount && !gameOver && !victory
      ensures Valid()
    {
    }

    /** Moving flags on hidden cells only keeps the counts right and no
        mine or flag revealed. */
    twostate lemma OnlyFlagsMoved()
      requires old(Dims()) && board == old(board)
      requires old(CountsCorrect()) && old(NothingBadRevealed())
      requires forall i, j :: 0 <= i < GridSize && 0 <= j < GridSize ==>
        board[i, j] == old(board[i, j]).(flagged := board[i, j].flagged) &&
        (board[i, j].flagged != old(board[i, j].flagged) ==> !board[i, j].revealed)
      ensures CountsCorrect() && NothingBadRevealed() && Bombs() == old(Bombs())
    {
      CountsKept();
    }

    /** The flag set differs from `before` at most in `(row, col)`, so its
        size moves by one at most. */
    lemma FlagCount(before: set<Pos>, row: int, col: int)
      requires Dims() && InBounds(row, col)
      requires forall p :: p in before ==> InBounds(p.0, p.1)
      requires forall i, j :: 0 <= i < GridSize && 0 <= j < GridSize && (i, j) != (row, col) ==>
        (board[i, j].flagged <==> (i, j) in before)
      ensures Flagged() == if board[row, col].flagged then before + {(row, col)} else before - {(row, col)}
      ensures |Flagged()| == |before| + (if board[row, col].flagged && (row, col) !in before then 1 else 0)
                                      - (if !board[row, col].flagged && (row, col) in before then 1 else 0)
    {
      var f := board[row, col].flagged;
      assert Flagged() == if f then before + {(row, col)} else before - {(row, col)};
      CardToggle(before, (row, col), f);
    }

    /** `handle_click` once the click is known to land on the board cell
        `(row, col)` of a game in progress whose mines are placed. */
    method ClickCell(row: int, col: int, isRightClick: bool)
      requires Valid() && !firstClick && !gameOver && InBounds(row, col)
      modifies this`flagsPlaced, this`gameOver, this`victory, board
      ensures Valid()
      // No click moves a mine or a count.
      ensures Bombs() == old(Bombs())
      ensures board[row, col].isBomb == old(board[row, col].isBomb)
      ensures board[row, col].adjacent == old(board[row, col].adjacent)
      // Right click: the flag rule on this cell, nothing else changes.
      ensures isRightClick ==>
        var r := RightClick(old(board[row, col].revealed), old(board[row, col].flagged), old(flagsPlaced));
        board[row, col] == old(board[row, col]).(flagged := r.0) && flagsPlaced == r.1 && !gameOver &&
        forall i, j :: 0 <= i < GridSize && 0 <= j < GridSize && (i, j) != (row, col) ==>
          board[i, j] == old(board[i, j])
      // Left click: no flag moves, and cells are only revealed.
      ensures !isRightClick ==> flagsPlaced == old(flagsPlaced) && Grows(old(Snap()), Snap())
      // Left click on a flagged or revealed cell: nothing happens.
      ensures !isRightClick && !old(Revealable(row, col)) ==> unchanged(board) && !gameOver
      // Left click on a hidden unflagged cell: it is revealed and the game is
      // lost exactly when it holds a mine. On a mine exactly the mines are
      // revealed in addition; otherwise the flood fill properties hold and
      // the game is won exactly when no safe cell is hidden.
      ensures !isRightClick && old(Revealable(row, col)) ==>
        board[row, col].revealed && (gameOver && !victory <==> board[row, col].isBomb) &&
        (board[row, col].isBomb ==>
          forall i, j :: 0 <= i < GridSize && 0 <= j < GridSize ==>
            board[i, j].revealed == (old(board[i, j].revealed) || board[i, j].isBomb)) &&
        (!board[row, col].isBomb ==>
          SafeReveals(old(Snap()), Snap()) && Spreads(old(Snap()), Snap()) &&
          Connected(old(Snap()), Snap(), (row, col)) && victory == gameOver && (gameOver <==> AllSafe(Snap())))
    {
      if isRightClick && !board[row, col].revealed {
        ToggleFlag(row, col);
        return;
      }
      if !isRightClick && board[row, col].flagged {
        return;
      }
      if !board[row, col].revealed && !isRightClick {
        RevealCell(row, col);
        BombsKept();
      }
    }

    /** Revealing cells moves no mine. */
    twostate lemma BombsKept()
      requires old(Dims()) && board == old(board)
      requires Grows(old(Snap()), Snap())
      ensures Bombs() == old(Bombs())
    {
      assert Bombs() == old(Bombs());
    }

    /** The first click of a game on `(row, col)`: place the mines. No
        cell is revealed or flagged before or after, and the clicked cell
        ends with a zero count. */
    method FirstClick(row: int, col: int, draws: seq<Pos>)
      requires Valid() && firstClick && InBounds(row, col)
      requires forall k :: 0 <= k < |draws| ==> InBounds(draws[k].0, draws[k].1)
      requires |Accepted(draws, Block(row, col))| >= BombCount
      modifies this`firstClick, board
      ensures Valid() && !firstClick && !gameOver
      ensures Bombs() * Block(row, col) == {} && |Bombs()| == BombCount && Bombs() <= Accepted(draws, Block(row, col))
      ensures Opens(board[row, col])
      ensures forall i, j :: 0 <= i < GridSize && 0 <= j < GridSize ==>
        !board[i, j].revealed && !board[i, j].flagged && !old(board[i, j].revealed) && !old(board[i, j].flagged)
    {
      assert Flagged() == {};
      PlaceBombs(row, col, draws);
      assert CountOk(row, col);
      BlockBounds(row, col);
      assert (row, col) !in Bombs() * Block(row, col);
      assert !board[row, col].isBomb;
    }

    /** `handle_click` on the board cell `(row, col)` of a game in progress:
        on the first click, left or right, place the mines around it first
        (from `draws`, as `PlaceBombs` says); then `ClickCell`, whose
        contract describes the rest. */
    method ClickBoard(row: int, col: int, isRightClick: bool, draws: seq<Pos>)
      requires Valid() && !gameOver && InBounds(row, col)
      requires forall k :: 0 <= k < |draws| ==> InBounds(draws[k].0, draws[k].1)
      requires firstClick ==> |Accepted(draws, Block(row, col))| >= BombCount
      modifies this`firstClick, this`flagsPlaced, this`gameOver, this`victory, board
      ensures Valid() && !firstClick
      // The first click places the mines away from the clicked block.
      ensures old(firstClick) ==>
        Bombs() * Block(row, col) == {} && |Bombs()| == BombCount && Bombs() <= Accepted(draws, Block(row, col))
      // A first left click opens a zero cell and never loses.
      ensures old(firstClick) && !isRightClick ==>
        board[row, col].revealed && Opens(board[row, col]) && !(gameOver && !victory)
      // A first right click plants the first flag and reveals nothing.
      ensures old(firstClick) && isRightClick ==>
        board[row, col].flagged && flagsPlaced == 1 && !gameOver &&
        forall i, j :: 0 <= i < GridSize && 0 <= j < GridSize ==> !board[i, j].revealed
    {
      if firstClick {
        FirstClick(row, col, draws);
      }
      ClickCell(row, col, isRightClick);
    }

    /** `handle_click`: a click at pixel `(x, y)`. Outside the grid or once
        the game is over it does nothing; otherwise it acts on the cell
        under the pixel, as `ClickBoard` says. */
    method HandleClick(x: int, y: int, isRightClick: bool, draws: seq<Pos>)
      requires Valid()
      requires forall k :: 0 <= k < |draws| ==> InBounds(draws[k].0, draws[k].1)
      requires firstClick && InGrid(x, y) ==> |Accepted(draws, Block(CellOf(x, y).0, CellOf(x, y).1))| >= BombCount
      modifies this`firstClick, this`flagsPlaced, this`gameOver, this`victory, board
      ensures Valid()
      ensures !InGrid(x, y) || old(gameOver) ==>
        unchanged(board) && firstClick == old(firstClick) && flagsPlaced == old(flagsPlaced) &&
        gameOver == old(gameOver) && victory == old(victory)
      ensures InGrid(x, y) && !old(gameOver) ==> !firstClick
      // The first click on the grid places the mines away from the block under it.
      ensures InGrid(x, y) && !old(gameOver) && old(firstClick) ==>
        |Bombs()| == BombCount && Bombs() * Block(CellOf(x, y).0, CellOf(x, y).1) == {}
      // A first left click on the grid opens the cell under it and never loses.
      ensures InGrid(x, y) && !old(gameOver) && old(firstClick) && !isRightClick ==>
        board[CellOf(x, y).0, CellOf(x, y).1].revealed && Opens(board[CellOf(x, y).0, CellOf(x, y).1]) &&
        !(gameOver && !victory)
    {
      if !InGrid(x, y) || gameOver {
        return;
      }
      var (row, col) := CellOf(x, y);
      if 0 <= row < GridSize && 0 <= col < GridSize {
        ClickBoard(row, col, isRightClick, draws);
      }
    }
  }
}
