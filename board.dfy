/** The board of the game as values: the cell record, grid coordinates, the
    clipped 3x3 block that both mine placement and the flood fill walk over,
    and the counting facts the game's invariants rest on. */
module Board {

  /** Side of the square grid. */
  const GridSize: int := 15
  /** Number of mines placed on the first click. */
  const BombCount: int := 40

  /** A (row, column) coordinate. */
  type Pos = (int, int)

  /** One cell of the board, as the python dictionary holds it. `adjacent` is
      the number of mines in the clipped 3x3 block centred on the cell,
      the cell itself included. */
  datatype Cell = Cell(isBomb: bool, revealed: bool, flagged: bool, adjacent: int)

  /** The cell a fresh board is filled with. */
  const Fresh: Cell := Cell(false, false, false, 0)

  predicate InBounds(r: int, c: int) {
    0 <= r < GridSize && 0 <= c < GridSize
  }

  /** `max(0, v - 1)`, the first index of the clipped range around `v`. */
  function Lo(v: int): int { if v - 1 > 0 then v - 1 else 0 }

  /** `min(GridSize, v + 2)`, one past the last index of the clipped range around `v`. */
  function Hi(v: int): int { if v + 2 < GridSize then v + 2 else GridSize }

  /** The cells `(i, j)` with `i` in `range(Lo(r), Hi(r))` and `j` in
      `range(Lo(c), Hi(c))`: the 3x3 block centred on `(r, c)`, clipped to
      the board. It is the safe zone of a first click and the set of cells a
      mine raises the count of. */
  function Block(r: int, c: int): set<Pos> {
    set i, j | Lo(r) <= i < Hi(r) && Lo(c) <= j < Hi(c) :: (i, j)
  }

  /** A block is exactly the in-bounds cells at Chebyshev distance at most 1. */
  lemma InBlock(r: int, c: int, i: int, j: int)
    ensures (i, j) in Block(r, c) <==>
            InBounds(i, j) && r - 1 <= i <= r + 1 && c - 1 <= j <= c + 1
  {
  }

  /** Being in each other's block is symmetric for cells on the board. */
  lemma BlockSymmetric(r: int, c: int, i: int, j: int)
    requires InBounds(r, c) && InBounds(i, j)
    ensures (i, j) in Block(r, c) <==> (r, c) in Block(i, j)
  {
    InBlock(r, c, i, j);
    InBlock(i, j, r, c);
  }

  lemma SubsetCard<T>(a: set<T>, b: set<T>)
    requires a <= b
    ensures |a| <= |b|
  {
    assert b == a + (b - a);
  }

  /** Adding or removing one element changes the size by at most one. */
  lemma CardToggle<T>(s: set<T>, x: T, f: bool)
    ensures |if f then s + {x} else s - {x}| == |s| + (if f && x !in s then 1 else 0) - (if !f && x in s then 1 else 0)
  {
  }

  /** An in-bounds cell lies in its own block, and a block has at most nine cells. */
  lemma BlockBounds(r: int, c: int)
    requires InBounds(r, c)
    ensures (r, c) in Block(r, c)
    ensures |Block(r, c)| <= 9
  {
    var nine := {(r - 1, c - 1), (r - 1, c), (r - 1, c + 1),
                 (r, c - 1), (r, c), (r, c + 1),
                 (r + 1, c - 1), (r + 1, c), (r + 1, c + 1)};
    forall p | p in Block(r, c) ensures p in nine {
      InBlock(r, c, p.0, p.1);
    }
    SubsetCard(Block(r, c), nine);
  }

  /** The number of mines of `bombs` in the block of `(r, c)`: what the
      cell's `adjacent` field holds once placement is done. */
  function BombsAround(bombs: set<Pos>, r: int, c: int): nat {
    |bombs * Block(r, c)|
  }

  /** A mine counts itself, so its own count is between 1 and 9; any
      other cell's count is between 0 and 8. */
  lemma AdjacentRange(bombs: set<Pos>, r: int, c: int)
    requires InBounds(r, c)
    ensures (r, c) in bombs ==> 1 <= BombsAround(bombs, r, c) <= 9
    ensures (r, c) !in bombs ==> BombsAround(bombs, r, c) <= 8
  {
    BlockBounds(r, c);
    SubsetCard(bombs * Block(r, c), Block(r, c));
    if (r, c) in bombs {
      assert (r, c) in bombs * Block(r, c);
    } else {
      SubsetCard(bombs * Block(r, c), Block(r, c) - {(r, c)});
    }
  }

  /** A cell with no mine and a zero count has no mine anywhere in its block. */
  lemma ZeroMeansNoBombNear(bombs: set<Pos>, r: int, c: int, i: int, j: int)
    requires BombsAround(bombs, r, c) == 0
    requires (i, j) in Block(r, c)
    ensures (i, j) !in bombs
  {
    assert (i, j) in bombs ==> (i, j) in bombs * Block(r, c);
  }

  /** Adding one new mine `b` raises the count of a block by one exactly
      when `b` lies in that block. */
  lemma CountWithNewBomb(bombs: set<Pos>, b: Pos, zone: set<Pos>)
    requires b !in bombs
    ensures |(bombs + {b}) * zone| == |bombs * zone| + (if b in zone then 1 else 0)
  {
    if b in zone {
      assert (bombs + {b}) * zone == bombs * zone + {b};
    } else {
      assert (bombs + {b}) * zone == bombs * zone;
    }
  }

  /** A new mine at `(r, c)` raises the count of `(i, j)` by one exactly
      when `(i, j)` lies in the block of `(r, c)`. */
  lemma AroundNewBomb(bombs: set<Pos>, r: int, c: int, i: int, j: int)
    requires InBounds(r, c) && InBounds(i, j) && (r, c) !in bombs
    ensures BombsAround(bombs + {(r, c)}, i, j) ==
            BombsAround(bombs, i, j) + if (i, j) in Block(r, c) then 1 else 0
  {
    BlockSymmetric(r, c, i, j);
    CountWithNewBomb(bombs, (r, c), Block(i, j));
  }

  /** The distinct coordinates among `draws` that lie outside `zone`: the
      cells the draws would accept. The sampling loop stops at `BombCount`
      mines, so it turns only the cells some prefix of `draws` accepts
      into mines. */
  function Accepted(draws: seq<Pos>, zone: set<Pos>): (cells: set<Pos>)
  {
    if draws == [] then {}
    else
      var last := draws[|draws| - 1];
      Accepted(draws[..|draws| - 1], zone) + (if last in zone then {} else {last})
  }

  /** Every accepted cell is one of the draws and lies outside the zone. */
  lemma {:induction false} AcceptedOutside(draws: seq<Pos>, zone: set<Pos>)
    ensures Accepted(draws, zone) * zone == {}
    ensures forall p :: p in Accepted(draws, zone) ==> p in draws
    decreases |draws|
  {
    if draws != [] {
      var front := draws[..|draws| - 1];
      AcceptedOutside(front, zone);
      assert forall p :: p in front ==> p in draws;
    }
  }

  /** A prefix of the draws accepts no cell the whole sequence does not. */
  lemma {:induction false} AcceptedPrefix(draws: seq<Pos>, zone: set<Pos>, n: nat)
    requires n <= |draws|
    ensures Accepted(draws[..n], zone) <= Accepted(draws, zone)
    decreases |draws|
  {
    if n == |draws| {
      assert draws[..n] == draws;
    } else {
      var front := draws[..|draws| - 1];
      AcceptedPrefix(front, zone, n);
      assert front[..n] == draws[..n];
    }
  }

  /** While a prefix accepts fewer cells than the whole sequence, draws
      remain: the sampling loop never runs out of draws early. */
  lemma DrawLeft(draws: seq<Pos>, zone: set<Pos>, n: nat)
    requires n <= |draws|
    requires |Accepted(draws[..n], zone)| < |Accepted(draws, zone)|
    ensures n < |draws|
  {
    assert draws[..|draws|] == draws;
  }

  /** One more draw adds that draw to the accepted cells, unless it lies in the zone. */
  lemma AcceptedStep(draws: seq<Pos>, zone: set<Pos>, n: nat)
    requires n < |draws|
    ensures Accepted(draws[..n + 1], zone) ==
            Accepted(draws[..n], zone) + (if draws[n] in zone then {} else {draws[n]})
  {
    assert draws[..n + 1][..n] == draws[..n];
  }
}
