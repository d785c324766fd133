/** Snapshots of the board as values, and the relations between the board
    before and after a reveal that the flood fill of `reveal_cell` keeps.
    Every relation is stated on a pair of snapshots, so chaining one
    recursive call after another is a matter of the pure lemmas below. */
module Flood {
  import opened Board

  /** The board as rows of cells: `g[i][j]` is the cell at row `i`, column `j`. */
  type Grid = seq<seq<Cell>>

  predicate IsGrid(g: Grid) {
    |g| == GridSize && forall i :: 0 <= i < GridSize ==> |g[i]| == GridSize
  }

  /** How a cell may change while cells are revealed: only `revealed`
      changes, and only from false to true. */
  predicate Evolves(before: Cell, after: Cell) {
    after.isBomb == before.isBomb && after.flagged == before.flagged &&
    after.adjacent == before.adjacent && (before.revealed ==> after.revealed)
  }

  /** The cell was hidden before and is revealed after. */
  predicate Newly(before: Cell, after: Cell) {
    !before.revealed && after.revealed
  }

  /** A cell the flood fill spreads from: no mine, and a zero count. */
  predicate Opens(c: Cell) {
    !c.isBomb && c.adjacent == 0
  }

  /** A cell the flood fill has nothing left to do with: revealed or flagged. */
  predicate Shown(c: Cell) {
    c.revealed || c.flagged
  }

  /** Every cell of `h` evolved from the same cell of `g`. */
  predicate Grows(g: Grid, h: Grid)
    requires IsGrid(g) && IsGrid(h)
  {
    forall i, j :: 0 <= i < GridSize && 0 <= j < GridSize ==> Evolves(g[i][j], h[i][j])
  }

  /** `h` is `g` with the cell `t` revealed and nothing else changed. */
  predicate OnlyRevealed(g: Grid, h: Grid, t: Pos)
    requires IsGrid(g) && IsGrid(h)
  {
    forall i, j :: 0 <= i < GridSize && 0 <= j < GridSize ==>
      h[i][j] == if (i, j) == t then g[i][j].(revealed := true) else g[i][j]
  }

  /** No cell revealed between `g` and `h` holds a mine or a flag. */
  predicate SafeReveals(g: Grid, h: Grid)
    requires IsGrid(g) && IsGrid(h)
  {
    forall i, j :: 0 <= i < GridSize && 0 <= j < GridSize && Newly(g[i][j], h[i][j]) ==>
      !h[i][j].isBomb && !h[i][j].flagged
  }

  /** Every cell of the clipped 3x3 block of `(i, j)` is shown in `h`. */
  predicate Settled(h: Grid, i: int, j: int)
    requires IsGrid(h)
  {
    forall k, l :: 0 <= k < GridSize && 0 <= l < GridSize && (k, l) in Block(i, j) ==> Shown(h[k][l])
  }

  /** Closure of the flood fill: every zero cell revealed between `g` and
      `h` has its whole block shown in `h`. */
  predicate Spreads(g: Grid, h: Grid)
    requires IsGrid(g) && IsGrid(h)
  {
    forall i, j :: 0 <= i < GridSize && 0 <= j < GridSize && Newly(g[i][j], h[i][j]) && Opens(h[i][j]) ==>
      Settled(h, i, j)
  }

  /** The zero cell `p` passes the flood fill on to its neighbour `q`. */
  predicate Feeds(h: Grid, p: Pos, q: Pos)
    requires IsGrid(h)
  {
    InBounds(p.0, p.1) && q in Block(p.0, p.1) && q != p && Opens(h[p.0][p.1])
  }

  /** The entries of `o` are cells revealed between `g` and `h`, none of them `t`. */
  predicate Listed(g: Grid, h: Grid, t: Pos, o: seq<Pos>)
    requires IsGrid(g) && IsGrid(h)
  {
    forall m :: 0 <= m < |o| ==>
      InBounds(o[m].0, o[m].1) && o[m] != t && Newly(g[o[m].0][o[m].1], h[o[m].0][o[m].1])
  }

  /** Every cell revealed between `g` and `h`, other than `t`, is an entry of `o`. */
  predicate Covers(g: Grid, h: Grid, t: Pos, o: seq<Pos>)
    requires IsGrid(g) && IsGrid(h)
  {
    forall i, j :: 0 <= i < GridSize && 0 <= j < GridSize && Newly(g[i][j], h[i][j]) && (i, j) != t ==>
      (i, j) in o
  }

  /** Entry `m` of `o` is fed by `t` or by an earlier entry. */
  predicate FedAt(h: Grid, t: Pos, o: seq<Pos>, m: int)
    requires IsGrid(h) && 0 <= m < |o|
  {
    Feeds(h, t, o[m]) || exists n :: 0 <= n < m && Feeds(h, o[n], o[m])
  }

  /** Every entry of `o` is fed by `t` or by an earlier entry. */
  predicate InOrder(h: Grid, t: Pos, o: seq<Pos>)
    requires IsGrid(h)
  {
    forall m :: 0 <= m < |o| ==> FedAt(h, t, o, m)
  }

  /** A reveal order for the flood fill from the seed `t`: `o` lists exactly
      the cells revealed between `g` and `h` other than `t`, each after a
      zero cell that feeds it. */
  predicate Chain(g: Grid, h: Grid, t: Pos, o: seq<Pos>)
    requires IsGrid(g) && IsGrid(h)
  {
    Listed(g, h, t, o) && Covers(g, h, t, o) && InOrder(h, t, o)
  }

  /** No leap: every cell revealed between `g` and `h`, other than the seed
      `t`, is reached from `t` by a path of newly revealed zero cells. */
  ghost predicate Connected(g: Grid, h: Grid, t: Pos)
    requires IsGrid(g) && IsGrid(h)
  {
    exists o :: Chain(g, h, t, o)
  }

  /** A path of the flood fill: each cell feeds the next. */
  predicate FeedPath(h: Grid, p: seq<Pos>)
    requires IsGrid(h)
  {
    |p| >= 1 && forall k :: 0 <= k < |p| - 1 ==> Feeds(h, p[k], p[k + 1])
  }

  /** The cells of `p` after its first are revealed between `g` and `h`. */
  predicate NewAfterFirst(g: Grid, h: Grid, p: seq<Pos>)
    requires IsGrid(g) && IsGrid(h)
  {
    forall k :: 0 < k < |p| ==> InBounds(p[k].0, p[k].1) && Newly(g[p[k].0][p[k].1], h[p[k].0][p[k].1])
  }

  /** Entry `m` of a reveal order is the end of a path of the flood fill
      from the seed whose cells after the seed are all newly revealed. */
  lemma {:induction false} EntryReached(g: Grid, h: Grid, t: Pos, o: seq<Pos>, m: int)
    requires IsGrid(g) && IsGrid(h) && Listed(g, h, t, o) && InOrder(h, t, o) && 0 <= m < |o|
    ensures exists p :: FeedPath(h, p) && p[0] == t && p[|p| - 1] == o[m] && NewAfterFirst(g, h, p)
    decreases m
  {
    assert FedAt(h, t, o, m);
    if Feeds(h, t, o[m]) {
      var p := [t, o[m]];
      assert FeedPath(h, p) && NewAfterFirst(g, h, p);
    } else {
      var n :| 0 <= n < m && Feeds(h, o[n], o[m]);
      EntryReached(g, h, t, o, n);
      var p: seq<Pos> :| FeedPath(h, p) && p[0] == t && p[|p| - 1] == o[n] && NewAfterFirst(g, h, p);
      var p' := p + [o[m]];
      assert FeedPath(h, p') by {
        forall k | 0 <= k < |p'| - 1 ensures Feeds(h, p'[k], p'[k + 1]) {
          if k < |p| - 1 {
            assert p'[k] == p[k] && p'[k + 1] == p[k + 1];
          }
        }
      }
      assert NewAfterFirst(g, h, p') by {
        forall k | 0 < k < |p'| ensures InBounds(p'[k].0, p'[k].1) && Newly(g[p'[k].0][p'[k].1], h[p'[k].0][p'[k].1]) {
          if k < |p| {
            assert p'[k] == p[k];
          }
        }
      }
    }
  }

  /** What `Connected` promises: every cell revealed between `g` and `h`,
      other than the seed `t`, is reached from `t` by a path of zero cells,
      each feeding the next, whose cells after `t` were all revealed
      between `g` and `h`. */
  lemma ConnectedReaches(g: Grid, h: Grid, t: Pos, i: int, j: int)
    requires IsGrid(g) && IsGrid(h) && Connected(g, h, t)
    requires InBounds(i, j) && Newly(g[i][j], h[i][j]) && (i, j) != t
    ensures exists p :: FeedPath(h, p) && p[0] == t && p[|p| - 1] == (i, j) && NewAfterFirst(g, h, p)
  {
    var o: seq<Pos> :| Chain(g, h, t, o);
    var m :| 0 <= m < |o| && o[m] == (i, j);
    EntryReached(g, h, t, o, m);
  }

  /** A path of the flood fill that starts above row `r` stays above it
      when no cell of row `r` is newly revealed: each step moves at most
      one row. */
  lemma {:induction false} PathAboveRow(g: Grid, h: Grid, p: seq<Pos>, r: int, k: int)
    requires IsGrid(g) && IsGrid(h) && FeedPath(h, p) && NewAfterFirst(g, h, p)
    requires 0 <= r < GridSize && p[0].0 < r
    requires forall l :: 0 <= l < GridSize ==> !Newly(g[r][l], h[r][l])
    requires 0 <= k < |p|
    ensures p[k].0 < r
    decreases k
  {
    if k > 0 {
      PathAboveRow(g, h, p, r, k - 1);
      assert Feeds(h, p[k - 1], p[k]);
      InBlock(p[k - 1].0, p[k - 1].1, p[k].0, p[k].1);
    }
  }

  /** A row with no newly revealed cell below the seed stops the fill: no
      cell beyond it is revealed. */
  lemma RowBarrier(g: Grid, h: Grid, t: Pos, r: int, i: int, j: int)
    requires IsGrid(g) && IsGrid(h) && Connected(g, h, t)
    requires 0 <= r < GridSize && t.0 < r
    requires forall l :: 0 <= l < GridSize ==> !Newly(g[r][l], h[r][l])
    requires InBounds(i, j) && Newly(g[i][j], h[i][j])
    ensures i < r
  {
    if (i, j) != t {
      ConnectedReaches(g, h, t, i, j);
      var p: seq<Pos> :| FeedPath(h, p) && p[0] == t && p[|p| - 1] == (i, j) && NewAfterFirst(g, h, p);
      PathAboveRow(g, h, p, r, |p| - 1);
    }
  }

  /** The win condition on a snapshot: every cell without a mine is revealed. */
  predicate AllSafe(g: Grid)
    requires IsGrid(g)
  {
    forall i, j :: 0 <= i < GridSize && 0 <= j < GridSize ==> g[i][j].isBomb || g[i][j].revealed
  }

  /** The hidden cells of a snapshot. */
  function Hiddens(g: Grid): set<Pos>
    requires IsGrid(g)
  {
    set i, j | 0 <= i < GridSize && 0 <= j < GridSize && !g[i][j].revealed :: (i, j)
  }

  /** The cells of row `r` from column `lo` up to, not including, `hi` are shown. */
  predicate RowDone(g: Grid, r: int, lo: int, hi: int)
    requires IsGrid(g) && 0 <= r < GridSize && 0 <= lo && hi <= GridSize
  {
    forall l :: lo <= l < hi ==> Shown(g[r][l])
  }

  /** The rows of the block of `(row, col)` above row `rhi` are shown. */
  predicate BlockDone(g: Grid, row: int, col: int, rhi: int)
    requires IsGrid(g) && rhi <= GridSize
  {
    forall k :: Lo(row) <= k < rhi ==> RowDone(g, k, Lo(col), Hi(col))
  }

  /** Revealing keeps a won board won. */
  lemma AllSafeGrows(g: Grid, h: Grid)
    requires IsGrid(g) && IsGrid(h) && Grows(g, h)
    ensures AllSafe(g) ==> AllSafe(h)
  {
    if AllSafe(g) {
      forall i, j | 0 <= i < GridSize && 0 <= j < GridSize
        ensures h[i][j].isBomb || h[i][j].revealed
      {
        assert Evolves(g[i][j], h[i][j]);
      }
    }
  }

  /** Revealing never hides a cell again, so the hidden cells only shrink. */
  lemma GrowsHides(g: Grid, h: Grid)
    requires IsGrid(g) && IsGrid(h) && Grows(g, h)
    ensures Hiddens(h) <= Hiddens(g)
    ensures |Hiddens(h)| <= |Hiddens(g)|
  {
    forall p | p in Hiddens(h) ensures p in Hiddens(g) {
      assert Evolves(g[p.0][p.1], h[p.0][p.1]);
    }
    SubsetCard(Hiddens(h), Hiddens(g));
  }

  /** Revealing one hidden cell takes exactly that cell off the hidden ones. */
  lemma RevealHides(g: Grid, h: Grid, t: Pos)
    requires IsGrid(g) && IsGrid(h) && InBounds(t.0, t.1) && !g[t.0][t.1].revealed
    requires OnlyRevealed(g, h, t)
    ensures Hiddens(h) == Hiddens(g) - {t}
    ensures |Hiddens(h)| < |Hiddens(g)|
  {
    assert Hiddens(h) == Hiddens(g) - {t};
    assert t in Hiddens(g);
  }

  /** Two reveals one after the other: each relation between the first
      and the middle snapshot and between the middle and the last one
      holds between the first and the last. */
  lemma Compose(a: Grid, b: Grid, c: Grid, t: Pos)
    requires IsGrid(a) && IsGrid(b) && IsGrid(c)
    requires Grows(a, b) && Grows(b, c)
    requires SafeReveals(a, b) && SafeReveals(b, c)
    requires Spreads(a, b) && Spreads(b, c)
    requires Connected(a, b, t) && Connected(b, c, t)
    ensures Grows(a, c) && SafeReveals(a, c) && Spreads(a, c) && Connected(a, c, t)
  {
    forall i, j | 0 <= i < GridSize && 0 <= j < GridSize
      ensures Evolves(a[i][j], c[i][j])
    {
      assert Evolves(a[i][j], b[i][j]) && Evolves(b[i][j], c[i][j]);
    }
    forall i, j | 0 <= i < GridSize && 0 <= j < GridSize && Newly(a[i][j], c[i][j]) && Opens(c[i][j])
      ensures Settled(c, i, j)
    {
      if Newly(a[i][j], b[i][j]) {
        assert Evolves(b[i][j], c[i][j]);
        forall k, l | 0 <= k < GridSize && 0 <= l < GridSize && (k, l) in Block(i, j)
          ensures Shown(c[k][l])
        {
          assert Evolves(b[k][l], c[k][l]);
        }
      }
    }
    ComposeChains(a, b, c, t);
  }

  /** Revealing keeps a zero cell feeding its neighbours. */
  lemma FeedsGrows(b: Grid, c: Grid, p: Pos, q: Pos)
    requires IsGrid(b) && IsGrid(c) && Grows(b, c) && Feeds(b, p, q)
    ensures Feeds(c, p, q)
  {
    assert Evolves(b[p.0][p.1], c[p.0][p.1]);
  }

  /** The cells the first and the second reveal list are revealed by the two together. */
  lemma ListedJoin(a: Grid, b: Grid, c: Grid, t: Pos, o1: seq<Pos>, o2: seq<Pos>)
    requires IsGrid(a) && IsGrid(b) && IsGrid(c) && Grows(a, b) && Grows(b, c)
    requires Listed(a, b, t, o1) && Listed(b, c, t, o2)
    ensures Listed(a, c, t, o1 + o2)
  {
    var o := o1 + o2;
    forall m | 0 <= m < |o|
      ensures InBounds(o[m].0, o[m].1) && o[m] != t && Newly(a[o[m].0][o[m].1], c[o[m].0][o[m].1])
    {
      if m < |o1| {
        var p := o1[m];
        assert Evolves(b[p.0][p.1], c[p.0][p.1]);
      } else {
        var p := o2[m - |o1|];
        assert Evolves(a[p.0][p.1], b[p.0][p.1]);
      }
    }
  }

  /** A cell the two reveals together reveal is revealed by one of them. */
  lemma CoversJoin(a: Grid, b: Grid, c: Grid, t: Pos, o1: seq<Pos>, o2: seq<Pos>)
    requires IsGrid(a) && IsGrid(b) && IsGrid(c) && Grows(a, b)
    requires Covers(a, b, t, o1) && Covers(b, c, t, o2)
    ensures Covers(a, c, t, o1 + o2)
  {
    forall i, j | 0 <= i < GridSize && 0 <= j < GridSize && Newly(a[i][j], c[i][j]) && (i, j) != t
      ensures (i, j) in o1 + o2
    {
      assert Evolves(a[i][j], b[i][j]);
      if Newly(a[i][j], b[i][j]) {
        assert (i, j) in o1;
      } else {
        assert (i, j) in o2;
      }
    }
  }

  /** The second order after the first keeps every entry after its feeder. */
  lemma InOrderJoin(b: Grid, c: Grid, t: Pos, o1: seq<Pos>, o2: seq<Pos>)
    requires IsGrid(b) && IsGrid(c) && Grows(b, c)
    requires InOrder(b, t, o1) && InOrder(c, t, o2)
    ensures InOrder(c, t, o1 + o2)
  {
    var o := o1 + o2;
    forall m | 0 <= m < |o|
      ensures FedAt(c, t, o, m)
    {
      if m < |o1| {
        assert FedAt(b, t, o1, m);
        if Feeds(b, t, o1[m]) {
          FeedsGrows(b, c, t, o1[m]);
        } else {
          var n :| 0 <= n < m && Feeds(b, o1[n], o1[m]);
          FeedsGrows(b, c, o1[n], o1[m]);
          assert Feeds(c, o[n], o[m]);
        }
      } else {
        var k := m - |o1|;
        assert FedAt(c, t, o2, k);
        if !Feeds(c, t, o2[k]) {
          var n :| 0 <= n < k && Feeds(c, o2[n], o2[k]);
          assert Feeds(c, o[n + |o1|], o[m]);
        }
      }
    }
  }

  /** The reveal orders of two reveals one after the other, joined, are a
      reveal order of the two together. */
  lemma ComposeChains(a: Grid, b: Grid, c: Grid, t: Pos)
    requires IsGrid(a) && IsGrid(b) && IsGrid(c)
    requires Grows(a, b) && Grows(b, c)
    requires Connected(a, b, t) && Connected(b, c, t)
    ensures Connected(a, c, t)
  {
    var o1: seq<Pos> :| Chain(a, b, t, o1);
    var o2: seq<Pos> :| Chain(b, c, t, o2);
    ListedJoin(a, b, c, t, o1, o2);
    CoversJoin(a, b, c, t, o1, o2);
    InOrderJoin(b, c, t, o1, o2);
    assert Chain(a, c, t, o1 + o2);
  }

  /** Nothing revealed: the empty reveal order. */
  lemma ConnectedStill(g: Grid, t: Pos)
    requires IsGrid(g)
    ensures Connected(g, g, t)
  {
    assert Chain(g, g, t, []);
  }

  /** Putting `s`, fed by `t`, before a reveal order from `s` gives one from `t`. */
  lemma InOrderCons(c: Grid, s: Pos, t: Pos, o: seq<Pos>)
    requires IsGrid(c) && Feeds(c, t, s) && InOrder(c, s, o)
    ensures InOrder(c, t, [s] + o)
  {
    var o' := [s] + o;
    forall m | 0 <= m < |o'|
      ensures FedAt(c, t, o', m)
    {
      if m > 0 {
        var k := m - 1;
        assert FedAt(c, s, o, k);
        if Feeds(c, s, o[k]) {
          assert Feeds(c, o'[0], o'[m]);
        } else {
          var n :| 0 <= n < k && Feeds(c, o[n], o[k]);
          assert Feeds(c, o'[n + 1], o'[m]);
        }
      }
    }
  }

  /** A recursive call on the neighbour `s` of the revealed zero cell `t`:
      its reveal order from `s`, with `s` put first, is a reveal order from
      `t`, because `t` feeds `s`. */
  lemma Reseed(b: Grid, c: Grid, s: Pos, t: Pos)
    requires IsGrid(b) && IsGrid(c)
    requires InBounds(s.0, s.1) && InBounds(t.0, t.1) && s in Block(t.0, t.1) && s != t
    requires b[t.0][t.1].revealed && Opens(c[t.0][t.1])
    requires Connected(b, c, s)
    requires Newly(b[s.0][s.1], c[s.0][s.1]) || b == c
    ensures Connected(b, c, t)
  {
    if b == c {
      ConnectedStill(b, t);
    } else {
      var o: seq<Pos> :| Chain(b, c, s, o);
      var o' := [s] + o;
      forall m | 0 <= m < |o'|
        ensures InBounds(o'[m].0, o'[m].1) && o'[m] != t && Newly(b[o'[m].0][o'[m].1], c[o'[m].0][o'[m].1])
      {
        if m > 0 {
          assert o'[m] == o[m - 1];
        }
      }
      forall i, j | 0 <= i < GridSize && 0 <= j < GridSize && Newly(b[i][j], c[i][j]) && (i, j) != t
        ensures (i, j) in o'
      {
        if (i, j) != s {
          assert (i, j) in o;
        }
      }
      InOrderCons(c, s, t, o);
      assert Chain(b, c, t, o');
    }
  }

  /** The reveal of the target `t` followed by the flood fill from it:
      the relations of the fill, taken from the snapshot after the target,
      extend to the snapshot before it. */
  lemma AfterTarget(g0: Grid, g1: Grid, g2: Grid, t: Pos)
    requires IsGrid(g0) && IsGrid(g1) && IsGrid(g2) && InBounds(t.0, t.1)
    requires !g0[t.0][t.1].revealed && OnlyRevealed(g0, g1, t)
    requires !g1[t.0][t.1].isBomb && !g1[t.0][t.1].flagged
    requires Grows(g1, g2) && SafeReveals(g1, g2) && Spreads(g1, g2) && Connected(g1, g2, t)
    requires Opens(g1[t.0][t.1]) ==> Settled(g2, t.0, t.1)
    ensures Grows(g0, g2) && SafeReveals(g0, g2) && Spreads(g0, g2) && Connected(g0, g2, t)
  {
    forall i, j | 0 <= i < GridSize && 0 <= j < GridSize
      ensures Evolves(g0[i][j], g2[i][j])
    {
      assert Evolves(g1[i][j], g2[i][j]);
    }
    var o: seq<Pos> :| Chain(g1, g2, t, o);
    forall m | 0 <= m < |o|
      ensures Newly(g0[o[m].0][o[m].1], g2[o[m].0][o[m].1])
    {
      var p := o[m];
      assert g1[p.0][p.1] == g0[p.0][p.1];
    }
    forall i, j | 0 <= i < GridSize && 0 <= j < GridSize && Newly(g0[i][j], g2[i][j]) && (i, j) != t
      ensures (i, j) in o
    {
      assert g1[i][j] == g0[i][j];
    }
    assert Chain(g0, g2, t, o);
  }

  /** One more column of a row shown. */
  lemma RowDoneStep(g: Grid, h: Grid, r: int, lo: int, c: int)
    requires IsGrid(g) && IsGrid(h) && Grows(g, h)
    requires 0 <= r < GridSize && 0 <= lo <= c < GridSize
    requires RowDone(g, r, lo, c) && Shown(h[r][c])
    ensures RowDone(h, r, lo, c + 1)
  {
    forall l | lo <= l < c + 1 ensures Shown(h[r][l]) {
      assert Evolves(g[r][l], h[r][l]);
    }
  }

  /** One more row of a block shown. */
  lemma BlockDoneStep(g: Grid, h: Grid, row: int, col: int, r: int)
    requires IsGrid(g) && IsGrid(h) && Grows(g, h)
    requires Lo(row) <= r < Hi(row)
    requires BlockDone(g, row, col, r) && RowDone(h, r, Lo(col), Hi(col))
    ensures BlockDone(h, row, col, r + 1)
  {
    forall k | Lo(row) <= k < r + 1 ensures RowDone(h, k, Lo(col), Hi(col)) {
      if k < r {
        forall l | Lo(col) <= l < Hi(col) ensures Shown(h[k][l]) {
          assert RowDone(g, k, Lo(col), Hi(col));
          assert Evolves(g[k][l], h[k][l]);
        }
      }
    }
  }

  /** All rows of a block shown: the block is settled. */
  lemma BlockDoneSettled(g: Grid, row: int, col: int)
    requires IsGrid(g) && BlockDone(g, row, col, Hi(row))
    ensures Settled(g, row, col)
  {
    forall k, l | 0 <= k < GridSize && 0 <= l < GridSize && (k, l) in Block(row, col)
      ensures Shown(g[k][l])
    {
      assert RowDone(g, k, Lo(col), Hi(col));
    }
  }
}
