/**
 * Gravity collapse (`apply_gravity`): every column is compacted downwards on
 * its own, keeping the order of its cells.
 */
module Gravity {
  import opened Common
  import opened Board

  /**
   * The slot a cell found at row `src` fills when it comes to rest at row `r`:
   * a cell that moves has its recorded row rewritten, one that stays is untouched.
   */
  function Lowered(col: seq<Option<Cell>>, src: int, r: int): Option<Cell>
    requires 0 <= src < |col| && col[src].Some?
  {
    if src == r then col[src] else Some(col[src].value.(y := r))
  }

  /**
   * What row `r` holds once the rows from `lo` down to the bottom have been
   * compacted: the cell whose rank from the bottom matches the row's, or nothing.
   */
  function Target(col: seq<Option<Cell>>, lo: nat, r: int): Option<Cell>
  {
    var rows := OccupiedRows(col, lo);
    var b := |col| - 1 - r;
    if 0 <= b < |rows| then Lowered(col, rows[b], r) else None
  }

  /**
   * Reference result of compacting one column: the k-th cell counted from the
   * bottom comes to rest in the k-th row counted from the bottom; the rows
   * above the last cell are empty.
   */
  function Settle(col: seq<Option<Cell>>): (s: seq<Option<Cell>>)
  {
    seq(|col|, r => Target(col, 0, r))
  }

  /** Taking one more row into the compaction changes only the slot that row's cell lands in. */
  lemma TargetStep(col: seq<Option<Cell>>, y: nat, r: int)
    requires y < |col| && y <= r < |col|
    ensures var below := OccupiedRows(col, y + 1);
      Target(col, y, r) ==
        if col[y].Some? && |col| - 1 - r == |below| then Lowered(col, y, r) else Target(col, y + 1, r)
  {
    var below := OccupiedRows(col, y + 1);
    var rows := OccupiedRows(col, y);
    assert rows == below + (if col[y].Some? then [y] else []);
    var b := |col| - 1 - r;
    if 0 <= b < |below| {
      assert rows[b] == below[b];
    }
  }

  /**
   * The state of the column scan once rows `y+1..` have been visited: the
   * unvisited rows are untouched, the visited ones are compacted, and
   * `emptyY` is the lowest empty slot, or nothing if every visited row is full.
   */
  ghost predicate Scanned(col: seq<Option<Cell>>, c: seq<Option<Cell>>, y: int, emptyY: Option<int>)
  {
    && -1 <= y < |col| && |c| == |col|
    && (forall r | 0 <= r <= y :: c[r] == col[r])
    && (forall r | y < r < |col| :: c[r] == Target(col, y + 1, r))
    && (emptyY.None? <==> |OccupiedRows(col, y + 1)| == |col| - 1 - y)
    && (emptyY.Some? ==> emptyY.value == |col| - 1 - |OccupiedRows(col, y + 1)| && y < emptyY.value < |col|)
  }

  /** Visiting an empty slot: it becomes the lowest empty slot if there was none. */
  lemma ScanEmpty(col: seq<Option<Cell>>, c: seq<Option<Cell>>, y: int, emptyY: Option<int>)
    requires Scanned(col, c, y, emptyY) && 0 <= y && c[y].None?
    ensures Scanned(col, c, y - 1, if emptyY.None? then Some(y) else emptyY)
  {
    assert OccupiedRows(col, y) == OccupiedRows(col, y + 1);
    forall r | y <= r < |col|
      ensures Target(col, y, r) == Target(col, y + 1, r)
    {
      TargetStep(col, y, r);
    }
  }

  /** Visiting a cell with an empty slot below: it moves into that slot and records its new row. */
  lemma ScanMove(col: seq<Option<Cell>>, c: seq<Option<Cell>>, y: int, e: int)
    requires Scanned(col, c, y, Some(e)) && 0 <= y && c[y].Some?
    ensures Scanned(col, c[y := None][e := Some(c[y].value.(y := e))], y - 1, Some(e - 1))
  {
    var below := OccupiedRows(col, y + 1);
    assert OccupiedRows(col, y) == below + [y];
    forall r | y <= r < |col|
      ensures Target(col, y, r) == if r == e then Lowered(col, y, r) else Target(col, y + 1, r)
    {
      TargetStep(col, y, r);
    }
  }

  /** Visiting a cell with no empty slot below: it stays where it is. */
  lemma ScanKeep(col: seq<Option<Cell>>, c: seq<Option<Cell>>, y: int)
    requires Scanned(col, c, y, None) && 0 <= y && c[y].Some?
    ensures Scanned(col, c, y - 1, None)
  {
    var below := OccupiedRows(col, y + 1);
    assert OccupiedRows(col, y) == below + [y];
    forall r | y <= r < |col|
      ensures Target(col, y, r) == if r == y then col[y] else Target(col, y + 1, r)
    {
      TargetStep(col, y, r);
    }
  }

  /**
   * The inner loop of `apply_gravity` for one column, as the source runs it:
   * scan from the bottom row up, remember the lowest empty slot, and move each
   * cell met above it down into that slot, rewriting the cell's row.
   */
  method CompactColumn(col: seq<Option<Cell>>) returns (c: seq<Option<Cell>>)
    ensures c == Settle(col)
  {
    c := col;
    var emptyY: Option<int> := None;
    var y := |col| - 1;
    while y >= 0
      invariant Scanned(col, c, y, emptyY)
    {
      if c[y].None? {
        ScanEmpty(col, c, y, emptyY);
        if emptyY.None? {
          emptyY := Some(y);
        }
      } else if emptyY.Some? {
        var e := emptyY.value;
        ScanMove(col, c, y, e);
        MoveCell(c, y, e);
        c := c[e := c[y]];
        c := c[y := None];
        c := c[e := Some(c[e].value.(y := e))];
        emptyY := Some(e - 1);
      } else {
        ScanKeep(col, c, y);
      }
      y := y - 1;
    }
    ScanDone(col, c, emptyY);
  }

  /** The three writes that move the cell at `y` down to the empty slot `e`. */
  lemma MoveCell(c: seq<Option<Cell>>, y: int, e: int)
    requires 0 <= y < e < |c| && c[y].Some?
    ensures var c1 := c[e := c[y]][y := None];
      c1[e := Some(c1[e].value.(y := e))] == c[y := None][e := Some(c[y].value.(y := e))]
  {
  }

  /** Once every row has been visited, the column is settled. */
  lemma ScanDone(col: seq<Option<Cell>>, c: seq<Option<Cell>>, emptyY: Option<int>)
    requires Scanned(col, c, -1, emptyY)
    ensures c == Settle(col)
  {
    var s := Settle(col);
    assert |c| == |s|;
    forall r | 0 <= r < |col|
      ensures c[r] == s[r]
    {
      assert c[r] == Target(col, 0, r);
    }
  }

  /** Reference result of `apply_gravity`: every column settled independently. */
  function ApplyGravity(cfg: Config, g: Grid): (r: Grid)
    requires Shaped(g, cfg)
    ensures Shaped(r, cfg)
    ensures forall x | 0 <= x < cfg.width :: Column(r, x) == Settle(Column(g, x))
  {
    var r := seq(cfg.height, y requires 0 <= y < cfg.height =>
      seq(cfg.width, x requires 0 <= x < cfg.width => Settle(Column(g, x))[y]));
    assert forall x | 0 <= x < cfg.width :: Column(r, x) == Settle(Column(g, x)) by {
      forall x | 0 <= x < cfg.width
        ensures Column(r, x) == Settle(Column(g, x))
      {
        assert forall y | 0 <= y < cfg.height :: Column(r, x)[y] == Settle(Column(g, x))[y];
      }
    }
    r
  }

  lemma ColumnOfSetColumn(cfg: Config, g: Grid, x: int, col: seq<Option<Cell>>)
    requires Shaped(g, cfg) && 0 <= x < cfg.width && |col| == cfg.height
    ensures Shaped(SetColumn(g, x, col), cfg)
    ensures Column(SetColumn(g, x, col), x) == col
    ensures forall x' | 0 <= x' < cfg.width && x' != x :: Column(SetColumn(g, x, col), x') == Column(g, x')
  {
  }

  /** Two grids of the same shape with the same columns are the same grid. */
  lemma SameColumns(cfg: Config, g: Grid, g': Grid)
    requires Shaped(g, cfg) && Shaped(g', cfg)
    requires forall x | 0 <= x < cfg.width :: Column(g, x) == Column(g', x)
    ensures g == g'
  {
    forall y | 0 <= y < cfg.height
      ensures g[y] == g'[y]
    {
      forall x | 0 <= x < cfg.width
        ensures g[y][x] == g'[y][x]
      {
        assert Column(g, x)[y] == Column(g', x)[y];
      }
    }
  }

  /** `apply_gravity` as the source runs it: compact the columns left to right, in place. */
  method ApplyGravityInPlace(cfg: Config, g: Grid) returns (r: Grid)
    requires Shaped(g, cfg)
    ensures r == ApplyGravity(cfg, g)
  {
    r := g;
    var x := 0;
    while x < cfg.width
      invariant 0 <= x <= cfg.width
      invariant Shaped(r, cfg)
      invariant forall x' | 0 <= x' < x :: Column(r, x') == Settle(Column(g, x'))
      invariant forall x' | x <= x' < cfg.width :: Column(r, x') == Column(g, x')
    {
      var col := CompactColumn(Column(r, x));
      ColumnOfSetColumn(cfg, r, x, col);
      r := SetColumn(r, x, col);
      x := x + 1;
    }
    SameColumns(cfg, r, ApplyGravity(cfg, g));
  }

  /** The occupied rows of a column whose cells fill exactly its bottom `n` rows. */
  lemma {:induction false} BottomRows(c: seq<Option<Cell>>, n: nat, lo: nat)
    requires n <= |c| && lo <= |c|
    requires forall r | 0 <= r < |c| :: c[r].Some? <==> r >= |c| - n
    ensures OccupiedRows(c, lo) == seq(|c| - Max(lo, |c| - n), b requires b >= 0 => |c| - 1 - b)
    decreases |c| - lo
  {
    if lo < |c| {
      BottomRows(c, n, lo + 1);
      var rest := OccupiedRows(c, lo + 1);
      assert OccupiedRows(c, lo) == rest + (if c[lo].Some? then [lo] else []);
      var want := seq(|c| - Max(lo, |c| - n), b requires b >= 0 => |c| - 1 - b);
      if c[lo].Some? {
        assert |rest| == |c| - lo - 1;
        assert |want| == |rest| + 1;
        assert want == rest + [lo] by {
          forall b | 0 <= b < |want|
            ensures want[b] == (rest + [lo])[b]
          {
          }
        }
      } else {
        assert Max(lo, |c| - n) == Max(lo + 1, |c| - n);
      }
    }
  }

  function Max(a: int, b: int): int
  {
    if a >= b then a else b
  }

  /** The settled column holds cells in exactly its bottom rows, as many as the column had. */
  lemma SettleFillsBottom(col: seq<Option<Cell>>)
    ensures var s, n := Settle(col), |OccupiedRows(col, 0)|;
      |s| == |col| && n <= |col| && forall r | 0 <= r < |s| :: s[r].Some? <==> r >= |col| - n
  {
    var s, h := Settle(col), |col|;
    var rows := OccupiedRows(col, 0);
    forall r | 0 <= r < h
      ensures s[r].Some? <==> r >= h - |rows|
    {
      var b := h - 1 - r;
      if b < |rows| {
        assert col[rows[b]].Some?;
      }
    }
  }

  /** A settled column has no empty slot below a cell. */
  lemma SettleNoGap(col: seq<Option<Cell>>)
    ensures var s := Settle(col);
      |s| == |col| && forall r1, r2 | 0 <= r1 < r2 < |s| && s[r1].Some? :: s[r2].Some?
  {
    SettleFillsBottom(col);
  }

  /** The settled column's cells sit in its bottom rows, counted from the bottom. */
  lemma SettleRows(col: seq<Option<Cell>>)
    ensures var s, h, n := Settle(col), |col|, |OccupiedRows(col, 0)|;
      && |OccupiedRows(s, 0)| == n
      && forall b | 0 <= b < n :: OccupiedRows(s, 0)[b] == h - 1 - b
  {
    var s, h := Settle(col), |col|;
    var n := |OccupiedRows(col, 0)|;
    SettleFillsBottom(col);
    BottomRows(s, n, 0);
    assert Max(0, h - n) == h - n;
  }

  /**
   * Bottom to top, the settled column holds the column's cells in the same
   * order: the k-th cell from the bottom lands in the k-th row from the bottom.
   */
  lemma SettleStack(col: seq<Option<Cell>>)
    ensures var s, h, rows := Settle(col), |col|, OccupiedRows(col, 0);
      && |Stack(s)| == |rows|
      && forall b | 0 <= b < |rows| :: Stack(s)[b] == Lowered(col, rows[b], h - 1 - b).value
  {
    var s, h := Settle(col), |col|;
    var rows := OccupiedRows(col, 0);
    SettleRows(col);
    forall b | 0 <= b < |rows|
      ensures Stack(s)[b] == Lowered(col, rows[b], h - 1 - b).value
    {
      var r := h - 1 - b;
      assert OccupiedRows(s, 0)[b] == r;
      assert Stack(s)[b] == s[r].value;
      assert s[r] == Target(col, 0, r);
    }
  }

  /**
   * Settling keeps a column's cells, their order, columns and colours; a cell
   * that moved records its new row.
   */
  lemma SettleSpec(col: seq<Option<Cell>>)
    ensures var s, h := Settle(col), |col|;
      && |Stack(s)| == |Stack(col)|
      && (forall b | 0 <= b < |Stack(s)| ::
            Stack(s)[b].x == Stack(col)[b].x && Stack(s)[b].color == Stack(col)[b].color)
      && (forall b | 0 <= b < |Stack(s)| && OccupiedRows(col, 0)[b] != h - 1 - b :: Stack(s)[b].y == h - 1 - b)
  {
    SettleStack(col);
  }

  /** A column whose cells all record column `x` and their own row. */
  predicate ColumnLocated(col: seq<Option<Cell>>, x: int)
  {
    forall r | 0 <= r < |col| && col[r].Some? :: col[r].value.x == x && col[r].value.y == r
  }

  /** Settling keeps cells recording where they are, and keeps their number. */
  lemma SettleLocated(col: seq<Option<Cell>>, x: int)
    requires ColumnLocated(col, x)
    ensures ColumnLocated(Settle(col), x)
    ensures ColumnCount(Settle(col)) == ColumnCount(col)
  {
    SettleStack(col);
    var s := Settle(col);
    forall r | 0 <= r < |s| && s[r].Some?
      ensures s[r].value.x == x && s[r].value.y == r
    {
      var rows := OccupiedRows(col, 0);
      var b := |col| - 1 - r;
      assert 0 <= b < |rows|;
      assert col[rows[b]].Some?;
    }
  }

  /**
   * For a column whose cells record where they are, settling moves the k-th
   * cell from the bottom to the k-th row from the bottom and changes nothing
   * else about it.
   */
  lemma SettleLocatedStack(col: seq<Option<Cell>>, x: int)
    requires ColumnLocated(col, x)
    ensures var s := Settle(col);
      && |Stack(s)| == |Stack(col)|
      && forall b | 0 <= b < |Stack(s)| :: Stack(s)[b] == Stack(col)[b].(y := |col| - 1 - b)
  {
    SettleStack(col);
    var s, h := Settle(col), |col|;
    var rows := OccupiedRows(col, 0);
    forall b | 0 <= b < |Stack(s)|
      ensures Stack(s)[b] == Stack(col)[b].(y := h - 1 - b)
    {
      assert Stack(col)[b] == col[rows[b]].value;
      assert col[rows[b]].value.y == rows[b];
    }
  }

  /**
   * `apply_gravity` over the whole grid: no column has an empty slot below a
   * cell, every column keeps its cells in order, cells keep recording their
   * own position, and the number of cells is unchanged.
   */
  lemma ApplyGravitySpec(cfg: Config, g: Grid)
    requires Shaped(g, cfg) && SelfLocated(g)
    ensures var r := ApplyGravity(cfg, g);
      && SelfLocated(r)
      && Count(r, cfg) == Count(g, cfg)
      && (forall y1, y2, x | 0 <= y1 < y2 < cfg.height && 0 <= x < cfg.width && r[y1][x].Some? :: r[y2][x].Some?)
      && (forall x | 0 <= x < cfg.width ::
            |Stack(Column(r, x))| == |Stack(Column(g, x))| &&
            forall b | 0 <= b < |Stack(Column(r, x))| ::
              Stack(Column(r, x))[b] == Stack(Column(g, x))[b].(y := cfg.height - 1 - b))
  {
    var r := ApplyGravity(cfg, g);
    forall x | 0 <= x < cfg.width
      ensures ColumnLocated(Column(r, x), x)
      ensures ColumnCount(Column(r, x)) == ColumnCount(Column(g, x))
      ensures |Stack(Column(r, x))| == |Stack(Column(g, x))|
      ensures forall b | 0 <= b < |Stack(Column(r, x))| ::
        Stack(Column(r, x))[b] == Stack(Column(g, x))[b].(y := cfg.height - 1 - b)
    {
      var c := Column(g, x);
      assert ColumnLocated(c, x);
      SettleLocated(c, x);
      SettleLocatedStack(c, x);
    }
    forall y1, y2, x | 0 <= y1 < y2 < cfg.height && 0 <= x < cfg.width && r[y1][x].Some?
      ensures r[y2][x].Some?
    {
      SettleNoGap(Column(g, x));
      assert Column(r, x)[y1] == r[y1][x] && Column(r, x)[y2] == r[y2][x];
    }
    forall y, x | 0 <= y < cfg.height && 0 <= x < cfg.width && r[y][x].Some?
      ensures r[y][x].value.x == x && r[y][x].value.y == y
    {
      assert Column(r, x)[y] == r[y][x];
    }
    CountByColumns(g, r, cfg, 0);
  }
}
