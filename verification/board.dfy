/** The playing field: placed cells, the fixed-size grid that holds them, and the game configuration. */
module Board {
  import opened Common

  /** A square baked into the grid (a shape-less `Block`): its column `x`, its row `y` and its colour. */
  datatype Cell = Cell(x: int, y: int, color: Color)

  /** The grid, indexed `[y][x]` with row 0 at the top; `None` is an empty slot. */
  type Grid = seq<seq<Option<Cell>>>

  /** `GameConfig`: pixel size of a square, grid size, time limit in seconds, target score, fall interval in ms. */
  datatype Config = Config(
    blockSize: int,
    width: nat,
    height: nat,
    timeLimit: int,
    targetScore: int,
    initialFallSpeed: int)

  /** The configuration the game is built with. */
  const Defaults: Config := Config(30, 10, 20, 180, 1000, 500)

  /** The grid has `height` rows of `width` slots each. */
  predicate Shaped(g: Grid, cfg: Config)
  {
    |g| == cfg.height && forall y :: 0 <= y < |g| ==> |g[y]| == cfg.width
  }

  /** Every stored cell records the column and row it is stored at. */
  predicate SelfLocated(g: Grid)
  {
    forall y, x :: 0 <= y < |g| && 0 <= x < |g[y]| && g[y][x].Some? ==>
      g[y][x].value.x == x && g[y][x].value.y == y
  }

  /** The grid `reset_game` allocates: nothing placed anywhere. */
  function EmptyGrid(cfg: Config): (g: Grid)
    ensures Shaped(g, cfg) && SelfLocated(g)
    ensures forall y, x :: 0 <= y < |g| && 0 <= x < |g[y]| ==> g[y][x].None?
  {
    seq(cfg.height, _ => seq(cfg.width, _ => None))
  }

  /** Column `x` of the grid, top to bottom. */
  function Column(g: Grid, x: int): (col: seq<Option<Cell>>)
    requires 0 <= x && forall y :: 0 <= y < |g| ==> x < |g[y]|
  {
    seq(|g|, y requires 0 <= y < |g| => g[y][x])
  }

  /** The grid with column `x` replaced by `col`. */
  function SetColumn(g: Grid, x: int, col: seq<Option<Cell>>): (g': Grid)
    requires 0 <= x && forall y :: 0 <= y < |g| ==> x < |g[y]|
    requires |col| == |g|
  {
    seq(|g|, y requires 0 <= y < |g| => g[y][x := col[y]])
  }

  /**
   * The rows from `lo` down to the bottom of a column that hold a cell, listed
   * from the bottom row upwards: the column's stack of cells.
   */
  function OccupiedRows(col: seq<Option<Cell>>, lo: nat): (rows: seq<nat>)
    ensures forall k :: 0 <= k < |rows| ==> lo <= rows[k] < |col| && col[rows[k]].Some?
    ensures forall r :: lo <= r < |col| && col[r].Some? ==> r in rows
    ensures forall a, b :: 0 <= a < b < |rows| ==> rows[a] > rows[b]
    ensures lo <= |col| ==> |rows| <= |col| - lo
    decreases |col| - lo
  {
    if lo >= |col| then []
    else OccupiedRows(col, lo + 1) + (if col[lo].Some? then [lo] else [])
  }

  /** The cells of a column from the bottom up. */
  function Stack(col: seq<Option<Cell>>): (cells: seq<Cell>)
  {
    var rows := OccupiedRows(col, 0);
    seq(|rows|, b requires 0 <= b < |rows| => col[rows[b]].value)
  }

  /** Number of cells in a column. */
  function ColumnCount(col: seq<Option<Cell>>): nat
  {
    |OccupiedRows(col, 0)|
  }

  /** Number of cells in columns `x` and to its right. */
  function CountFrom(g: Grid, cfg: Config, x: nat): nat
    requires Shaped(g, cfg)
    decreases cfg.width - x
  {
    if x >= cfg.width then 0 else ColumnCount(Column(g, x)) + CountFrom(g, cfg, x + 1)
  }

  /** Number of cells in the grid. */
  function Count(g: Grid, cfg: Config): nat
    requires Shaped(g, cfg)
  {
    CountFrom(g, cfg, 0)
  }

  /** Emptying slots of a column never adds cells, and emptying an occupied one removes at least one. */
  lemma {:induction false} FewerCells(c: seq<Option<Cell>>, c': seq<Option<Cell>>, lo: nat)
    requires |c'| == |c|
    requires forall r :: 0 <= r < |c| && c'[r].Some? ==> c[r].Some?
    ensures |OccupiedRows(c', lo)| <= |OccupiedRows(c, lo)|
    ensures (exists r :: lo <= r < |c| && c[r].Some? && c'[r].None?) ==>
      |OccupiedRows(c', lo)| < |OccupiedRows(c, lo)|
    decreases |c| - lo
  {
    if lo < |c| {
      FewerCells(c, c', lo + 1);
    }
  }

  /**
   * Emptying slots of the grid never adds cells; if a whole row that was full
   * is emptied, every column loses a cell, so at least `width` cells go.
   */
  lemma {:induction false} CountAfterClear(g: Grid, g': Grid, cfg: Config, row: int, x: nat)
    requires Shaped(g, cfg) && Shaped(g', cfg)
    requires forall y, x' :: 0 <= y < cfg.height && 0 <= x' < cfg.width && g'[y][x'].Some? ==> g[y][x'].Some?
    requires 0 <= row < cfg.height
    requires forall x' :: 0 <= x' < cfg.width ==> g[row][x'].Some? && g'[row][x'].None?
    requires x <= cfg.width
    ensures CountFrom(g', cfg, x) + (cfg.width - x) <= CountFrom(g, cfg, x)
    decreases cfg.width - x
  {
    if x < cfg.width {
      CountAfterClear(g, g', cfg, row, x + 1);
      var c, c' := Column(g, x), Column(g', x);
      assert c[row].Some? && c'[row].None?;
      FewerCells(c, c', 0);
    }
  }

  /** Grids whose columns hold equally many cells hold equally many cells. */
  lemma {:induction false} CountByColumns(g: Grid, g': Grid, cfg: Config, x: nat)
    requires Shaped(g, cfg) && Shaped(g', cfg)
    requires forall x' :: 0 <= x' < cfg.width ==> ColumnCount(Column(g', x')) == ColumnCount(Column(g, x'))
    ensures CountFrom(g', cfg, x) == CountFrom(g, cfg, x)
    decreases cfg.width - x
  {
    if x < cfg.width {
      CountByColumns(g, g', cfg, x + 1);
    }
  }
}
