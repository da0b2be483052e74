/** Line resolution: finding full rows (`find_matches`), and clearing them for score (`remove_matches`). */
module Lines {
  import opened Common
  import opened Board

  /** Every slot of row `y` holds a cell. */
  predicate FullRow(cfg: Config, g: Grid, y: int)
    requires Shaped(g, cfg) && 0 <= y < cfg.height
  {
    forall x | 0 <= x < cfg.width :: g[y][x].Some?
  }

  /** No row of the grid is full. */
  predicate NoFullRow(cfg: Config, g: Grid)
    requires Shaped(g, cfg)
  {
    forall y | 0 <= y < cfg.height :: !FullRow(cfg, g, y)
  }

  /** The full rows among rows `y` up to the top, in the order a bottom-up scan meets them. */
  function FullRowsFrom(cfg: Config, g: Grid, y: int): (rows: seq<int>)
    requires Shaped(g, cfg) && -1 <= y < cfg.height
    ensures forall k | 0 <= k < |rows| :: 0 <= rows[k] <= y && FullRow(cfg, g, rows[k])
    ensures forall r | 0 <= r <= y && FullRow(cfg, g, r) :: r in rows
    ensures forall a, b | 0 <= a < b < |rows| :: rows[a] > rows[b]
    decreases y + 1
  {
    if y < 0 then []
    else (if FullRow(cfg, g, y) then [y] else []) + FullRowsFrom(cfg, g, y - 1)
  }

  /** The cells of a full row, left to right. */
  function RowCells(cfg: Config, g: Grid, y: int): seq<Cell>
    requires Shaped(g, cfg) && 0 <= y < cfg.height && FullRow(cfg, g, y)
  {
    seq(cfg.width, x requires 0 <= x < cfg.width => g[y][x].value)
  }

  /** `find_matches`: the cells of every full row, scanning from the bottom row to the top. */
  function FindMatches(cfg: Config, g: Grid): (m: seq<seq<Cell>>)
    requires Shaped(g, cfg)
    ensures m == [] <==> NoFullRow(cfg, g)
    ensures forall k | 0 <= k < |m| :: |m[k]| == cfg.width
    ensures SelfLocated(g) ==> forall k, i | 0 <= k < |m| && 0 <= i < |m[k]| :: OnGrid(cfg, m[k][i])
  {
    var rows := FullRowsFrom(cfg, g, cfg.height - 1);
    var m := seq(|rows|, k requires 0 <= k < |rows| => RowCells(cfg, g, rows[k]));
    assert m == [] <==> NoFullRow(cfg, g) by {
      NoFullRowIffNone(cfg, g);
    }
    assert SelfLocated(g) ==> forall k, i | 0 <= k < |m| && 0 <= i < |m[k]| :: OnGrid(cfg, m[k][i]) by {
      if SelfLocated(g) {
        forall k, i | 0 <= k < |m| && 0 <= i < |m[k]|
          ensures OnGrid(cfg, m[k][i])
        {
          RowCellAt(cfg, g, rows[k], i);
        }
      }
    }
    m
  }

  /** The scan meets no full row exactly when no row is full. */
  lemma NoFullRowIffNone(cfg: Config, g: Grid)
    requires Shaped(g, cfg)
    ensures FullRowsFrom(cfg, g, cfg.height - 1) == [] <==> NoFullRow(cfg, g)
  {
    var rows := FullRowsFrom(cfg, g, cfg.height - 1);
    if rows != [] {
      assert FullRow(cfg, g, rows[0]);
    }
    if !NoFullRow(cfg, g) {
      var y :| 0 <= y < cfg.height && FullRow(cfg, g, y);
      assert y in rows;
    }
  }

  /** Slot `i` of a full row, as a cell; with self-locating cells it records (i, y). */
  lemma RowCellAt(cfg: Config, g: Grid, y: int, i: int)
    requires Shaped(g, cfg) && 0 <= y < cfg.height && FullRow(cfg, g, y) && 0 <= i < cfg.width
    ensures RowCells(cfg, g, y)[i] == g[y][i].value
    ensures SelfLocated(g) ==> RowCells(cfg, g, y)[i].x == i && RowCells(cfg, g, y)[i].y == y
  {
  }

  /** Line `k` of `find_matches` holds the cells of the `k`-th full row the scan meets. */
  lemma MatchLine(cfg: Config, g: Grid, k: int)
    requires Shaped(g, cfg)
    ensures |FindMatches(cfg, g)| == |FullRowsFrom(cfg, g, cfg.height - 1)|
    ensures 0 <= k < |FindMatches(cfg, g)| ==>
      FindMatches(cfg, g)[k] == RowCells(cfg, g, FullRowsFrom(cfg, g, cfg.height - 1)[k])
  {
    var rows := FullRowsFrom(cfg, g, cfg.height - 1);
    var m := seq(|rows|, k requires 0 <= k < |rows| => RowCells(cfg, g, rows[k]));
    assert FindMatches(cfg, g) == m;
  }

  /**
   * With cells that record their own position, `find_matches` returns the
   * cells of exactly the full rows.
   */
  lemma FindMatchesExact(cfg: Config, g: Grid)
    requires Shaped(g, cfg) && SelfLocated(g) && cfg.width >= 1
    ensures var m := FindMatches(cfg, g);
      forall k | 0 <= k < |m| ::
        0 <= m[k][0].y < cfg.height && FullRow(cfg, g, m[k][0].y) && m[k] == RowCells(cfg, g, m[k][0].y)
    ensures forall y | 0 <= y < cfg.height && FullRow(cfg, g, y) :: RowCells(cfg, g, y) in FindMatches(cfg, g)
  {
    var m: seq<seq<Cell>> := FindMatches(cfg, g);
    var rows := FullRowsFrom(cfg, g, cfg.height - 1);
    MatchLine(cfg, g, 0);
    forall k | 0 <= k < |m|
      ensures m[k][0].y == rows[k] && m[k] == RowCells(cfg, g, rows[k])
    {
      MatchLine(cfg, g, k);
      RowCellAt(cfg, g, rows[k], 0);
    }
    forall y | 0 <= y < cfg.height && FullRow(cfg, g, y)
      ensures RowCells(cfg, g, y) in m
    {
      var k :| 0 <= k < |rows| && rows[k] == y;
      MatchLine(cfg, g, k);
    }
  }

  /** The rows `find_matches` returns come bottom row first, each once; an empty grid has none. */
  lemma FindMatchesOrdered(cfg: Config, g: Grid)
    requires Shaped(g, cfg) && SelfLocated(g) && cfg.width >= 1
    ensures var m := FindMatches(cfg, g);
      forall a, b | 0 <= a < b < |m| :: m[a][0].y > m[b][0].y
    ensures (forall y, x | 0 <= y < cfg.height && 0 <= x < cfg.width :: g[y][x].None?) ==> FindMatches(cfg, g) == []
  {
    var m: seq<seq<Cell>> := FindMatches(cfg, g);
    var rows := FullRowsFrom(cfg, g, cfg.height - 1);
    MatchLine(cfg, g, 0);
    forall k | 0 <= k < |m|
      ensures m[k][0].y == rows[k]
    {
      MatchLine(cfg, g, k);
      RowCellAt(cfg, g, rows[k], 0);
    }
    if forall y, x | 0 <= y < cfg.height && 0 <= x < cfg.width :: g[y][x].None? {
      forall y | 0 <= y < cfg.height
        ensures !FullRow(cfg, g, y)
      {
        assert g[y][0].None?;
      }
    }
  }

  /** The cell is on the grid. */
  predicate OnGrid(cfg: Config, c: Cell)
  {
    0 <= c.x < cfg.width && 0 <= c.y < cfg.height
  }

  /** Some cell of the list records position (x, y). */
  predicate Hit(cs: seq<Cell>, x: int, y: int)
  {
    exists k | 0 <= k < |cs| :: cs[k].x == x && cs[k].y == y
  }

  /** Some cell of some line records position (x, y). */
  predicate HitLines(lines: seq<seq<Cell>>, x: int, y: int)
  {
    exists k | 0 <= k < |lines| :: Hit(lines[k], x, y)
  }

  /** Empty the slot each listed cell records (`grid[block.y][block.x] = None`). */
  function ClearCells(cfg: Config, g: Grid, cs: seq<Cell>): (r: Grid)
    requires Shaped(g, cfg)
    requires forall k | 0 <= k < |cs| :: OnGrid(cfg, cs[k])
    ensures Shaped(r, cfg)
    ensures forall y, x | 0 <= y < cfg.height && 0 <= x < cfg.width ::
      r[y][x] == if Hit(cs, x, y) then None else g[y][x]
    decreases |cs|
  {
    if cs == [] then g
    else
      var c := cs[0];
      assert OnGrid(cfg, c);
      var r := ClearCells(cfg, g[c.y := g[c.y][c.x := None]], cs[1..]);
      assert forall x, y :: Hit(cs, x, y) <==> (c.x == x && c.y == y) || Hit(cs[1..], x, y) by {
        forall x, y | Hit(cs, x, y)
          ensures (c.x == x && c.y == y) || Hit(cs[1..], x, y)
        {
          var k :| 0 <= k < |cs| && cs[k].x == x && cs[k].y == y;
          if k > 0 {
            assert cs[1..][k - 1] == cs[k];
          }
        }
        forall x, y | Hit(cs[1..], x, y)
          ensures Hit(cs, x, y)
        {
          var k :| 0 <= k < |cs[1..]| && cs[1..][k].x == x && cs[1..][k].y == y;
          assert cs[k + 1] == cs[1..][k];
        }
        assert Hit(cs, c.x, c.y) by {
          assert cs[0] == c;
        }
      }
      r
  }

  /** Empty the slot every cell of every line records. */
  function ClearLines(cfg: Config, g: Grid, lines: seq<seq<Cell>>): (r: Grid)
    requires Shaped(g, cfg)
    requires forall k, i | 0 <= k < |lines| && 0 <= i < |lines[k]| :: OnGrid(cfg, lines[k][i])
    ensures Shaped(r, cfg)
    ensures forall y, x | 0 <= y < cfg.height && 0 <= x < cfg.width ::
      r[y][x] == if HitLines(lines, x, y) then None else g[y][x]
    decreases |lines|
  {
    if lines == [] then g
    else
      var r := ClearLines(cfg, ClearCells(cfg, g, lines[0]), lines[1..]);
      assert forall x, y :: HitLines(lines, x, y) <==> Hit(lines[0], x, y) || HitLines(lines[1..], x, y) by {
        forall x, y | HitLines(lines, x, y)
          ensures Hit(lines[0], x, y) || HitLines(lines[1..], x, y)
        {
          var k :| 0 <= k < |lines| && Hit(lines[k], x, y);
          if k > 0 {
            assert lines[1..][k - 1] == lines[k];
          }
        }
        forall x, y | HitLines(lines[1..], x, y)
          ensures HitLines(lines, x, y)
        {
          var k :| 0 <= k < |lines[1..]| && Hit(lines[1..][k], x, y);
          assert lines[k + 1] == lines[1..][k];
        }
      }
      r
  }

  /** The points a clear of `lines` rows is worth before the combo multiplier: 100, 300, 500, 800, then 800. */
  function BaseScore(lines: int): nat
  {
    if lines == 1 then 100
    else if lines == 2 then 300
    else if lines == 3 then 500
    else 800
  }

  /** The points a clear of `lines` lines earns: the base score times the combo counter. */
  function ClearPoints(lines: int, combo: nat): nat
  {
    BaseScore(lines) * combo
  }

  /** The part of the game a clear changes: the grid, the score and the combo counter. */
  datatype Tally = Tally(grid: Grid, score: nat, combo: nat)

  /**
   * `remove_matches`. An empty list resets the combo and changes nothing else.
   * Otherwise the score rises by the base score for the number of lines times
   * the combo counter as it was before the clear, the counter rises by one,
   * and exactly the slots the matched cells record are emptied.
   */
  function RemoveMatches(cfg: Config, t: Tally, matches: seq<seq<Cell>>): (r: Tally)
    requires Shaped(t.grid, cfg)
    requires forall k, i | 0 <= k < |matches| && 0 <= i < |matches[k]| :: OnGrid(cfg, matches[k][i])
    ensures Shaped(r.grid, cfg)
    ensures matches == [] ==> r == t.(combo := 0)
    ensures matches != [] ==> r.score == t.score + ClearPoints(|matches|, t.combo) && r.combo == t.combo + 1
    ensures forall y, x | 0 <= y < cfg.height && 0 <= x < cfg.width ::
      r.grid[y][x] == if HitLines(matches, x, y) then None else t.grid[y][x]
  {
    if matches == [] then t.(combo := 0)
    else
      Tally(ClearLines(cfg, t.grid, matches), t.score + ClearPoints(|matches|, t.combo), t.combo + 1)
  }

  /**
   * One clear as `place_block` performs it: removing what `find_matches`
   * returns empties exactly the full rows and leaves every other slot alone.
   */
  lemma ClearFullRows(cfg: Config, t: Tally)
    requires Shaped(t.grid, cfg) && SelfLocated(t.grid)
    ensures var r := RemoveMatches(cfg, t, FindMatches(cfg, t.grid));
      forall y, x | 0 <= y < cfg.height && 0 <= x < cfg.width ::
        r.grid[y][x] == if FullRow(cfg, t.grid, y) then None else t.grid[y][x]
  {
    var g := t.grid;
    var m: seq<seq<Cell>> := FindMatches(cfg, g);
    forall y, x | 0 <= y < cfg.height && 0 <= x < cfg.width
      ensures HitLines(m, x, y) <==> FullRow(cfg, g, y)
    {
      if HitLines(m, x, y) {
        HitIsFull(cfg, g, x, y);
      }
      if FullRow(cfg, g, y) {
        FullIsHit(cfg, g, x, y);
      }
    }
  }

  /** The grid with every full row emptied and every other row as it was. */
  function WithoutFullRows(cfg: Config, g: Grid): (r: Grid)
    requires Shaped(g, cfg)
    ensures Shaped(r, cfg)
  {
    seq(cfg.height, y requires 0 <= y < cfg.height =>
      if FullRow(cfg, g, y) then seq(cfg.width, _ => None) else g[y])
  }

  /** Removing what `find_matches` returns is emptying the full rows. */
  lemma ClearsFullRows(cfg: Config, t: Tally)
    requires Shaped(t.grid, cfg) && SelfLocated(t.grid)
    ensures RemoveMatches(cfg, t, FindMatches(cfg, t.grid)).grid == WithoutFullRows(cfg, t.grid)
  {
    var r := RemoveMatches(cfg, t, FindMatches(cfg, t.grid)).grid;
    var e := WithoutFullRows(cfg, t.grid);
    ClearFullRows(cfg, t);
    forall y | 0 <= y < cfg.height
      ensures r[y] == e[y]
    {
      assert forall x | 0 <= x < cfg.width :: r[y][x] == e[y][x];
    }
  }

  /** A slot some matched cell records lies in a full row. */
  lemma HitIsFull(cfg: Config, g: Grid, x: int, y: int)
    requires Shaped(g, cfg) && SelfLocated(g)
    requires HitLines(FindMatches(cfg, g), x, y)
    ensures 0 <= y < cfg.height && FullRow(cfg, g, y)
  {
    var m: seq<seq<Cell>> := FindMatches(cfg, g);
    var rows := FullRowsFrom(cfg, g, cfg.height - 1);
    var k :| 0 <= k < |m| && Hit(m[k], x, y);
    var i :| 0 <= i < |m[k]| && m[k][i].x == x && m[k][i].y == y;
    MatchLine(cfg, g, k);
    RowCellAt(cfg, g, rows[k], i);
  }

  /** Every slot of a full row is recorded by a matched cell. */
  lemma FullIsHit(cfg: Config, g: Grid, x: int, y: int)
    requires Shaped(g, cfg) && SelfLocated(g)
    requires 0 <= y < cfg.height && FullRow(cfg, g, y) && 0 <= x < cfg.width
    ensures HitLines(FindMatches(cfg, g), x, y)
  {
    var m: seq<seq<Cell>> := FindMatches(cfg, g);
    var rows := FullRowsFrom(cfg, g, cfg.height - 1);
    var k :| 0 <= k < |rows| && rows[k] == y;
    MatchLine(cfg, g, k);
    RowCellAt(cfg, g, y, x);
    assert m[k][x].x == x && m[k][x].y == y;
    assert Hit(m[k], x, y);
  }
}
