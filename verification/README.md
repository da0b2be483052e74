# Teratis game engine in Dafny

Teratis is a falling-block puzzle game written in Python with pygame. This
project models the integer-only engine behind it (`Teratis.py`):

- the five piece shapes and their quarter-turn rotation (`BlockShape`);
- the check every move goes through (`is_valid_move`);
- the moves that use that check: sideways move, rotation with rollback,
  timed drop and hard drop;
- line resolution. `find_matches` collects the full rows from the bottom up.
  `remove_matches` scores them with the combo multiplier and empties them.
  `apply_gravity` compacts every column downwards;
- `place_block`, which bakes the piece into the grid and repeats clearing and
  gravity until no row is full;
- the game state machine: reset, spawning, pause, the key handlers, and the
  per-frame time and score checks;
- the high-score table update (`add_score`).

Each source operation is a pure Dafny function, or a method when the source
runs a loop worth checking. Three loops are written as the source runs them:
the nested scan of `is_valid_move`, the column compaction of `apply_gravity`
and the clear cascade of `place_block`. Each is proved equal to a declarative
reference definition.

Modules, one file each:

| file | module | content |
|---|---|---|
| common.dfy | `Common` | `Option`, the five colours |
| shapes.dfy | `Shapes` | shape table, rotation, `BlockShape` |
| board.dfy | `Board` | cells, the grid, `GameConfig`, column views and cell counts |
| placement.dfy | `Placement` | falling piece, `is_valid_move`, baking a piece, hard-drop landing |
| lines.dfy | `Lines` | `find_matches`, `remove_matches`, scoring |
| gravity.dfy | `Gravity` | `apply_gravity` |
| highscores.dfy | `HighScores` | `add_score` |
| engine.dfy | `Engine` | the `Game` record, its transitions and the invariant they keep |

Things the model makes explicit:

- A cell that `apply_gravity` moves has its recorded row rewritten. A cell
  that stays where it is keeps its own record.
- A rotation the grid rejects gets its old pattern back, but the rotation
  counter keeps the 90-degree advance.
- `place_block` calls `remove_matches` only when a scan finds full rows. A
  placement that completes no row therefore leaves the combo counter
  untouched, and only `reset_game` sets the counter back to 0.
- Each clear scores the base points times the combo counter as it was
  before that clear. So the first clear after a reset scores nothing.
- The time check runs before the score check in the same frame. A game that
  reaches the target as the clock runs out therefore ends as won. In that
  frame the table receives two entries: one under the default name "Player"
  and one under the typed name.
- `rotate` uses `zip`, which cuts a ragged pattern to its shortest row. The
  properties about rotation assume a rectangular pattern, and every table
  pattern is one.

The invariant `Engine.Inv` holds in every game reachable from
`Engine.Start` with a grid width of at least 1, and every transition keeps
it:

- the grid has the configured height and width;
- every stored cell records its own column and row;
- both pieces have a rectangular shape with at least one square;
- unless the game is lost, the falling piece sits on free slots inside the
  grid. A lost game is exempt because a blocked spawn loses with a falling
  piece that does not fit. The exemption covers a loss on time as well.

## Model

| member | source | states |
|---|---|---|
| `Shapes.ShapeBlocks` | Teratis.py:301-309 | Every shape name, known or not, yields a rectangular pattern with at least one occupied square. A name outside I, L, T, S, O yields the single-square pattern |
| `Shapes.NewShape` | Teratis.py:295-299 | A new shape starts at rotation 0 with a well-formed pattern |
| `Shapes.RotateShape` | Teratis.py:311-314 | Rotating an r-by-c rectangle gives a c-by-r rectangle whose square (j, i) is the original square (r-1-i, j) |
| `Shapes.RotateSquares` | Teratis.py:311-314 | Rotation keeps the number of occupied squares (it is a bijection on squares) |
| `Shapes.RotateFourTimes` | Teratis.py:311-314 | Four quarter turns give back the original pattern |
| `Shapes.Rotate` | Teratis.py:311-314 | The counter stays in [0, 360); colour and name are kept; a well-formed pattern stays well-formed with as many squares |
| `Shapes.RotateCycle` | Teratis.py:311-314 | Four rotations restore the whole shape, counter included, from any reachable angle |
| `Board.EmptyGrid` | Teratis.py:348-351 | The fresh grid has the configured height and width, and every slot is empty |
| `Board.CountAfterClear` | Teratis.py:532-534 | Emptying slots never adds cells; emptying a full row removes at least `width` cells |
| `Placement.CheckMove` | Teratis.py:386-404 | The scan with early returns answers true exactly when the piece has a shape and every occupied square, shifted, lies on the grid on an empty slot; the redundant `new_y >= 0` guard changes nothing |
| `Placement.ValidMoveShift` | Teratis.py:290-291 | Checking a piece moved by (dx, dy) at offset e is checking the original at offset (dx, dy) + e |
| `Placement.Bake` | Teratis.py:469-477 | Every occupied square becomes a cell of the piece's colour that records its own position; all other slots are unchanged; the grid keeps its size |
| `Placement.Landing` | Teratis.py:440-444 | The hard-drop loop stops on a position whose next row down is invalid; every row passed was valid; a valid start gives a valid landing |
| `Lines.FindMatches` | Teratis.py:504-519 | The result is empty exactly when no row is full; every line holds `width` cells |
| `Lines.FindMatchesExact` | Teratis.py:504-519 | Every returned line is the cells of a full row, and every full row's cells are returned |
| `Lines.FindMatchesOrdered` | Teratis.py:506 | Lines come bottom row first, each row once; an empty grid has no matches |
| `Lines.RemoveMatches` | Teratis.py:521-534 | Empty list: only the combo resets to 0. Otherwise: the score rises by base(lines) × combo-before, the combo rises by one, and exactly the recorded slots are emptied |
| `Lines.ClearFullRows` | Teratis.py:478-481 | Removing what `find_matches` returns empties exactly the full rows and leaves every other slot as it was |
| `Lines.ClearsFullRows` | Teratis.py:478-481 | The grid after removing what `find_matches` returns is the reference grid with the full rows emptied (`Lines.WithoutFullRows`) |
| `Gravity.CompactColumn` | Teratis.py:546-556 | The source's bottom-up scan with its `empty_y` cursor yields the reference settled column |
| `Gravity.ApplyGravity` | Teratis.py:544-556 | Each column of the result is that column of the input, settled on its own |
| `Gravity.ApplyGravityInPlace` | Teratis.py:544-556 | Compacting the columns in place, left to right, gives the reference result |
| `Gravity.SettleSpec` | Teratis.py:546-556 | Settling keeps a column's cells in order, with their column and colour; a moved cell records its new row |
| `Gravity.ApplyGravitySpec` | Teratis.py:544-556 | No column has a gap below a cell; every column keeps its cells in order, the k-th from the bottom landing k rows from the bottom; cells keep recording their positions; the cell count is unchanged |
| `HighScores.InsertPerm` | Teratis.py:785 | One insertion step of the sort adds the new entry and keeps every old entry |
| `HighScores.InsertSorted` | Teratis.py:785 | One insertion step keeps a table in non-increasing score order |
| `HighScores.InsertPosition` | Teratis.py:785 | On an ordered table, the entry goes in right after the entries that score at least as much |
| `HighScores.SortDesc` | Teratis.py:785 | The sorted table is a permutation of the input, in non-increasing score order |
| `HighScores.SortStable` | Teratis.py:785 | The sort is stable: for every score, the entries with that score keep their relative order |
| `HighScores.SortSorted` | Teratis.py:785 | A table that is already in order is left unchanged |
| `HighScores.AddScore` | Teratis.py:781-787 | The table ends with min(10, n+1) entries in non-increasing order, each one from the old table or the new entry |
| `HighScores.AddScoreKeepsBest` | Teratis.py:785-786 | The kept entries are a prefix of the sorted table, and nothing cut off outscores anything kept |
| `HighScores.AddScoreSorted` | Teratis.py:781-787 | On an ordered table the new entry goes just after every entry scoring at least as much; it stays when fewer than ten entries score that much, and otherwise the table keeps its first ten entries unchanged |
| `HighScores.AddScoreStable` | Teratis.py:781-785 | The new entry goes after the older entries with the same score |
| `Engine.Reset` | Teratis.py:347-358 | A full-size empty grid, no pieces, zero score and combo, the initial fall speed, playing; the configuration and the table are kept |
| `Engine.DefaultStart` | Teratis.py:230-236 | With the default configuration a new game has a 20 × 10 empty grid and a 500 ms fall interval, satisfies the invariant, and spawns pieces at column 5 |
| `Engine.Start` | Teratis.py:326-345 | A new game is playing, holds the loaded table and satisfies the invariant |
| `Engine.Spawn` | Teratis.py:365-378 | A spawned piece is at column width // 2 and row 0 with rotation 0, carries the table pattern for its name, and is well formed |
| `Engine.CreateNewBlock` | Teratis.py:360-384 | Only when playing without a falling piece: the next piece (or a fresh one) falls, a fresh next piece is made, and the game is lost exactly when the new falling piece does not fit |
| `Engine.TogglePause` | Teratis.py:430-434 | Playing and paused swap; a finished game is unchanged |
| `Engine.PauseTwice` | Teratis.py:430-434 | Pausing twice is the identity |
| `Engine.MoveBlock` | Teratis.py:436-438 | The piece moves exactly when the moved piece fits; a moved piece sits on free slots |
| `Engine.RotateBlock` | Teratis.py:447-452 | The counter always advances by 90 modulo 360; the pattern is the rotated one if that fits and the old one otherwise; position and colour are kept |
| `Engine.ClearRound` | Teratis.py:479-482 | One clear round's grid is the grid with its full rows emptied and then every column settled (`Gravity.ApplyGravity` of `Lines.WithoutFullRows`). The round adds base(lines) × the old combo to the score and raises the combo by one. It removes at least `width` cells and keeps cells recording their positions |
| `Engine.Resolve` | Teratis.py:478-489 | Afterwards no row is full. A grid with no full row is left unchanged. Otherwise the combo rises. When one round leaves no full row, the result is that round's grid: full rows emptied, then columns settled. The cascade ends because every round removes cells (`Engine.ClearRound`) |
| `Engine.ResolveLoop` | Teratis.py:478-489 | The source's first-scan-then-`while True` loop computes the reference cascade |
| `Engine.PlaceBlock` | Teratis.py:465-491 | No falling piece and no full row remain. Score and combo never fall. A placement that completes no row only adds the piece's cells and leaves score and combo as they were. Otherwise grid, score and combo are those the cascade (`Engine.Resolve`) reaches from the baked grid |
| `Engine.DropBlock` | Teratis.py:454-463 | The piece moves down a row when that fits; otherwise it is placed and the flag is true |
| `Engine.HardDrop` | Teratis.py:440-445 | The piece is placed at its landing position, which lies on the grid; no falling piece and no full row remain |
| `Engine.GameplayKey` | Teratis.py:418-428 | Left and Right are `move_block` by -1 and +1, Up is `rotate_block`, Space is the hard drop. Down sets the fall interval to 50 ms, and the other keys leave it alone. Unknown keys change nothing. State, next piece and table are untouched |
| `Engine.KeyDown` | Teratis.py:406-428 | P toggles pause and R resets in any state. Every other key does nothing unless playing, and while playing it acts as `Engine.GameplayKey` |
| `Engine.KeyUp` | Teratis.py:414-416 | Releasing Down while playing restores the configured fall interval; any other release changes nothing |
| `Engine.CheckLimits` | Teratis.py:646-656 | Time up gives a loss, and reaching the target gives a win that overrides it. Each outcome adds its own table entry. Below target with time left, nothing changes |
| `Engine.Frame` | Teratis.py:644-667 | Nothing happens unless playing. The fall timer restarts when it reaches the fall interval and otherwise accumulates. Reaching the target wins the game even if the same frame's drop or spawn follows. Running out of time below the target loses it. With neither limit reached the game stays playing or is lost on a blocked spawn. A playing game afterwards has a falling piece. Without a falling piece the frame spawns one. With one and the timer not due, only the limit checks act. With the timer due, the piece drops a row if that fits, and otherwise it is placed and a new piece spawns. Every frame keeps the invariant |
| `Engine.CreatePreserves` | Teratis.py:360-384 | Spawning keeps the invariant |
| `Engine.TogglePreserves` | Teratis.py:430-434 | Pausing keeps the invariant |
| `Engine.MovePreserves` | Teratis.py:436-438 | A sideways move keeps the invariant and keeps the piece on free slots |
| `Engine.RotatePreserves` | Teratis.py:447-452 | A rotation, accepted or rolled back, keeps the invariant and keeps the piece on free slots |
| `Engine.PlacePreserves` | Teratis.py:465-491 | Placing keeps the invariant |
| `Engine.DropPreserves` | Teratis.py:454-463 | A timed drop keeps the invariant and keeps the piece on free slots |
| `Engine.HardDropPreserves` | Teratis.py:440-445 | A hard drop keeps the invariant |
| `Engine.KeyDownPreserves` | Teratis.py:406-428 | Every key press keeps the invariant |
| `Engine.KeyUpPreserves` | Teratis.py:414-416 | Every key release keeps the invariant |
| `Engine.PausedFreezes` | Teratis.py:406-416 | While paused, only P (resume) and R (restart) change anything, and frames do nothing |
| `Engine.FinishedIsFinal` | Teratis.py:406-416 | A lost or won game changes only through R, which starts a new game |
| `Engine.SoftDrop` | Teratis.py:414-424 | Pressing Down sets the fall interval to 50 ms; releasing it restores the configured interval |

## Left out

- Rendering, particles, sounds, the game-over animation and window setup: they do not affect the engine state.
- The random choice of colour and shape: `Engine.CreateNewBlock` takes the two draws it would make as parameters (`Draw`).
- The clock and the event loop. Elapsed seconds and the frame's tick are parameters of `Engine.Frame` (`FrameInput`), so `start_time` is not stored. Key events are passed one at a time to `Engine.KeyDown` and `Engine.KeyUp`. The window-close event is not modelled.
- Name entry (`get_player_name`): the typed name is a parameter of `Engine.CheckLimits`.
- The date string and the JSON file behind the high-score table. The date is a parameter. The loaded table is a parameter of `Engine.Start`. Saving is not modelled.
- `BlockShape.restart`: nothing calls it.
- `UIManager.restart_game`: the won screen's drawing code (Teratis.py:223-226) calls this method, which is not defined, whenever R is held while that screen is drawn. One way is a typed name ending in "r" with Enter pressed before the key is released. The call would raise an `AttributeError` and crash the game. Drawing is not modelled, so neither is this crash.
- The `matched` flag of `Block`: the engine never reads it.
- Piece colours are kept as the names of the five palette entries. The RGB triples only matter for drawing.
- Engine.PlaceBlock, Engine.DropBlock, Engine.HardDrop: they require the falling piece to lie on the grid. The invariant guarantees it while playing. Off the grid, Python's negative indices would wrap to the other side.
- Engine.Resolve, Engine.PlaceBlock: they require a width of at least 1. With width 0 every row counts as full and the source cascade never ends.
- Engine.RotateBlock: it requires the falling piece to have a shape; the source would raise an error otherwise.
- Engine.HardDrop: it requires the pattern to have an occupied square. With an empty pattern the source's drop loop never ends.
- Engine.CheckLimits: it covers the limit checks only. `Engine.Frame` runs it only while playing, as the run loop does.
