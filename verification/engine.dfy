/**
 * The game state machine (`Game`): spawning pieces, the player's moves,
 * placing a piece and resolving the lines it completes, pause, restart, the
 * per-frame time and score checks, and the invariant every transition keeps.
 */
module Engine {
  import opened Common
  import opened Shapes
  import opened Board
  import opened Placement
  import opened Lines
  import opened Gravity
  import opened HighScores

  datatype GameState = Playing | Paused | GameOver | Won

  /**
   * Everything a transition reads or writes: the configuration, the grid, the
   * falling and the next piece, score, combo counter, fall interval in ms,
   * state, and the high-score table.
   */
  datatype Game = Game(
    cfg: Config,
    grid: Grid,
    current: Option<Piece>,
    next: Option<Piece>,
    score: nat,
    combo: nat,
    fallSpeed: int,
    state: GameState,
    highScores: seq<ScoreEntry>)

  /** The keys the game reacts to; every other key is `OtherKey`. */
  datatype Key = Left | Right | Down | Up | Space | P | R | OtherKey

  /** One random draw of the spawner: a colour and a shape name. */
  datatype Draw = Draw(color: Color, kind: ShapeKind)

  /** Fall interval while the down key is held. */
  const SoftDropSpeed: int := 50

  /** The name `add_score` records when the clock runs out. */
  const DefaultName: string := "Player"

  /** A piece the spawner made: it has a shape, and the shape is a rectangle with a square in it. */
  predicate PieceOk(o: Option<Piece>)
  {
    o.Some? ==> o.value.shape.Some? && Solid(o.value.shape.value.blocks)
  }

  /**
   * What every game reachable from a start with a width of at least one
   * satisfies: the grid keeps its configured size, every cell records where
   * it is, the pieces are well formed, and the falling piece sits on free
   * slots unless the game is lost (a blocked spawn loses with a falling piece
   * that does not fit).
   */
  predicate Inv(g: Game)
  {
    && Shaped(g.grid, g.cfg)
    && SelfLocated(g.grid)
    && g.cfg.width >= 1
    && PieceOk(g.current)
    && PieceOk(g.next)
    && (g.state != GameOver && g.current.Some? ==> IsValidMove(g.cfg, g.grid, g.current.value, 0, 0))
  }

  /** `reset_game`: an empty grid, no pieces, zero score and combo, the initial fall speed, playing. */
  function Reset(g: Game): (r: Game)
    ensures r.cfg == g.cfg && r.highScores == g.highScores
    ensures r.current.None? && r.next.None? && r.score == 0 && r.combo == 0
    ensures r.fallSpeed == g.cfg.initialFallSpeed && r.state == Playing
    ensures Shaped(r.grid, r.cfg) && forall y, x | 0 <= y < |r.grid| && 0 <= x < |r.grid[y]| :: r.grid[y][x].None?
  {
    Game(g.cfg, EmptyGrid(g.cfg), None, None, 0, 0, g.cfg.initialFallSpeed, Playing, g.highScores)
  }

  /** The game as its constructor leaves it, with the table the high-score file held. */
  function Start(cfg: Config, table: seq<ScoreEntry>): (g: Game)
    ensures cfg.width >= 1 ==> Inv(g)
    ensures g.state == Playing && g.highScores == table
  {
    Reset(Game(cfg, [], None, None, 0, 0, cfg.initialFallSpeed, Playing, table))
  }

  /**
   * With the default configuration a new game has a 20-row, 10-column empty
   * grid, falls a row every 500 ms, satisfies the invariant, and spawns
   * pieces at column 5.
   */
  lemma DefaultStart(table: seq<ScoreEntry>, d: Draw)
    ensures var g := Start(Defaults, table);
      && Inv(g) && |g.grid| == 20 && |g.grid[0]| == 10 && g.fallSpeed == 500
      && Spawn(g.cfg, d).x == 5
  {
  }

  /** A new piece at the spawn point: column `width // 2`, row 0, rotation 0. */
  function Spawn(cfg: Config, d: Draw): (b: Piece)
    ensures b.x == cfg.width / 2 && b.y == 0 && b.color == d.color
    ensures PieceOk(Some(b)) && b.shape.value.rotation == 0
    ensures b.shape.value.blocks == ShapeBlocks(KindName(d.kind))
  {
    Piece(cfg.width / 2, 0, d.color, Some(NewShape(d.color, KindName(d.kind))))
  }

  /**
   * `create_new_block`. Only while playing with no falling piece: the next
   * piece falls (or a piece from the first draw, when there is no next
   * piece yet), a new next piece comes from the second draw, and the game is
   * lost exactly when the new falling piece does not fit where it is.
   */
  function CreateNewBlock(g: Game, first: Draw, second: Draw): (r: Game)
    requires Shaped(g.grid, g.cfg)
    ensures !(g.current.None? && g.state == Playing) ==> r == g
    ensures g.current.None? && g.state == Playing ==>
      && r.current == Some(if g.next.Some? then g.next.value else Spawn(g.cfg, first))
      && r.next == Some(Spawn(g.cfg, second))
      && (r.state == GameOver <==> !IsValidMove(g.cfg, g.grid, r.current.value, 0, 0))
      && (r.state != GameOver ==> r.state == Playing)
      && r == g.(current := r.current, next := r.next, state := r.state)
  {
    if g.current.None? && g.state == Playing then
      var cur := if g.next.Some? then g.next.value else Spawn(g.cfg, first);
      var spawned := g.(current := Some(cur), next := Some(Spawn(g.cfg, second)));
      if !IsValidMove(g.cfg, g.grid, cur, 0, 0) then spawned.(state := GameOver) else spawned
    else g
  }

  /** `toggle_pause`: playing and paused swap; a finished game stays finished. */
  function TogglePause(g: Game): (r: Game)
    ensures r == g.(state := r.state)
    ensures r.state == match g.state
      case Playing => Paused
      case Paused => Playing
      case GameOver => GameOver
      case Won => Won
  {
    if g.state == Playing then g.(state := Paused)
    else if g.state == Paused then g.(state := Playing)
    else g
  }

  /** Pausing twice leaves the game as it was. */
  lemma PauseTwice(g: Game)
    ensures TogglePause(TogglePause(g)) == g
  {
  }

  /** `move_block`: shift the falling piece sideways when the shifted piece fits. */
  function MoveBlock(g: Game, dx: int): (r: Game)
    requires Shaped(g.grid, g.cfg)
    ensures r == g.(current := r.current)
    ensures g.current.Some? && IsValidMove(g.cfg, g.grid, g.current.value, dx, 0) ==>
      r.current == Some(Moved(g.current.value, dx, 0))
    ensures !(g.current.Some? && IsValidMove(g.cfg, g.grid, g.current.value, dx, 0)) ==> r == g
    ensures r.current.Some? && r != g ==> IsValidMove(r.cfg, r.grid, r.current.value, 0, 0)
  {
    if g.current.Some? && IsValidMove(g.cfg, g.grid, g.current.value, dx, 0) then
      ValidMoveShift(g.cfg, g.grid, g.current.value, dx, 0, 0, 0);
      g.(current := Some(Moved(g.current.value, dx, 0)))
    else g
  }

  /**
   * `rotate_block`: turn the falling piece's shape; when the turned piece does
   * not fit, its old pattern is put back but the rotation counter keeps the
   * advance (only the pattern is saved and restored).
   */
  function RotateBlock(g: Game): (r: Game)
    requires Shaped(g.grid, g.cfg)
    requires g.current.Some? ==> g.current.value.shape.Some?
    ensures r == g.(current := r.current)
    ensures g.current.None? ==> r == g
    ensures g.current.Some? ==>
      var b, s := g.current.value, g.current.value.shape.value;
      var turned := b.(shape := Some(Rotate(s)));
      && r.current.Some? && r.current.value.shape.Some?
      && r.current.value.shape.value.rotation == (s.rotation + 90) % 360
      && r.current.value == b.(shape := r.current.value.shape)
      && r.current.value.shape.value.blocks ==
           (if IsValidMove(g.cfg, g.grid, turned, 0, 0) then RotatePattern(s.blocks) else s.blocks)
  {
    if g.current.Some? then
      var b := g.current.value;
      var s := b.shape.value;
      var turned := b.(shape := Some(Rotate(s)));
      if IsValidMove(g.cfg, g.grid, turned, 0, 0) then g.(current := Some(turned))
      else g.(current := Some(b.(shape := Some(Rotate(s).(blocks := s.blocks)))))
    else g
  }

  /**
   * The lines the grid completes, cleared one round after another until no
   * row is full: each round removes what `find_matches` returns, scores it
   * and lets the columns fall. Each round clears at least a row's worth of cells.
   */
  function Resolve(cfg: Config, t: Tally): (r: Tally)
    requires Shaped(t.grid, cfg) && SelfLocated(t.grid) && cfg.width >= 1
    ensures Shaped(r.grid, cfg) && SelfLocated(r.grid)
    ensures NoFullRow(cfg, r.grid)
    ensures NoFullRow(cfg, t.grid) ==> r == t
    ensures !NoFullRow(cfg, t.grid) ==> r.combo > t.combo
    ensures r.score >= t.score && r.combo >= t.combo
    ensures !NoFullRow(cfg, t.grid) && NoFullRow(cfg, ApplyGravity(cfg, WithoutFullRows(cfg, t.grid))) ==>
      r.grid == ApplyGravity(cfg, WithoutFullRows(cfg, t.grid)) && r.combo == t.combo + 1
    decreases Count(t.grid, cfg)
  {
    if NoFullRow(cfg, t.grid) then t
    else Resolve(cfg, ClearRound(cfg, t))
  }

  /**
   * One round of the loop in `place_block` on a grid with a full row:
   * `remove_matches` on what `find_matches` returns, then `apply_gravity`.
   */
  function ClearRound(cfg: Config, t: Tally): (r: Tally)
    requires Shaped(t.grid, cfg) && SelfLocated(t.grid) && cfg.width >= 1
    requires !NoFullRow(cfg, t.grid)
    ensures Shaped(r.grid, cfg) && SelfLocated(r.grid)
    ensures r.combo == t.combo + 1
    ensures r.score == t.score + ClearPoints(|FindMatches(cfg, t.grid)|, t.combo)
    ensures Count(r.grid, cfg) + cfg.width <= Count(t.grid, cfg)
    ensures r.grid == ApplyGravity(cfg, WithoutFullRows(cfg, t.grid))
  {
    var cleared := RemoveMatches(cfg, t, FindMatches(cfg, t.grid));
    ClearedRows(cfg, t);
    ClearsFullRows(cfg, t);
    ApplyGravitySpec(cfg, cleared.grid);
    cleared.(grid := ApplyGravity(cfg, cleared.grid))
  }

  /** Removing what `find_matches` returns from a grid with a full row removes at least a row's worth of cells. */
  lemma ClearedRows(cfg: Config, t: Tally)
    requires Shaped(t.grid, cfg) && SelfLocated(t.grid) && cfg.width >= 1
    requires !NoFullRow(cfg, t.grid)
    ensures var cleared := RemoveMatches(cfg, t, FindMatches(cfg, t.grid));
      SelfLocated(cleared.grid) && Count(cleared.grid, cfg) + cfg.width <= Count(t.grid, cfg)
  {
    var cleared := RemoveMatches(cfg, t, FindMatches(cfg, t.grid));
    ClearFullRows(cfg, t);
    var y0 :| 0 <= y0 < cfg.height && FullRow(cfg, t.grid, y0);
    forall y, x | 0 <= y < cfg.height && 0 <= x < cfg.width && cleared.grid[y][x].Some?
      ensures cleared.grid[y][x] == t.grid[y][x]
    {
    }
    CountAfterClear(t.grid, cleared.grid, cfg, y0, 0);
  }

  /**
   * The cascade as `place_block` runs it: if the first scan finds full rows,
   * clear them and let the columns fall, then repeat until a scan finds none.
   * A scan that finds nothing clears nothing and leaves the combo alone.
   */
  method ResolveLoop(cfg: Config, t: Tally) returns (r: Tally)
    requires Shaped(t.grid, cfg) && SelfLocated(t.grid) && cfg.width >= 1
    ensures r == Resolve(cfg, t)
  {
    r := t;
    var matches := FindMatches(cfg, r.grid);
    if matches != [] {
      r := ClearRound(cfg, r);
      while true
        invariant Shaped(r.grid, cfg) && SelfLocated(r.grid)
        invariant Resolve(cfg, r) == Resolve(cfg, t)
        decreases Count(r.grid, cfg)
      {
        matches := FindMatches(cfg, r.grid);
        if matches == [] {
          break;
        }
        r := ClearRound(cfg, r);
      }
    }
  }

  /**
   * `place_block`: the falling piece becomes cells of its colour, full rows
   * are cleared until none is left, and there is no falling piece any more.
   * If the piece completes no row, the grid only gains its squares and the
   * score and combo stay as they were.
   */
  function PlaceBlock(g: Game): (r: Game)
    requires Shaped(g.grid, g.cfg) && SelfLocated(g.grid) && g.cfg.width >= 1
    requires g.current.Some? ==> InBounds(g.cfg, g.current.value, 0, 0)
    ensures g.current.None? ==> r == g
    ensures g.current.Some? ==>
      && r == g.(grid := r.grid, score := r.score, combo := r.combo, current := None)
      && Shaped(r.grid, r.cfg) && SelfLocated(r.grid) && NoFullRow(r.cfg, r.grid)
      && r.score >= g.score && r.combo >= g.combo
      && var baked := Bake(g.cfg, g.grid, g.current.value);
         && (NoFullRow(g.cfg, baked) ==> r.grid == baked && r.score == g.score && r.combo == g.combo)
         && var t := Resolve(g.cfg, Tally(baked, g.score, g.combo));
            r.grid == t.grid && r.score == t.score && r.combo == t.combo
  {
    if g.current.None? then g
    else
      var baked := Bake(g.cfg, g.grid, g.current.value);
      var t := Resolve(g.cfg, Tally(baked, g.score, g.combo));
      g.(grid := t.grid, score := t.score, combo := t.combo, current := None)
  }

  /**
   * `drop_block`: move the falling piece down a row when it fits there,
   * otherwise place it; the flag says whether it was placed.
   */
  function DropBlock(g: Game): (res: (Game, bool))
    requires Shaped(g.grid, g.cfg) && SelfLocated(g.grid) && g.cfg.width >= 1
    requires g.current.Some? ==> InBounds(g.cfg, g.current.value, 0, 0)
    ensures g.current.None? ==> res == (g, false)
    ensures g.current.Some? && IsValidMove(g.cfg, g.grid, g.current.value, 0, 1) ==>
      res == (g.(current := Some(Moved(g.current.value, 0, 1))), false)
    ensures g.current.Some? && !IsValidMove(g.cfg, g.grid, g.current.value, 0, 1) ==>
      res.1 && res.0 == PlaceBlock(g) && res.0.current.None?
  {
    if g.current.None? then (g, false)
    else if IsValidMove(g.cfg, g.grid, g.current.value, 0, 1) then
      (g.(current := Some(Moved(g.current.value, 0, 1))), false)
    else (PlaceBlock(g), true)
  }

  /**
   * `hard_drop`: move the falling piece down while the row below fits, then
   * place it where it stopped.
   */
  function HardDrop(g: Game): (r: Game)
    requires Shaped(g.grid, g.cfg) && SelfLocated(g.grid) && g.cfg.width >= 1
    requires g.current.Some? ==> HasSquare(g.current.value) && InBounds(g.cfg, g.current.value, 0, 0)
    ensures g.current.None? ==> r == g
    ensures g.current.Some? ==>
      var l := Landing(g.cfg, g.grid, g.current.value);
      && InBounds(g.cfg, l, 0, 0)
      && r == PlaceBlock(g.(current := Some(l)))
      && r.current.None? && NoFullRow(r.cfg, r.grid)
  {
    if g.current.None? then g
    else
      var b := g.current.value;
      var l := Landing(g.cfg, g.grid, b);
      assert InBounds(g.cfg, l, 0, 0) by {
        if l.y > b.y {
          ValidMoveShift(g.cfg, g.grid, b, 0, l.y - b.y, 0, 0);
          assert Moved(b, 0, l.y - b.y) == l;
        }
      }
      PlaceBlock(g.(current := Some(l)))
  }

  /** The game-play keys, acted on only while playing. */
  function GameplayKey(g: Game, k: Key): (r: Game)
    requires Inv(g) && g.state == Playing
    ensures r.cfg == g.cfg && r.state == g.state && r.next == g.next && r.highScores == g.highScores
    ensures k == Down ==> r == g.(fallSpeed := SoftDropSpeed)
    ensures k != Down ==> r.fallSpeed == g.fallSpeed
    ensures k == OtherKey ==> r == g
    ensures k == Left ==> r == MoveBlock(g, -1)
    ensures k == Right ==> r == MoveBlock(g, 1)
    ensures k == Up ==> r == RotateBlock(g)
    ensures k == Space ==> r == HardDrop(g)
  {
    match k
    case Left => MoveBlock(g, -1)
    case Right => MoveBlock(g, 1)
    case Down => g.(fallSpeed := SoftDropSpeed)
    case Up => RotateBlock(g)
    case Space => HardDrop(g)
    case _ => g
  }

  /**
   * A key press (`handle_input` on KEYDOWN): P pauses or resumes, R restarts
   * from any state, and the game-play keys act only while playing.
   */
  function KeyDown(g: Game, k: Key): (r: Game)
    requires Inv(g)
    ensures k == P ==> r == TogglePause(g)
    ensures k == R ==> r == Reset(g)
    ensures k != P && k != R && g.state != Playing ==> r == g
    ensures k != P && k != R && g.state == Playing ==> r == GameplayKey(g, k)
    ensures r.cfg == g.cfg
  {
    if k == P then TogglePause(g)
    else if k == R then Reset(g)
    else if g.state == Playing then GameplayKey(g, k)
    else g
  }

  /** A key release: letting go of the down key while playing restores the initial fall speed. */
  function KeyUp(g: Game, k: Key): (r: Game)
    ensures g.state == Playing && k == Down ==> r == g.(fallSpeed := g.cfg.initialFallSpeed)
    ensures !(g.state == Playing && k == Down) ==> r == g
  {
    if g.state == Playing && k == Down then g.(fallSpeed := g.cfg.initialFallSpeed) else g
  }

  /**
   * The time and score checks at the top of a playing frame. Running out of
   * time loses the game and records the score under the default name;
   * reaching the target then wins it, overriding a loss in the same frame, and
   * records the score under the name the player typed.
   */
  function CheckLimits(g: Game, elapsed: int, name: string, date: string): (r: Game)
    ensures r == g.(state := r.state, highScores := r.highScores)
    ensures g.score >= g.cfg.targetScore ==> r.state == Won
    ensures g.score < g.cfg.targetScore && elapsed >= g.cfg.timeLimit ==> r.state == GameOver
    ensures g.score < g.cfg.targetScore && elapsed < g.cfg.timeLimit ==> r == g
    ensures r.highScores ==
      var lost := if elapsed >= g.cfg.timeLimit
        then AddScore(g.highScores, ScoreEntry(g.score, DefaultName, date)) else g.highScores;
      if g.score >= g.cfg.targetScore then AddScore(lost, ScoreEntry(g.score, name, date)) else lost
  {
    var g1 :=
      if elapsed >= g.cfg.timeLimit then
        g.(state := GameOver, highScores := AddScore(g.highScores, ScoreEntry(g.score, DefaultName, date)))
      else g;
    if g1.score >= g1.cfg.targetScore then
      g1.(state := Won, highScores := AddScore(g1.highScores, ScoreEntry(g1.score, name, date)))
    else g1
  }

  /** What the run loop takes from outside in one frame: clock readings, the typed name, the date and two draws. */
  datatype FrameInput = FrameInput(elapsed: int, delta: int, name: string, date: string, first: Draw, second: Draw)

  /**
   * One pass of the run loop before events are handled. Only while playing:
   * the time and score checks, then the fall timer (the piece drops a row, or
   * lands, once the timer reaches the fall interval, and the timer restarts),
   * then a spawn if there is no falling piece. The result pairs the game with
   * the new timer. A game that reached the target score is won whatever else
   * happens in the frame; one out of time below the target is lost.
   */
  function Frame(g: Game, fallTime: int, input: FrameInput): (res: (Game, int))
    requires Inv(g)
    ensures Inv(res.0) && res.0.cfg == g.cfg
    ensures g.state != Playing ==> res == (g, fallTime)
    ensures g.state == Playing ==>
      && res.1 == (if fallTime + input.delta >= g.fallSpeed then 0 else fallTime + input.delta)
      && res.0.highScores == CheckLimits(g, input.elapsed, input.name, input.date).highScores
      && (g.score >= g.cfg.targetScore ==> res.0.state == Won)
      && (g.score < g.cfg.targetScore && input.elapsed >= g.cfg.timeLimit ==> res.0.state == GameOver)
    ensures g.state == Playing && g.score < g.cfg.targetScore && input.elapsed < g.cfg.timeLimit ==>
      res.0.state == Playing || res.0.state == GameOver
    ensures res.0.state == Playing ==> res.0.current.Some?
    ensures g.state == Playing ==>
      var g1 := CheckLimits(g, input.elapsed, input.name, input.date);
      var due := fallTime + input.delta >= g.fallSpeed;
      && (g.current.None? ==> res.0 == CreateNewBlock(g1, input.first, input.second))
      && (g.current.Some? && !due ==> res.0 == g1)
      && (g.current.Some? && due && IsValidMove(g.cfg, g.grid, g.current.value, 0, 1) ==>
            res.0 == g1.(current := Some(Moved(g.current.value, 0, 1))))
      && (g.current.Some? && due && !IsValidMove(g.cfg, g.grid, g.current.value, 0, 1) ==>
            res.0 == CreateNewBlock(PlaceBlock(g1), input.first, input.second))
  {
    if g.state != Playing then (g, fallTime)
    else
      var g1 := CheckLimits(g, input.elapsed, input.name, input.date);
      LimitsPreserve(g, input.elapsed, input.name, input.date);
      var timer := fallTime + input.delta;
      var g2 := Fall(g1, timer >= g1.fallSpeed);
      CreatePreserves(g2, input.first, input.second);
      var g3 := if g2.current.None? then CreateNewBlock(g2, input.first, input.second) else g2;
      (g3, if timer >= g1.fallSpeed then 0 else timer)
  }

  /** The time and score checks keep the invariant of a game that was playing. */
  lemma LimitsPreserve(g: Game, elapsed: int, name: string, date: string)
    requires Inv(g) && g.state == Playing
    ensures Inv(CheckLimits(g, elapsed, name, date)) && Fits(CheckLimits(g, elapsed, name, date))
  {
  }

  /** The fall-timer step: when it is due and a piece is falling, `drop_block`. */
  function Fall(g: Game, due: bool): (r: Game)
    requires Inv(g) && Fits(g)
    ensures Inv(r) && r.cfg == g.cfg && r.state == g.state && r.highScores == g.highScores
    ensures !(due && g.current.Some?) ==> r == g
  {
    if due && g.current.Some? then
      DropPreserves(g);
      DropBlock(g).0
    else g
  }

  /** The falling piece, if there is one, sits on free slots of the grid. */
  predicate Fits(g: Game)
    requires Shaped(g.grid, g.cfg)
  {
    g.current.Some? ==> IsValidMove(g.cfg, g.grid, g.current.value, 0, 0)
  }

  /** Spawning keeps the invariant: a piece that does not fit ends the game. */
  lemma CreatePreserves(g: Game, first: Draw, second: Draw)
    requires Inv(g)
    ensures Inv(CreateNewBlock(g, first, second))
  {
  }

  /** Pausing and resuming keep the invariant. */
  lemma TogglePreserves(g: Game)
    requires Inv(g)
    ensures Inv(TogglePause(g))
  {
  }

  /** A sideways move keeps the invariant and keeps the piece on free slots. */
  lemma MovePreserves(g: Game, dx: int)
    requires Inv(g) && Fits(g)
    ensures Inv(MoveBlock(g, dx)) && Fits(MoveBlock(g, dx))
  {
  }

  /** Checking a piece at its own position looks only at its position and its pattern. */
  lemma ValidSamePattern(cfg: Config, grid: Grid, a: Piece, b: Piece)
    requires Shaped(grid, cfg)
    requires a.x == b.x && a.y == b.y && a.shape.Some? && b.shape.Some?
    requires a.shape.value.blocks == b.shape.value.blocks
    ensures IsValidMove(cfg, grid, a, 0, 0) <==> IsValidMove(cfg, grid, b, 0, 0)
  {
    var p := a.shape.value.blocks;
    forall i, j | 0 <= i < |p| && 0 <= j < |p[i]| && p[i][j]
      ensures FreeAt(cfg, grid, a, i, j, 0, 0) <==> FreeAt(cfg, grid, b, i, j, 0, 0)
    {
    }
  }

  /** A rotation, accepted or turned back, keeps the invariant and the piece on free slots. */
  lemma RotatePreserves(g: Game)
    requires Inv(g) && Fits(g)
    ensures Inv(RotateBlock(g)) && Fits(RotateBlock(g))
  {
    if g.current.Some? {
      var b := g.current.value;
      var r := RotateBlock(g);
      if r.current.value.shape.value.blocks == b.shape.value.blocks {
        ValidSamePattern(g.cfg, g.grid, b, r.current.value);
      }
    }
  }

  /** Placing the piece keeps the invariant and leaves no falling piece. */
  lemma PlacePreserves(g: Game)
    requires Inv(g) && Fits(g)
    ensures Inv(PlaceBlock(g)) && PlaceBlock(g).current.None?
  {
  }

  /** A timed drop keeps the invariant and the piece on free slots. */
  lemma DropPreserves(g: Game)
    requires Inv(g) && Fits(g)
    ensures Inv(DropBlock(g).0) && Fits(DropBlock(g).0)
  {
    if g.current.Some? {
      ValidMoveShift(g.cfg, g.grid, g.current.value, 0, 1, 0, 0);
    }
  }

  /** A hard drop keeps the invariant and leaves no falling piece. */
  lemma HardDropPreserves(g: Game)
    requires Inv(g) && Fits(g)
    ensures Inv(HardDrop(g)) && HardDrop(g).current.None?
  {
  }

  /** Every key press keeps the invariant. */
  lemma KeyDownPreserves(g: Game, k: Key)
    requires Inv(g)
    ensures Inv(KeyDown(g, k))
  {
    if k != P && k != R && g.state == Playing {
      match k
      case Left => MovePreserves(g, -1);
      case Right => MovePreserves(g, 1);
      case Up => RotatePreserves(g);
      case Space => HardDropPreserves(g);
      case _ =>
    }
  }

  /** Every key release keeps the invariant. */
  lemma KeyUpPreserves(g: Game, k: Key)
    requires Inv(g)
    ensures Inv(KeyUp(g, k))
  {
  }

  /** Pausing freezes the game: only P (resume) and R (restart) do anything, and frames change nothing. */
  lemma PausedFreezes(g: Game, k: Key, fallTime: int, input: FrameInput)
    requires Inv(g) && g.state == Paused
    ensures k != P && k != R ==> KeyDown(g, k) == g
    ensures KeyDown(g, P) == g.(state := Playing)
    ensures KeyUp(g, k) == g
    ensures Frame(g, fallTime, input) == (g, fallTime)
  {
  }

  /** A lost or won game stays as it is until R restarts it. */
  lemma FinishedIsFinal(g: Game, k: Key, fallTime: int, input: FrameInput)
    requires Inv(g) && (g.state == GameOver || g.state == Won)
    ensures k != R ==> KeyDown(g, k) == g
    ensures KeyDown(g, R).state == Playing
    ensures KeyUp(g, k) == g
    ensures Frame(g, fallTime, input) == (g, fallTime)
  {
  }

  /** Holding the down key sets the fall interval to 50 ms; releasing it restores the configured interval. */
  lemma SoftDrop(g: Game)
    requires Inv(g) && g.state == Playing
    ensures KeyDown(g, Down) == g.(fallSpeed := SoftDropSpeed)
    ensures KeyUp(KeyDown(g, Down), Down) == g.(fallSpeed := g.cfg.initialFallSpeed)
  {
  }
}
