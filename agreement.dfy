/**
 * How the solver's snapshot and the live board fit together: the move
 * rule of expand and the move rule of updatePlayer agree on every board
 * whose cells show only the sprites of a level in play, so a solution the
 * solver returns, played on the board, solves it. The start cell of a
 * level is where this can go wrong (see StartCellBlocksSolution).
 * The static deadlock marks are sound: a box on a marked cell never
 * reaches a goal, which is what would make the pruning that expand leaves
 * commented out safe.
 */
module Agreement {
  import opened Wrappers
  import opened MazeTypes
  import opened SearchNode
  import opened SolverRules
  import opened SearchSpace
  import opened SolverSearch
  import opened LiveBoard
  import opened SolverSetup

  // ---------------------------------------------------------------------
  // The solver's view of a grid
  // ---------------------------------------------------------------------

  /** The box cells of g as the solver holds them. */
  function BoxSet(g: Grid): set<Pos> {
    SetOf(CellsOf(g, Boxes))
  }

  lemma BoxSetSpec(g: Grid)
    ensures forall p :: p in BoxSet(g) <==> InGrid(g, p) && BoxAt(g, p)
  {
    CellsOfSpec(g, Boxes);
  }

  /** The configuration the solver sees for grid g with the player on player. */
  function ConfigOf(g: Grid, player: Pos): Config {
    Config(player, BoxSet(g))
  }

  /** The wall and goal lists of b are exactly the walls and goals of g. */
  ghost predicate Encodes(b: Board, g: Grid) {
    && (forall p :: p in b.walls <==> InGrid(g, p) && WallAt(g, p))
    && (forall p :: p in b.goals <==> InGrid(g, p) && GoalAt(g, p))
  }

  /** Only the five sprites of a level in play appear on g. */
  ghost predicate Clean(g: Grid) {
    forall p :: InGrid(g, p) ==> At(g, p) in {GROUND, WALL, BOX, BOX_PLACED, GOAL}
  }

  /**
   * A snapshot taken by Solver::Solver describes the grid it was taken
   * from, and starts from the grid's boxes.
   */
  lemma SnapshotEncodes(b: Board, g: Grid)
    requires b.walls == CellsOf(g, Walls) && b.goals == CellsOf(g, Goals)
    requires b.startBoxes == SetOf(CellsOf(g, Boxes))
    ensures Encodes(b, g) && b.startBoxes == BoxSet(g)
  {
    CellsOfSpec(g, Walls);
    CellsOfSpec(g, Goals);
  }

  /**
   * A region that encloses the player on the grid, and holds the boxes,
   * is a region the solver's searches stay in.
   */
  lemma GridRegionEncloses(b: Board, g: Grid, region: set<Pos>)
    requires Encodes(b, g) && GridEnclosed(g, region)
    requires b.startPlayer in region && b.startBoxes <= region
    ensures Enclosed(b, region)
  {
    forall p, d | p in region && Move(p, d) !in b.walls
      ensures Move(p, d) in region
    {
      assert InGrid(g, Move(p, d));
    }
  }

  // ---------------------------------------------------------------------
  // One move
  // ---------------------------------------------------------------------

  /**
   * A push moves one box of the grid's box set: the one at t leaves, one
   * appears beyond it, and the number of boxes stays the same.
   */
  lemma PushedBoxes(g: Grid, t: Pos, d: Dir)
    requires InGrid(g, t) && InGrid(g, Move(t, d)) && BoxAt(g, t) && PushBoxGrid(g, t, d).Some?
    ensures BoxSet(PushBoxGrid(g, t, d).value) == BoxSet(g) - {t} + {Move(t, d)}
    ensures |BoxSet(PushBoxGrid(g, t, d).value)| == |BoxSet(g)|
  {
    var h := PushBoxGrid(g, t, d).value;
    var u := Move(t, d);
    PushBoxGridSpec(g, t, d);
    BoxSetSpec(g);
    BoxSetSpec(h);
    forall x
      ensures x in BoxSet(h) <==> x in BoxSet(g) - {t} + {u}
    {
      if InGrid(g, x) && x != t && x != u {
        assert At(h, x) == At(g, x);
      }
    }
    assert t in BoxSet(g) && u !in BoxSet(g);
    assert |BoxSet(g) - {t}| == |BoxSet(g)| - 1;
  }

  /** A push on a clean grid keeps it clean and keeps its walls and goals. */
  lemma PushedLayout(b: Board, g: Grid, t: Pos, d: Dir)
    requires Encodes(b, g) && Clean(g)
    requires InGrid(g, t) && InGrid(g, Move(t, d)) && BoxAt(g, t) && PushBoxGrid(g, t, d).Some?
    ensures Encodes(b, PushBoxGrid(g, t, d).value) && Clean(PushBoxGrid(g, t, d).value)
  {
    var h := PushBoxGrid(g, t, d).value;
    PushBoxGridSpec(g, t, d);
    forall p | InGrid(h, p)
      ensures (WallAt(h, p) <==> WallAt(g, p)) && (GoalAt(h, p) <==> GoalAt(g, p))
      ensures At(h, p) in {GROUND, WALL, BOX, BOX_PLACED, GOAL}
    {
      assert InGrid(g, p);
      if p != t && p != Move(t, d) {
        assert At(h, p) == At(g, p);
      }
    }
  }

  /**
   * On a clean grid described by b, updatePlayer moves exactly when
   * expand's rule does, to the same player cell and the same box set, and
   * the grid stays clean and described by b.
   */
  lemma MoveAgrees(b: Board, g: Grid, player: Pos, d: Dir, region: set<Pos>)
    requires Encodes(b, g) && Clean(g) && GridEnclosed(g, region) && player in region
    ensures MoveInBounds(g, player, d)
    ensures MoveGrid(g, player, d).Some? <==> Step(b, ConfigOf(g, player), d).Some?
    ensures MoveGrid(g, player, d).Some? ==>
      var r := MoveGrid(g, player, d).value;
      && Step(b, ConfigOf(g, player), d).value == ConfigOf(r.0, r.1)
      && Encodes(b, r.0) && Clean(r.0)
  {
    MoveStaysEnclosed(g, player, d, region);
    var t := Move(player, d);
    var c := ConfigOf(g, player);
    BoxSetSpec(g);
    assert InGrid(g, t);
    if WallAt(g, t) {
      assert t in b.walls;
    } else if !BoxAt(g, t) {
      assert t !in c.boxes && t !in b.walls;
      WalkRule(b, c, d);
    } else {
      var u := Move(t, d);
      assert t in c.boxes && t !in b.walls;
      assert InGrid(g, u);
      PushBoxGridSpec(g, t, d);
      PushRule(b, c, d);
      SpriteClasses(At(g, u));
      assert u in b.walls <==> WallAt(g, u);
      assert u in c.boxes <==> BoxAt(g, u);
      if PushBoxGrid(g, t, d).Some? {
        PushedBoxes(g, t, d);
        PushedLayout(b, g, t, d);
      }
    }
  }

  // ---------------------------------------------------------------------
  // A list of moves
  // ---------------------------------------------------------------------

  /**
   * Playing a move list the solver's rule accepts on a clean grid
   * described by b ends in the configuration the solver's replay ends in,
   * on a grid still clean and described by b.
   */
  lemma {:induction false} ReplayAgrees(b: Board, g: Grid, player: Pos, moves: seq<Dir>, region: set<Pos>)
    requires Encodes(b, g) && Clean(g) && GridEnclosed(g, region) && player in region
    requires Replay(b, ConfigOf(g, player), moves).Some?
    ensures
      var r := PlayMoves(g, player, moves, region);
      && Replay(b, ConfigOf(g, player), moves).value == ConfigOf(r.0, r.1)
      && Encodes(b, r.0) && Clean(r.0)
    decreases |moves|
  {
    if moves != [] {
      MoveAgrees(b, g, player, moves[0], region);
      MoveStaysEnclosed(g, player, moves[0], region);
      var next := MoveGrid(g, player, moves[0]).value;
      ReplayAgrees(b, next.0, next.1, moves[1..], region);
    }
  }

  /**
   * A solution the solver finds for the snapshot of a clean grid leaves,
   * once played on that grid, no box off a goal: isSolution answers true.
   */
  lemma SolutionSolvesGrid(b: Board, g: Grid, moves: seq<Dir>, region: set<Pos>)
    requires Encodes(b, g) && Clean(g) && GridEnclosed(g, region) && b.startPlayer in region
    requires b.startBoxes == BoxSet(g)
    requires Solves(b, moves)
    ensures NoLooseBox(PlayMoves(g, b.startPlayer, moves, region).0)
  {
    assert StartConfig(b) == ConfigOf(g, b.startPlayer);
    ReplayAgrees(b, g, b.startPlayer, moves, region);
    var r := PlayMoves(g, b.startPlayer, moves, region);
    BoxSetSpec(r.0);
  }

  // ---------------------------------------------------------------------
  // Static deadlocks
  // ---------------------------------------------------------------------

  /** p has a wall of b above or below it and a wall to its left or right. */
  predicate WallCorner(b: Board, p: Pos) {
    && (Move(p, Top) in b.walls || Move(p, Bottom) in b.walls)
    && (Move(p, Left) in b.walls || Move(p, Right) in b.walls)
  }

  /** A cell marked dead on the grid is a corner of b's walls and not one of its goals. */
  lemma DeadCellIsWallCorner(b: Board, g: Grid, p: Pos)
    requires Encodes(b, g) && InGrid(g, p) && DeadCell(g, p)
    ensures WallCorner(b, p) && p !in b.goals
  {
  }

  /** No move takes a box out of a corner: pushing it runs into a wall, reaching its far side means standing in one. */
  lemma CornerBoxStays(b: Board, c: Config, d: Dir, p: Pos)
    requires p in c.boxes && WallCorner(b, p) && c.player !in b.walls
    ensures Step(b, c, d).Some? ==> p in Step(b, c, d).value.boxes
  {
    if Move(c.player, d) == p {
      match d
      case Top =>
      case Bottom =>
      case Left =>
      case Right =>
    }
  }

  /** A box in a corner stays there whatever moves follow. */
  lemma {:induction false} CornerBoxNeverMoves(b: Board, c: Config, moves: seq<Dir>, p: Pos)
    requires p in c.boxes && WallCorner(b, p) && c.player !in b.walls
    ensures Replay(b, c, moves).Some? ==> p in Replay(b, c, moves).value.boxes
    decreases |moves|
  {
    if moves != [] {
      CornerBoxStays(b, c, moves[0], p);
      if Step(b, c, moves[0]).Some? {
        CornerBoxNeverMoves(b, Step(b, c, moves[0]).value, moves[1..], p);
      }
    }
  }

  /**
   * A configuration with a box on a cell the board marks dead has no
   * continuation that puts every box on a goal.
   */
  lemma DeadBoxIsFatal(b: Board, g: Grid, c: Config, p: Pos)
    requires Encodes(b, g) && InGrid(g, p) && DeadCell(g, p)
    requires p in c.boxes && c.player !in b.walls
    ensures forall moves :: !SolvesFrom(b, c, moves)
  {
    DeadCellIsWallCorner(b, g, p);
    forall moves
      ensures !SolvesFrom(b, c, moves)
    {
      CornerBoxNeverMoves(b, c, moves, p);
    }
  }

  // ---------------------------------------------------------------------
  // The start cell
  // ---------------------------------------------------------------------

  /** The characters a level file uses for a level in play. */
  predicate LevelChar(c: char) {
    c in {GROUND, WALL, PLAYER, PLAYER_ON_GOAL, BOX, BOX_PLACED, GOAL}
  }

  /**
   * With the player removed from the board, a level written in level
   * characters gives a clean grid, so MoveAgrees and SolutionSolvesGrid
   * apply to it.
   */
  lemma LevelGridIsClean(lines: seq<string>)
    requires forall i, j :: 0 <= i < |lines| && 0 <= j < |lines[i]| ==> LevelChar(lines[i][j])
    ensures Clean(GridOf(lines))
  {
  }

  /** A level in which the box has to be pushed across the player's start cell. */
  const START_LEVEL: seq<string> := ["######", "#.@$ #", "#    #", "######"]

  /** Walk round the box, then push it twice to the left onto the goal. */
  const START_SOLUTION: seq<Dir> := [Bottom, Right, Right, Top, Left, Left]

  /** The inner cells of START_LEVEL. */
  const START_REGION: set<Pos> := {(1, 1), (1, 2), (1, 3), (1, 4), (2, 1), (2, 2), (2, 3), (2, 4)}

  /**
   * g has the layout of START_LEVEL: four lines of six cells, walls
   * exactly on the border, the goal at (1, 1), the box at (1, 3) and
   * ground on the other inner cells except the start cell (1, 2).
   */
  ghost predicate StartShape(g: Grid) {
    && |g| == 4 && Rectangular(g, 6)
    && (forall p :: InGrid(g, p) ==> (WallAt(g, p) <==> p.0 == 0 || p.0 == 3 || p.1 == 0 || p.1 == 5))
    && (forall p :: InGrid(g, p) ==> (BoxAt(g, p) <==> p == (1, 3)))
    && At(g, (1, 1)) == GOAL && At(g, (1, 3)) == BOX && At(g, (1, 4)) == GROUND
    && At(g, (2, 1)) == GROUND && At(g, (2, 2)) == GROUND && At(g, (2, 3)) == GROUND && At(g, (2, 4)) == GROUND
  }

  lemma StartLevelWidth()
    ensures MaxWidth(START_LEVEL) == 6
  {
    assert START_LEVEL[..3][..2][..1][..0] == [];
  }

  /** Both boards built from START_LEVEL have its layout; they differ on the start cell only. */
  lemma StartLevelShapes()
    ensures StartShape(GridOfAsWritten(START_LEVEL)) && At(GridOfAsWritten(START_LEVEL), (1, 2)) == PLAYER
    ensures StartShape(GridOf(START_LEVEL)) && At(GridOf(START_LEVEL), (1, 2)) == GROUND
  {
    StartLevelWidth();
    AsWrittenShape();
    CorrectedShape();
  }

  lemma AsWrittenShape()
    requires MaxWidth(START_LEVEL) == 6
    ensures StartShape(GridOfAsWritten(START_LEVEL))
  {
    var g := GridOfAsWritten(START_LEVEL);
    forall p | InGrid(g, p)
      ensures (WallAt(g, p) <==> p.0 == 0 || p.0 == 3 || p.1 == 0 || p.1 == 5)
      ensures (BoxAt(g, p) <==> p == (1, 3))
    {
      assert p.0 == 0 || p.0 == 1 || p.0 == 2 || p.0 == 3;
      assert p.1 == 0 || p.1 == 1 || p.1 == 2 || p.1 == 3 || p.1 == 4 || p.1 == 5;
    }
  }

  lemma CorrectedShape()
    requires MaxWidth(START_LEVEL) == 6
    ensures StartShape(GridOf(START_LEVEL))
  {
    var h := GridOf(START_LEVEL);
    forall p | InGrid(h, p)
      ensures (WallAt(h, p) <==> p.0 == 0 || p.0 == 3 || p.1 == 0 || p.1 == 5)
      ensures (BoxAt(h, p) <==> p == (1, 3))
    {
      assert p.0 == 0 || p.0 == 1 || p.0 == 2 || p.0 == 3;
      assert p.1 == 0 || p.1 == 1 || p.1 == 2 || p.1 == 3 || p.1 == 4 || p.1 == 5;
    }
  }

  /** The player character of START_LEVEL is at (1, 2). */
  lemma StartLevelStart()
    ensures StartOf(START_LEVEL) == (1, 2)
  {
    var starts := CellsOf(START_LEVEL, Starts);
    CellsOfSpec(START_LEVEL, Starts);
    assert InGrid(START_LEVEL, (1, 2)) && At(START_LEVEL, (1, 2)) == PLAYER;
    assert (1, 2) in starts;
    forall x | x in starts
      ensures x == (1, 2)
    {
      assert x.0 == 0 || x.0 == 1 || x.0 == 2 || x.0 == 3;
      assert x.1 == 0 || x.1 == 1 || x.1 == 2 || x.1 == 3 || x.1 == 4 || x.1 == 5;
    }
    assert starts[|starts| - 1] in starts;
  }

  /** START_LEVEL is written in level characters only. */
  lemma StartLevelChars()
    ensures forall i, j :: 0 <= i < |START_LEVEL| && 0 <= j < |START_LEVEL[i]| ==> LevelChar(START_LEVEL[i][j])
  {
    forall i, j | 0 <= i < |START_LEVEL| && 0 <= j < |START_LEVEL[i]|
      ensures LevelChar(START_LEVEL[i][j])
    {
      assert i == 0 || i == 1 || i == 2 || i == 3;
      assert j == 0 || j == 1 || j == 2 || j == 3 || j == 4 || j == 5;
    }
  }

  /** START_REGION encloses the player on every grid with the layout of START_LEVEL. */
  lemma StartRegionEncloses(g: Grid)
    requires StartShape(g)
    ensures GridEnclosed(g, START_REGION)
  {
    forall p, d | p in START_REGION
      ensures InGrid(g, Move(p, d)) && (!WallAt(g, Move(p, d)) ==> Move(p, d) in START_REGION)
    {
      assert 1 <= p.0 <= 2 && 1 <= p.1 <= 4;
    }
  }

  /**
   * The board Maze::Maze builds for START_LEVEL keeps the player sprite on
   * the start cell. The solver, given a snapshot of that board, accepts
   * START_SOLUTION as a solution; played on the board, the first push onto
   * the start cell is refused because isFree rejects the player sprite,
   * the second push is refused too, and the box is left off its goal.
   */
  lemma StartCellBlocksSolution(b: Board)
    requires b.walls == CellsOf(GridOfAsWritten(START_LEVEL), Walls)
    requires b.goals == CellsOf(GridOfAsWritten(START_LEVEL), Goals)
    requires b.startBoxes == SetOf(CellsOf(GridOfAsWritten(START_LEVEL), Boxes))
    requires b.startPlayer == StartOf(START_LEVEL)
    ensures GridEnclosed(GridOfAsWritten(START_LEVEL), START_REGION) && b.startPlayer in START_REGION
    ensures Solves(b, START_SOLUTION)
    ensures !NoLooseBox(PlayMoves(GridOfAsWritten(START_LEVEL), b.startPlayer, START_SOLUTION, START_REGION).0)
  {
    var g := GridOfAsWritten(START_LEVEL);
    StartLevelShapes();
    StartLevelStart();
    StartRegionEncloses(g);
    SnapshotEncodes(b, g);
    StartSolutionReplays(b, g);
    StartSolutionRefused(g);
  }

  /** On a snapshot of a grid with the layout of START_LEVEL, START_SOLUTION solves the level. */
  lemma StartSolutionReplays(b: Board, g: Grid)
    requires StartShape(g)
    requires Encodes(b, g) && b.startBoxes == BoxSet(g) && b.startPlayer == (1, 2)
    ensures Solves(b, START_SOLUTION)
  {
    StartBoxes(g);
    assert (1, 1) in b.goals;
    assert forall p :: p in START_REGION ==> p !in b.walls;
    StartReplay(b);
  }

  /** The only box of a grid with the layout of START_LEVEL is at (1, 3). */
  lemma StartBoxes(g: Grid)
    requires StartShape(g)
    ensures BoxSet(g) == {(1, 3)}
  {
    BoxSetSpec(g);
    assert InGrid(g, (1, 3));
  }

  /** The moves of START_SOLUTION, one by one, on a board with the inner cells of START_LEVEL free. */
  lemma StartReplay(b: Board)
    requires b.startPlayer == (1, 2) && b.startBoxes == {(1, 3)} && (1, 1) in b.goals
    requires forall p :: p in START_REGION ==> p !in b.walls
    ensures Solves(b, START_SOLUTION)
  {
    var c0 := Config((1, 2), {(1, 3)});
    var c4 := Config((1, 4), {(1, 3)});
    var c5 := Config((1, 3), {(1, 2)});
    var c6 := Config((1, 2), {(1, 1)});
    assert (1, 1) in START_REGION && (1, 2) in START_REGION && (1, 4) in START_REGION;
    assert (2, 2) in START_REGION && (2, 3) in START_REGION && (2, 4) in START_REGION;
    assert Step(b, c5, Left) == Some(c6);
    assert Step(b, c4, Left) == Some(c5);
    assert Replay(b, c4, [Left, Left]) == Some(c6);
    assert Step(b, Config((2, 4), {(1, 3)}), Top) == Some(c4);
    assert Step(b, Config((2, 3), {(1, 3)}), Right) == Some(Config((2, 4), {(1, 3)}));
    assert Step(b, Config((2, 2), {(1, 3)}), Right) == Some(Config((2, 3), {(1, 3)}));
    assert Step(b, c0, Bottom) == Some(Config((2, 2), {(1, 3)}));
    assert Replay(b, c0, START_SOLUTION) == Some(c6);
  }

  /**
   * On the board built as written, START_SOLUTION walks the player to
   * (1, 4) and then has both pushes refused: the box stays on (1, 3).
   */
  lemma StartSolutionRefused(g: Grid)
    requires StartShape(g) && At(g, (1, 2)) == PLAYER
    ensures GridEnclosed(g, START_REGION)
    ensures PlayMoves(g, (1, 2), START_SOLUTION, START_REGION) == (g, (1, 4))
    ensures !NoLooseBox(g)
  {
    StartRegionEncloses(g);
    assert MoveGrid(g, (1, 4), Left) == None;
    assert PlayMoves(g, (1, 4), [Left, Left], START_REGION) == (g, (1, 4));
    assert MoveGrid(g, (2, 4), Top) == Some((g, (1, 4)));
    assert MoveGrid(g, (2, 3), Right) == Some((g, (2, 4)));
    assert MoveGrid(g, (2, 2), Right) == Some((g, (2, 3)));
    assert MoveGrid(g, (1, 2), Bottom) == Some((g, (2, 2)));
    assert InGrid(g, (1, 3)) && At(g, (1, 3)) == BOX;
  }

  /**
   * On the board built with the player removed from its start cell, the
   * same solution solves the level once played.
   */
  lemma StartCellCorrected(b: Board)
    requires b.walls == CellsOf(GridOf(START_LEVEL), Walls)
    requires b.goals == CellsOf(GridOf(START_LEVEL), Goals)
    requires b.startBoxes == SetOf(CellsOf(GridOf(START_LEVEL), Boxes))
    requires b.startPlayer == StartOf(START_LEVEL)
    ensures GridEnclosed(GridOf(START_LEVEL), START_REGION) && b.startPlayer in START_REGION
    ensures Solves(b, START_SOLUTION)
    ensures NoLooseBox(PlayMoves(GridOf(START_LEVEL), b.startPlayer, START_SOLUTION, START_REGION).0)
  {
    var g := GridOf(START_LEVEL);
    StartLevelShapes();
    StartLevelStart();
    StartRegionEncloses(g);
    SnapshotEncodes(b, g);
    StartSolutionReplays(b, g);
    StartLevelChars();
    LevelGridIsClean(START_LEVEL);
    SolutionSolvesGrid(b, g, START_SOLUTION, START_REGION);
  }
}
