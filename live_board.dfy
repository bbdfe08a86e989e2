/**
 * The live board of Maze.cpp as pure rules on a sprite grid: the cell
 * lookups, the row-major scans that feed the solver, the static deadlock
 * marks, the grid built from the lines of a level, and the move rule of
 * pushBox and updatePlayer. The Maze class keeps such a grid and
 * updates it in place by these rules.
 */
module LiveBoard {
  import opened Wrappers
  import opened MazeTypes
  import opened SearchNode

  /** The sprite grid: one line of sprites per board line. */
  type Grid = seq<seq<char>>

  predicate InGrid(g: Grid, p: Pos) {
    0 <= p.0 < |g| && 0 <= p.1 < |g[p.0]|
  }

  /** Every line of g has col cells. */
  predicate Rectangular(g: Grid, col: int) {
    forall i :: 0 <= i < |g| ==> |g[i]| == col
  }

  function At(g: Grid, p: Pos): char
    requires InGrid(g, p)
  {
    g[p.0][p.1]
  }

  // ---------------------------------------------------------------------
  // Cell lookups: Maze::isWall, isBox, isGoal, isFree
  // ---------------------------------------------------------------------

  predicate WallSprite(s: char) {
    s == WALL
  }

  predicate BoxSprite(s: char) {
    s == BOX || s == BOX_PLACED
  }

  predicate GoalSprite(s: char) {
    s == GOAL || s == BOX_PLACED
  }

  predicate FreeSprite(s: char) {
    s == GROUND || s == GOAL
  }

  predicate WallAt(g: Grid, p: Pos)
    requires InGrid(g, p)
  {
    WallSprite(At(g, p))
  }

  predicate BoxAt(g: Grid, p: Pos)
    requires InGrid(g, p)
  {
    BoxSprite(At(g, p))
  }

  predicate GoalAt(g: Grid, p: Pos)
    requires InGrid(g, p)
  {
    GoalSprite(At(g, p))
  }

  predicate FreeAt(g: Grid, p: Pos)
    requires InGrid(g, p)
  {
    FreeSprite(At(g, p))
  }

  /**
   * How the four lookups partition the sprites: a wall is neither a box,
   * a goal nor free; a free cell holds no box; a cell is both a box and a
   * goal exactly when it shows a placed box. Any other sprite (the player
   * sprite, OUTSIDE, stray characters) is none of wall, box and free.
   */
  lemma SpriteClasses(s: char)
    ensures WallSprite(s) ==> !BoxSprite(s) && !GoalSprite(s) && !FreeSprite(s)
    ensures FreeSprite(s) ==> !BoxSprite(s)
    ensures BoxSprite(s) && GoalSprite(s) <==> s == BOX_PLACED
    ensures !WallSprite(s) && !BoxSprite(s) && !FreeSprite(s) <==> s !in {WALL, BOX, BOX_PLACED, GROUND, GOAL}
  {
  }

  /** Maze::isSolution on a grid: no cell shows a box off its goal. */
  ghost predicate NoLooseBox(g: Grid) {
    forall p :: InGrid(g, p) ==> At(g, p) != BOX
  }

  /** The level is solved exactly when every box on the grid stands on a goal. */
  lemma NoLooseBoxMeansBoxesOnGoals(g: Grid)
    ensures NoLooseBox(g) <==> forall p :: InGrid(g, p) && BoxAt(g, p) ==> GoalAt(g, p)
  {
  }

  // ---------------------------------------------------------------------
  // Row-major scans: Maze::getBoxes, Maze::getGoals
  // ---------------------------------------------------------------------

  /** What a scan collects. */
  datatype Kind = Walls | Boxes | Goals | Starts

  predicate Matches(s: char, k: Kind) {
    match k
    case Walls => WallSprite(s)
    case Boxes => BoxSprite(s)
    case Goals => GoalSprite(s)
    case Starts => s == PLAYER || s == PLAYER_ON_GOAL
  }

  /** The cells (i, 0) .. (i, j - 1) of kind k, left to right. */
  function RowCells(g: Grid, i: int, j: int, k: Kind): seq<Pos>
    requires 0 <= i < |g| && 0 <= j <= |g[i]|
    decreases j
  {
    if j == 0 then []
    else RowCells(g, i, j - 1, k) + (if Matches(g[i][j - 1], k) then [(i, j - 1)] else [])
  }

  /** The cells of kind k in lines 0 .. n - 1, line by line. */
  function ScanRows(g: Grid, n: int, k: Kind): seq<Pos>
    requires 0 <= n <= |g|
    decreases n
  {
    if n == 0 then [] else ScanRows(g, n - 1, k) + RowCells(g, n - 1, |g[n - 1]|, k)
  }

  /** All cells of kind k in row-major order. */
  function CellsOf(g: Grid, k: Kind): seq<Pos> {
    ScanRows(g, |g|, k)
  }

  lemma {:induction false} RowCellsSpec(g: Grid, i: int, j: int, k: Kind)
    requires 0 <= i < |g| && 0 <= j <= |g[i]|
    ensures forall p :: p in RowCells(g, i, j, k) <==> p.0 == i && 0 <= p.1 < j && Matches(g[i][p.1], k)
    ensures StrictlyAscending(RowCells(g, i, j, k))
    decreases j
  {
    if j > 0 {
      RowCellsSpec(g, i, j - 1, k);
      var s := RowCells(g, i, j - 1, k);
      var t := if Matches(g[i][j - 1], k) then [(i, j - 1)] else [];
      forall a, b | 0 <= a < b < |s + t|
        ensures PosLess((s + t)[a], (s + t)[b])
      {
        if b >= |s| {
          assert (s + t)[b] == (i, j - 1);
          if a < |s| {
            assert s[a] in s;
          }
        }
      }
    }
  }

  lemma {:induction false} ScanRowsSpec(g: Grid, n: int, k: Kind)
    requires 0 <= n <= |g|
    ensures forall p :: p in ScanRows(g, n, k) <==> 0 <= p.0 < n && InGrid(g, p) && Matches(At(g, p), k)
    ensures StrictlyAscending(ScanRows(g, n, k))
    ensures forall p :: p in ScanRows(g, n, k) ==> p.0 < n
    decreases n
  {
    if n > 0 {
      ScanRowsSpec(g, n - 1, k);
      RowCellsSpec(g, n - 1, |g[n - 1]|, k);
      var s := ScanRows(g, n - 1, k);
      var t := RowCells(g, n - 1, |g[n - 1]|, k);
      forall a, b | 0 <= a < b < |s + t|
        ensures PosLess((s + t)[a], (s + t)[b])
      {
        if a < |s| && b >= |s| {
          assert s[a] in s;
          assert t[b - |s|] in t;
        } else if a >= |s| {
          assert (s + t)[a] == t[a - |s|] && (s + t)[b] == t[b - |s|];
        }
      }
    }
  }

  /**
   * A scan lists exactly the cells of its kind, each once, in row-major
   * order. A placed box is both a box and a goal, so it is in both lists.
   */
  lemma CellsOfSpec(g: Grid, k: Kind)
    ensures forall p :: p in CellsOf(g, k) <==> InGrid(g, p) && Matches(At(g, p), k)
    ensures StrictlyAscending(CellsOf(g, k))
    ensures forall p :: InGrid(g, p) && At(g, p) == BOX_PLACED ==> p in CellsOf(g, Boxes) && p in CellsOf(g, Goals)
  {
    ScanRowsSpec(g, |g|, k);
    ScanRowsSpec(g, |g|, Boxes);
    ScanRowsSpec(g, |g|, Goals);
  }

  // ---------------------------------------------------------------------
  // Static deadlocks: Maze::computeStaticDeadlocks
  // ---------------------------------------------------------------------

  /** The neighbour of p in direction d is a wall of the grid; cells off the grid are not walls. */
  predicate WallNear(g: Grid, p: Pos, d: Dir) {
    InGrid(g, Move(p, d)) && WallAt(g, Move(p, d))
  }

  /** Two perpendicular wall neighbours. */
  predicate Corner(g: Grid, p: Pos) {
    || (WallNear(g, p, Top) && WallNear(g, p, Left))
    || (WallNear(g, p, Top) && WallNear(g, p, Right))
    || (WallNear(g, p, Bottom) && WallNear(g, p, Left))
    || (WallNear(g, p, Bottom) && WallNear(g, p, Right))
  }

  /** A cell a box can never leave and that is not a goal. */
  predicate DeadCell(g: Grid, p: Pos)
    requires InGrid(g, p)
  {
    !WallAt(g, p) && !GoalAt(g, p) && Corner(g, p)
  }

  /** `marks` has the shape of g and marks exactly its dead cells. */
  ghost predicate DeadlocksOf(g: Grid, marks: seq<seq<bool>>) {
    && |marks| == |g|
    && (forall i :: 0 <= i < |g| ==> |marks[i]| == |g[i]|)
    && (forall p :: InGrid(g, p) ==> marks[p.0][p.1] == DeadCell(g, p))
  }

  /** Same walls and same goals, cell by cell. */
  ghost predicate SameLayout(g: Grid, h: Grid) {
    && |g| == |h|
    && (forall i :: 0 <= i < |g| ==> |g[i]| == |h[i]|)
    && (forall p :: InGrid(g, p) ==> (WallAt(g, p) <==> WallAt(h, p)) && (GoalAt(g, p) <==> GoalAt(h, p)))
  }

  /** The deadlock marks depend on the walls and goals only. */
  lemma DeadlocksFollowLayout(g: Grid, h: Grid, marks: seq<seq<bool>>)
    requires SameLayout(g, h) && DeadlocksOf(g, marks)
    ensures DeadlocksOf(h, marks)
  {
    forall p | InGrid(h, p)
      ensures marks[p.0][p.1] == DeadCell(h, p)
    {
      assert InGrid(g, p);
      forall d | InGrid(h, Move(p, d))
        ensures WallAt(g, Move(p, d)) <==> WallAt(h, Move(p, d))
      {
        assert InGrid(g, Move(p, d));
      }
      assert WallNear(g, p, Top) == WallNear(h, p, Top);
      assert WallNear(g, p, Bottom) == WallNear(h, p, Bottom);
      assert WallNear(g, p, Left) == WallNear(h, p, Left);
      assert WallNear(g, p, Right) == WallNear(h, p, Right);
    }
  }

  // ---------------------------------------------------------------------
  // The move rule: Maze::pushBox and Maze::updatePlayer
  // ---------------------------------------------------------------------

  /** g with the cell p showing s. */
  function SetCell(g: Grid, p: Pos, s: char): (r: Grid)
    requires InGrid(g, p)
    ensures |r| == |g| && forall i :: 0 <= i < |g| ==> |r[i]| == |g[i]|
    ensures forall q :: InGrid(g, q) ==> At(r, q) == if q == p then s else At(g, q)
  {
    g[p.0 := g[p.0][p.1 := s]]
  }

  /**
   * pushBox on a grid: the box at p moves one cell in direction d. The
   * push is refused when the destination is a wall or is not free. The
   * source cell falls back to its goal or ground, the destination shows a
   * placed box on a goal and a plain box elsewhere.
   */
  function PushBoxGrid(g: Grid, p: Pos, d: Dir): Option<Grid>
    requires InGrid(g, p) && InGrid(g, Move(p, d))
  {
    var q := Move(p, d);
    if WallAt(g, q) || !FreeAt(g, q) then None
    else
      var left := SetCell(g, p, if At(g, p) == BOX_PLACED then GOAL else GROUND);
      Some(SetCell(left, q, if GoalAt(left, q) then BOX_PLACED else BOX))
  }

  /**
   * The cells updatePlayer reads when moving from p in direction d lie on
   * the grid: the target, and the cell beyond it when the target holds a
   * box.
   */
  predicate MoveInBounds(g: Grid, p: Pos, d: Dir) {
    InGrid(g, Move(p, d)) && (BoxAt(g, Move(p, d)) ==> InGrid(g, Move(Move(p, d), d)))
  }

  /**
   * updatePlayer on a grid: the new grid and player cell, or None when the
   * player does not move (a wall ahead, or a box that cannot be pushed).
   */
  function MoveGrid(g: Grid, player: Pos, d: Dir): Option<(Grid, Pos)>
    requires MoveInBounds(g, player, d)
  {
    var t := Move(player, d);
    if WallAt(g, t) then None
    else if !BoxAt(g, t) then Some((g, t))
    else
      match PushBoxGrid(g, t, d)
      case None => None
      case Some(g') => Some((g', t))
  }

  /**
   * A push keeps the layout and the number of boxes: exactly the source and
   * the destination change, the box leaves p and appears at Move(p, d),
   * and the goal under each cell is kept.
   */
  lemma PushBoxGridSpec(g: Grid, p: Pos, d: Dir)
    requires InGrid(g, p) && InGrid(g, Move(p, d)) && BoxAt(g, p)
    ensures PushBoxGrid(g, p, d).None? <==> !FreeAt(g, Move(p, d))
    ensures PushBoxGrid(g, p, d).Some? ==>
      var r := PushBoxGrid(g, p, d).value;
      && SameLayout(g, r)
      && !BoxAt(r, p) && BoxAt(r, Move(p, d))
      && (forall q :: InGrid(g, q) && q != p && q != Move(p, d) ==> At(r, q) == At(g, q))
      && (At(r, p) == if GoalAt(g, p) then GOAL else GROUND)
      && (At(r, Move(p, d)) == if GoalAt(g, Move(p, d)) then BOX_PLACED else BOX)
  {
  }

  /** A push keeps the shape of the grid and its deadlock marks. */
  lemma PushKeepsMarks(g: Grid, p: Pos, d: Dir, col: int, marks: seq<seq<bool>>)
    requires InGrid(g, p) && InGrid(g, Move(p, d)) && BoxAt(g, p) && PushBoxGrid(g, p, d).Some?
    requires Rectangular(g, col) && DeadlocksOf(g, marks)
    ensures |PushBoxGrid(g, p, d).value| == |g|
    ensures Rectangular(PushBoxGrid(g, p, d).value, col)
    ensures DeadlocksOf(PushBoxGrid(g, p, d).value, marks)
  {
    PushBoxGridSpec(g, p, d);
    DeadlocksFollowLayout(g, PushBoxGrid(g, p, d).value, marks);
  }

  // ---------------------------------------------------------------------
  // Building the grid from the lines of a level: Maze::Maze
  // ---------------------------------------------------------------------

  /** The length of the longest line, 0 for no lines. */
  function MaxWidth(lines: seq<string>): (w: nat)
    ensures forall i :: 0 <= i < |lines| ==> |lines[i]| <= w
    ensures lines != [] ==> exists i :: 0 <= i < |lines| && |lines[i]| == w
    ensures lines == [] ==> w == 0
  {
    if lines == [] then 0
    else
      var w := MaxWidth(lines[..|lines| - 1]);
      assert forall i :: 0 <= i < |lines| - 1 ==> lines[..|lines| - 1][i] == lines[i];
      if w < |lines[|lines| - 1]| then |lines[|lines| - 1]| else w
  }

  /** A level fits when neither its width nor its height exceeds 100. */
  predicate Fits(lines: seq<string>) {
    MaxWidth(lines) <= NB_MAX_WIDTH && |lines| <= NB_MAX_HEIGHT
  }

  /**
   * The sprite a level character leaves on the board. The player is not a
   * sprite of the board: its cell shows the ground, or the goal it stands
   * on. Every other character is kept as it is.
   */
  function CellSprite(c: char): char {
    if c == PLAYER then GROUND else if c == PLAYER_ON_GOAL then GOAL else c
  }

  /** The sprite Maze::Maze leaves for a level character: the player sprite stays on the start cell. */
  function CellSpriteAsWritten(c: char): char {
    if c == PLAYER_ON_GOAL then GOAL else c
  }

  /** The cell (i, j) of the board built from lines: short lines are padded with ground. */
  function CellOf(lines: seq<string>, i: int, j: int): char
    requires 0 <= i < |lines| && 0 <= j
  {
    if j < |lines[i]| then CellSprite(lines[i][j]) else GROUND
  }

  /**
   * The board built from lines: as many lines as given, each as wide as
   * the longest. Padding is ground and no player sprite is left on it.
   */
  function GridOf(lines: seq<string>): (g: Grid)
    ensures |g| == |lines| && Rectangular(g, MaxWidth(lines))
    ensures forall p :: InGrid(g, p) && p.1 >= |lines[p.0]| ==> At(g, p) == GROUND
    ensures forall p :: InGrid(g, p) ==> At(g, p) != PLAYER && At(g, p) != PLAYER_ON_GOAL
  {
    seq(|lines|, i requires 0 <= i < |lines| => seq(MaxWidth(lines), j requires 0 <= j => CellOf(lines, i, j)))
  }

  /**
   * The board as Maze::Maze builds it: the same shape and padding, a `+`
   * turned into a goal, and every `@` left as the player sprite.
   */
  function GridOfAsWritten(lines: seq<string>): (g: Grid)
    ensures |g| == |lines| && Rectangular(g, MaxWidth(lines))
    ensures forall p :: InGrid(g, p) && p.1 >= |lines[p.0]| ==> At(g, p) == GROUND
    ensures forall p :: InGrid(g, p) ==> At(g, p) != PLAYER_ON_GOAL
    ensures forall p :: InGrid(g, p) ==> (At(g, p) == PLAYER <==> p.1 < |lines[p.0]| && lines[p.0][p.1] == PLAYER)
  {
    seq(|lines|, i requires 0 <= i < |lines| => RowAsWritten(lines[i], MaxWidth(lines)))
  }

  /** One row of that board, padded with ground to width w. */
  function RowAsWritten(line: string, w: nat): seq<char> {
    seq(w, j requires 0 <= j => if j < |line| then CellSpriteAsWritten(line[j]) else GROUND)
  }

  /**
   * The board Maze::Maze builds differs from the intended one exactly on
   * the cells written `@`: those keep the player sprite where the ground
   * belongs.
   */
  lemma AsWrittenKeepsPlayer(lines: seq<string>)
    ensures |GridOf(lines)| == |GridOfAsWritten(lines)|
    ensures forall p :: InGrid(GridOfAsWritten(lines), p) ==>
      && InGrid(GridOf(lines), p)
      && At(GridOf(lines), p) == if At(GridOfAsWritten(lines), p) == PLAYER then GROUND else At(GridOfAsWritten(lines), p)
  {
  }

  /** The start cell: the last player character in row-major order, (0, 0) when there is none. */
  function StartOf(lines: seq<string>): Pos {
    var starts := CellsOf(lines, Starts);
    if starts == [] then (0, 0) else starts[|starts| - 1]
  }

  // ---------------------------------------------------------------------
  // Playing a list of moves: Maze::playSolution
  // ---------------------------------------------------------------------

  /**
   * Every cell of region lies on g together with its four neighbours, and
   * a neighbour that is not a wall is again in region: a player kept
   * inside region only ever reads cells of the grid.
   */
  ghost predicate GridEnclosed(g: Grid, region: set<Pos>) {
    && (forall p :: p in region ==> InGrid(g, p))
    && (forall p, d :: p in region ==> InGrid(g, Move(p, d)) && (!WallAt(g, Move(p, d)) ==> Move(p, d) in region))
  }

  /** The enclosure depends on the walls only. */
  lemma LayoutKeepsEnclosure(g: Grid, h: Grid, region: set<Pos>)
    requires SameLayout(g, h) && GridEnclosed(g, region)
    ensures GridEnclosed(h, region)
  {
    forall p, d | p in region
      ensures InGrid(h, Move(p, d)) && (!WallAt(h, Move(p, d)) ==> Move(p, d) in region)
    {
      assert InGrid(g, Move(p, d));
    }
  }

  /**
   * From a cell of an enclosing region every move reads cells of the grid
   * only, and a move that happens keeps the layout and lands in the
   * region again.
   */
  lemma MoveStaysEnclosed(g: Grid, player: Pos, d: Dir, region: set<Pos>)
    requires GridEnclosed(g, region) && player in region
    ensures MoveInBounds(g, player, d)
    ensures MoveGrid(g, player, d).Some? ==>
      var r := MoveGrid(g, player, d).value;
      SameLayout(g, r.0) && GridEnclosed(r.0, region) && r.1 in region
  {
    var t := Move(player, d);
    assert InGrid(g, t);
    if BoxAt(g, t) {
      assert t in region;
      assert InGrid(g, Move(t, d));
    }
    if MoveGrid(g, player, d).Some? {
      var r := MoveGrid(g, player, d).value;
      assert r.1 == t && t in region;
      if BoxAt(g, t) {
        PushBoxGridSpec(g, t, d);
      } else {
        assert r.0 == g;
      }
      LayoutKeepsEnclosure(g, r.0, region);
    }
  }

  /**
   * The grid and player cell after updatePlayer has been called with each
   * move in turn; a refused move leaves both as they are and the next move
   * is tried.
   */
  ghost function PlayMoves(g: Grid, player: Pos, moves: seq<Dir>, region: set<Pos>): (r: (Grid, Pos))
    requires GridEnclosed(g, region) && player in region
    ensures GridEnclosed(r.0, region) && r.1 in region
    decreases |moves|
  {
    if moves == [] then (g, player)
    else
      MoveStaysEnclosed(g, player, moves[0], region);
      match MoveGrid(g, player, moves[0])
      case None => PlayMoves(g, player, moves[1..], region)
      case Some(next) => PlayMoves(next.0, next.1, moves[1..], region)
  }

  /**
   * The direction code the player faces after updatePlayer has been called
   * with each move in turn: the code of the last move that happened, or
   * facing when none did.
   */
  ghost function FacingAfter(g: Grid, player: Pos, moves: seq<Dir>, region: set<Pos>, facing: int): (r: int)
    requires GridEnclosed(g, region) && player in region
    ensures r == facing || exists i :: 0 <= i < |moves| && r == Code(moves[i])
    decreases |moves|
  {
    if moves == [] then facing
    else
      MoveStaysEnclosed(g, player, moves[0], region);
      match MoveGrid(g, player, moves[0])
      case None => FacingAfter(g, player, moves[1..], region, facing)
      case Some(next) => FacingAfter(next.0, next.1, moves[1..], region, Code(moves[0]))
  }
}
