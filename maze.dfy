/**
 * The Maze class: the sprite grid of the level being played, the player's
 * cell and facing direction, and the static deadlock marks. Moves update
 * the grid in place by the rules of LiveBoard.
 */
module LiveMaze {
  import opened Wrappers
  import opened MazeTypes
  import opened LiveBoard

  /** The guard of Maze::updatePlayer as written: it rejects codes below 0 or above DIRECTION_MAX. */
  predicate AcceptsDirectionAsWritten(dir: int) {
    !(dir < 0 || dir > DIRECTION_MAX)
  }

  /** The guard the move needs: the code indexes the neighbours table. */
  predicate AcceptsDirection(dir: int) {
    !(dir < 0 || dir >= DIRECTION_MAX)
  }

  /** The guard as written lets code 4 through, one past the last entry of the neighbours table. */
  lemma GuardLetsFourThrough()
    ensures AcceptsDirectionAsWritten(DIRECTION_MAX) && DIRECTION_MAX >= |NEIGHBOURS|
  {
  }

  /** The corrected guard accepts exactly the codes of the four directions. */
  lemma GuardAcceptsDirections(dir: int)
    ensures AcceptsDirection(dir) <==> 0 <= dir < |NEIGHBOURS|
    ensures AcceptsDirection(dir) <==> DirOfCode(dir).Some?
    ensures AcceptsDirection(dir) ==> AcceptsDirectionAsWritten(dir)
  {
  }

  /** The length of the longest line, as Maze::Maze measures it while reading. */
  method LongestLine(lines: seq<string>) returns (w: nat)
    ensures w == MaxWidth(lines)
  {
    w := 0;
    for i := 0 to |lines|
      invariant w == MaxWidth(lines[..i])
    {
      assert lines[..i + 1][..i] == lines[..i];
      if w < |lines[i]| {
        w := |lines[i]|;
      }
    }
    assert lines[..|lines|] == lines;
  }

  /**
   * The deadlock matrix of grid g, of width col, filled up to cell (i, j)
   * in row-major order: the cells before it carry their mark, the others
   * are still false.
   */
  ghost predicate MarkedUpTo(g: Grid, col: int, marks: seq<seq<bool>>, i: int, j: int) {
    && |marks| == |g| && Rectangular(g, col)
    && (forall r :: 0 <= r < |g| ==> |marks[r]| == col)
    && (forall r, c :: 0 <= r < |g| && 0 <= c < col ==>
          marks[r][c] == ((r < i || (r == i && c < j)) && DeadCell(g, (r, c))))
  }

  lemma MarkNext(g: Grid, col: int, marks: seq<seq<bool>>, marks': seq<seq<bool>>, i: int, j: int)
    requires MarkedUpTo(g, col, marks, i, j) && 0 <= i < |g| && 0 <= j < col
    requires marks' == if DeadCell(g, (i, j)) then marks[i := marks[i][j := true]] else marks
    ensures MarkedUpTo(g, col, marks', i, j + 1)
  {
  }

  lemma MarkNextLine(g: Grid, col: int, marks: seq<seq<bool>>, i: int)
    requires MarkedUpTo(g, col, marks, i, col)
    ensures MarkedUpTo(g, col, marks, i + 1, 0)
  {
  }

  lemma MarkedAll(g: Grid, col: int, marks: seq<seq<bool>>)
    requires MarkedUpTo(g, col, marks, |g|, 0)
    ensures DeadlocksOf(g, marks)
  {
  }

  /** The last of the cells, or d when there are none. */
  function LastOr(d: Pos, s: seq<Pos>): Pos {
    if s == [] then d else s[|s| - 1]
  }

  class Maze {
    var field: Grid
    var player: Pos
    var deadlocks: seq<seq<bool>>
    var lig: int
    var col: int
    var playerDirection: int

    /** The grid is lig lines of col cells, within the size limits, and the deadlock marks are current. */
    ghost predicate Valid()
      reads this
    {
      && lig == |field| && Rectangular(field, col)
      && 0 <= lig <= NB_MAX_HEIGHT && 0 <= col <= NB_MAX_WIDTH
      && DeadlocksOf(field, deadlocks)
    }

    /**
     * Maze::Maze on the lines of a level whose width w has been measured:
     * the grid has one line per level line, padded with ground to the
     * widest. A `+` start cell shows its goal, a `@` start cell keeps the
     * player sprite. The player starts on the last player character and
     * the deadlocks are computed.
     */
    constructor (lines: seq<string>, w: nat)
      requires w == MaxWidth(lines) && Fits(lines)
      ensures Valid()
      ensures field == GridOfAsWritten(lines) && player == StartOf(lines)
      ensures lig == |lines| && col == w && playerDirection == RIGHT
    {
      var grid: Grid := [];
      var start: Pos := (0, 0);
      for i := 0 to |lines|
        invariant |grid| == i && forall r :: 0 <= r < i ==> grid[r] == RowAsWritten(lines[r], w)
        invariant start == LastOr((0, 0), ScanRows(lines, i, Starts))
      {
        var row;
        row, start := ReadRow(lines, i, w, start);
        grid := grid + [row];
      }
      assert grid == GridOfAsWritten(lines);
      field := grid;
      player := start;
      lig := |lines|;
      col := w;
      playerDirection := RIGHT;
      deadlocks := [];
      new;
      ComputeStaticDeadlocks();
    }

    /**
     * The inner loop of Maze::Maze: line i padded to width w, with the start
     * moved to each player character met on the way.
     */
    static method ReadRow(lines: seq<string>, i: nat, w: nat, start: Pos) returns (row: seq<char>, start': Pos)
      requires i < |lines| && |lines[i]| <= w
      ensures row == RowAsWritten(lines[i], w)
      ensures start' == LastOr(start, RowCells(lines, i, |lines[i]|, Starts))
    {
      row, start' := [], start;
      for j := 0 to w
        invariant row == RowAsWritten(lines[i], w)[..j]
        invariant start' == LastOr(start, RowCells(lines, i, if j < |lines[i]| then j else |lines[i]|, Starts))
      {
        if j < |lines[i]| {
          var sprite := lines[i][j];
          if sprite == PLAYER || sprite == PLAYER_ON_GOAL {
            start' := (i, j);
            if sprite == PLAYER_ON_GOAL {
              sprite := GOAL;
            }
          }
          row := row + [sprite];
        } else {
          row := row + [GROUND];
        }
      }
    }

    /**
     * Maze::computeStaticDeadlocks: marks every cell that is neither a
     * wall nor a goal and has a wall above or below it and a wall to its
     * left or right.
     */
    method ComputeStaticDeadlocks()
      modifies this
      requires lig == |field| && Rectangular(field, col) && 0 <= col
      ensures DeadlocksOf(field, deadlocks)
      ensures field == old(field) && player == old(player) && playerDirection == old(playerDirection)
      ensures lig == old(lig) && col == old(col)
    {
      var g, lines, width := field, lig, col;
      var marks: seq<seq<bool>> := seq(lines, _ => seq(width, _ => false));
      for i := 0 to lines
        invariant MarkedUpTo(g, width, marks, i, 0)
        modifies {}
      {
        for j := 0 to width
          invariant MarkedUpTo(g, width, marks, i, j)
          modifies {}
        {
          var p := (i, j);
          var dead := false;
          if !(WallAt(g, p) || GoalAt(g, p)) {
            var wT := WallNear(g, p, Top);
            var wB := WallNear(g, p, Bottom);
            var wL := WallNear(g, p, Left);
            var wR := WallNear(g, p, Right);
            dead := (wT && wL) || (wT && wR) || (wB && wL) || (wB && wR);
          }
          ghost var before := marks;
          if dead {
            marks := marks[i := marks[i][j := true]];
          }
          MarkNext(g, width, before, marks, i, j);
        }
        MarkNextLine(g, width, marks, i);
      }
      MarkedAll(g, width, marks);
      deadlocks := marks;
    }

    /** Maze::isDeadlock: the precomputed mark of a cell. */
    function IsDeadlock(p: Pos): (r: bool)
      reads this
      requires Valid() && InGrid(field, p)
      ensures r <==> DeadCell(field, p)
    {
      deadlocks[p.0][p.1]
    }

    /** Maze::isSolution: true when no cell shows a box off its goal. */
    method IsSolution() returns (r: bool)
      ensures r <==> NoLooseBox(field)
    {
      for i := 0 to |field|
        invariant forall p :: InGrid(field, p) && p.0 < i ==> At(field, p) != BOX
      {
        for j := 0 to |field[i]|
          invariant forall p :: InGrid(field, p) && (p.0 < i || (p.0 == i && p.1 < j)) ==> At(field, p) != BOX
        {
          if field[i][j] == BOX {
            assert InGrid(field, (i, j)) && At(field, (i, j)) == BOX;
            return false;
          }
        }
      }
      return true;
    }

    /** The cells of kind k, scanned line by line as getBoxes and getGoals do. */
    method Scan(k: Kind) returns (cells: seq<Pos>)
      ensures cells == CellsOf(field, k)
    {
      cells := [];
      for i := 0 to |field|
        invariant cells == ScanRows(field, i, k)
      {
        for j := 0 to |field[i]|
          invariant cells == ScanRows(field, i, k) + RowCells(field, i, j, k)
        {
          if Matches(field[i][j], k) {
            cells := cells + [(i, j)];
          }
        }
      }
    }

    /** Maze::getBoxes: every box cell, placed or not, in row-major order. */
    method GetBoxes() returns (boxes: seq<Pos>)
      ensures boxes == CellsOf(field, Boxes)
    {
      boxes := Scan(Boxes);
    }

    /** Maze::getGoals: every goal cell, covered by a box or not, in row-major order. */
    method GetGoals() returns (goals: seq<Pos>)
      ensures goals == CellsOf(field, Goals)
    {
      goals := Scan(Goals);
    }

    /**
     * Maze::pushBox: moves the box at p one cell in direction d when the
     * destination is free, and turns the player that way. A refused push
     * changes nothing.
     */
    method PushBox(p: Pos, d: Dir) returns (ok: bool)
      modifies this
      requires Valid() && InGrid(field, p) && InGrid(field, Move(p, d)) && BoxAt(field, p)
      ensures Valid()
      ensures ok <==> PushBoxGrid(old(field), p, d).Some?
      ensures ok ==> field == PushBoxGrid(old(field), p, d).value && playerDirection == Code(d)
      ensures !ok ==> field == old(field) && playerDirection == old(playerDirection)
      ensures player == old(player) && deadlocks == old(deadlocks) && lig == old(lig) && col == old(col)
    {
      var q := Move(p, d);
      if WallAt(field, q) {
        return false;
      }
      if !FreeAt(field, q) {
        return false;
      }
      var g := field;
      PushKeepsMarks(g, p, d, col, deadlocks);
      var emptied := if At(g, p) == BOX_PLACED then GOAL else GROUND;
      g := SetCell(g, p, emptied);
      var filled := if GoalAt(g, q) then BOX_PLACED else BOX;
      g := SetCell(g, q, filled);
      field := g;
      playerDirection := Code(d);
      return true;
    }

    /**
     * Maze::updatePlayer: one move of the player. An unknown direction code
     * or a refused move changes nothing and answers false; a move answers
     * whether the level is now solved.
     */
    method UpdatePlayer(dir: int) returns (solved: bool)
      modifies this
      requires Valid()
      requires AcceptsDirection(dir) ==> MoveInBounds(field, player, ALL_DIRS[dir])
      ensures Valid()
      ensures lig == old(lig) && col == old(col)
      ensures !AcceptsDirection(dir) ==>
        !solved && field == old(field) && player == old(player) && playerDirection == old(playerDirection)
      ensures AcceptsDirection(dir) && MoveGrid(old(field), old(player), ALL_DIRS[dir]).None? ==>
        !solved && field == old(field) && player == old(player) && playerDirection == old(playerDirection)
      ensures AcceptsDirection(dir) && MoveGrid(old(field), old(player), ALL_DIRS[dir]).Some? ==>
        && (field, player) == MoveGrid(old(field), old(player), ALL_DIRS[dir]).value
        && playerDirection == dir
        && (solved <==> NoLooseBox(field))
    {
      if !AcceptsDirection(dir) {
        return false;
      }
      var d := ALL_DIRS[dir];
      var target := Move(player, d);
      if WallAt(field, target) {
        return false;
      }
      var moves := false;
      if !BoxAt(field, target) {
        moves := true;
      } else {
        moves := PushBox(target, d);
      }
      if moves {
        player := target;
        playerDirection := dir;
        solved := IsSolution();
        return solved;
      }
      return false;
    }

    /**
     * Maze::playSolution without the drawing: updatePlayer with the code
     * of each move in turn, a refused move being skipped; the player ends
     * facing the last move that happened. region is a set of cells around
     * the player that keeps every move on the grid.
     */
    method PlaySolution(moves: seq<Dir>, ghost region: set<Pos>)
      modifies this
      requires Valid() && GridEnclosed(field, region) && player in region
      ensures Valid() && GridEnclosed(field, region) && player in region
      ensures (field, player) == PlayMoves(old(field), old(player), moves, region)
      ensures playerDirection == FacingAfter(old(field), old(player), moves, region, old(playerDirection))
      ensures lig == old(lig) && col == old(col)
    {
      ghost var start := (field, player);
      for k := 0 to |moves|
        invariant Valid() && GridEnclosed(field, region) && player in region
        invariant lig == old(lig) && col == old(col)
        invariant PlayMoves(field, player, moves[k..], region) == PlayMoves(start.0, start.1, moves, region)
        invariant FacingAfter(field, player, moves[k..], region, playerDirection)
          == FacingAfter(start.0, start.1, moves, region, old(playerDirection))
      {
        MoveStaysEnclosed(field, player, moves[k], region);
        assert moves[k..][0] == moves[k] && moves[k..][1..] == moves[k + 1..];
        var solved := UpdatePlayer(Code(moves[k]));
      }
    }
  }

  /**
   * Maze::Maze on the lines of a level: the width is measured first, and a
   * level wider or taller than 100 is refused.
   */
  method Load(lines: seq<string>) returns (r: Option<Maze>)
    ensures r.None? <==> !Fits(lines)
    ensures r.Some? ==> fresh(r.value) && r.value.Valid()
    ensures r.Some? ==> r.value.field == GridOfAsWritten(lines) && r.value.player == StartOf(lines)
  {
    var w := LongestLine(lines);
    if w <= NB_MAX_WIDTH && |lines| <= NB_MAX_HEIGHT {
      var m := new Maze(lines, w);
      return Some(m);
    }
    return None;
  }
}
