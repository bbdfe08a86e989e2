/**
 * Solver::Solver: the solver takes its snapshot of a Maze once, before any
 * search. Walls are collected by a row-major scan, the deadlock marks are
 * copied cell by cell, goals and boxes come from getGoals and getBoxes.
 */
module SolverSetup {
  import opened MazeTypes
  import opened LiveBoard
  import opened LiveMaze
  import opened SolverRules

  /** The cells listed in s, as the std::set the constructor fills. */
  function SetOf(s: seq<Pos>): (r: set<Pos>)
    ensures forall p :: p in r <==> p in s
  {
    set p | p in s
  }

  /**
   * The snapshot of m: its size, its player, the walls and goals of its
   * grid in row-major order, the set of its box cells and its deadlock
   * marks.
   */
  method NewSolver(m: Maze) returns (b: Board)
    requires m.Valid()
    ensures b.maxRow == m.lig && b.maxCol == m.col && b.startPlayer == m.player
    ensures b.walls == CellsOf(m.field, Walls)
    ensures b.goals == CellsOf(m.field, Goals)
    ensures b.startBoxes == SetOf(CellsOf(m.field, Boxes))
    ensures DeadlocksOf(m.field, b.staticDeadlocks)
  {
    var g, rows, cols := m.field, m.lig, m.col;
    var walls: seq<Pos> := [];
    var marks: seq<seq<bool>> := seq(rows, _ => seq(cols, _ => false));
    for i := 0 to rows
      invariant walls == ScanRows(g, i, Walls)
      invariant MarkedUpTo(g, cols, marks, i, 0)
    {
      for j := 0 to cols
        invariant walls == ScanRows(g, i, Walls) + RowCells(g, i, j, Walls)
        invariant MarkedUpTo(g, cols, marks, i, j)
      {
        if WallAt(g, (i, j)) {
          walls := walls + [(i, j)];
        }
        ghost var before := marks;
        if m.IsDeadlock((i, j)) {
          marks := marks[i := marks[i][j := true]];
        }
        MarkNext(g, cols, before, marks, i, j);
      }
      MarkNextLine(g, cols, marks, i);
    }
    MarkedAll(g, cols, marks);
    var goals := m.GetGoals();
    var boxesVec := m.GetBoxes();
    var boxes: set<Pos> := {};
    for k := 0 to |boxesVec|
      invariant boxes == SetOf(boxesVec[..k])
    {
      boxes := boxes + {boxesVec[k]};
    }
    assert boxesVec[..|boxesVec|] == boxesVec;
    b := Board(walls, goals, rows, cols, m.player, boxes, marks);
  }
}
