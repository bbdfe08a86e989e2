# Sokoban: the maze and its solver, modelled and proved in Dafny

This project models the core of a small Sokoban game, which has two parts.

The **maze** is the level being played. It holds:

- a grid of sprites, read from the lines of a level file;
- the player's cell and the direction the player faces;
- a matrix of *static deadlocks*: cells a box can never leave that are not goals.

The player moves in four directions. A box is pushed when the cell behind it is free.

The **solver** takes a snapshot of the maze once:

- its wall list;
- its goal list;
- the set of box cells;
- the player's cell;
- the deadlock marks.

It then searches the configurations (player cell, set of box cells) reachable by moves. It has four strategies:

- breadth-first search;
- depth-first search;
- A* with the sum of nearest-goal Manhattan distances as its heuristic;
- a depth-limited brute force.

## Modules

The modules follow the source files.

- `maze_types.dfy` (`MazeTypes`): the constants of `Maze.h`. These are the sprite characters, the size limits, the `Direction` codes and the `neighbours` table, with `Dir`, `Pos` and `Move`.
- `node.dfy` (`SearchNode`): the `Node` of `Node.h`.
  - `f()`, `operator==` and `NodeComparator`.
  - `operator<`, which compares the player cell, then the box sets as ascending sequences. It is proved to be a strict weak ordering whose incomparability is exactly `operator==`. So the `std::set<Node>` of visited states is a set of configurations.
- `solver_rules.dfy` (`SolverRules`): the solver's snapshot `Board`.
  - `isWall` and `isGoal`.
  - The move rule of `expand` (`Step`), `expand` itself, and the replay of a move list.
  - The goal test and the heuristic.
- `search_space.dfy` (`SearchSpace`): the invariant shared by the three graph searches.
- `solver_search.dfy` (`SolverSearch`): `solveBFS`, `solveDFS`, `solveAStar`, `solveBruteForce` and `bruteForceRecursive`.
- `live_board.dfy` (`LiveBoard`): the grid as a value.
  - The sprite tests, the row-major scans and the deadlock rule.
  - A push and a move as functions on grids.
  - The grid built from the level lines, and a list of moves played on a grid.
- `maze.dfy` (`LiveMaze`): the `Maze` class. Its fields are updated in place. Each method is proved against the `LiveBoard` functions.
- `solver_setup.dfy` (`SolverSetup`): the `Solver` constructor, which takes the snapshot of a `Maze`.
- `agreement.dfy` (`Agreement`): how the solver's rule and the maze's rule agree, and how they disagree. It proves three things:
  - a move list found by a solver, played on the maze, solves the level, once the start cell is corrected as in finding 1;
  - a box on a cell marked as a static deadlock can never be brought to the goals;
  - on one level the two rules disagree, which is finding 1 below.

## Model

| member | source | states |
|---|---|---|
| MazeTypes.Code | Maze.h:19-34 | The code of a direction lies in 0..DIRECTION_MAX-1. The `neighbours` entry at that code is the direction's offset. |
| MazeTypes.DirOfCode | Maze.h:28-34 | A code names a direction exactly when it lies in 0..DIRECTION_MAX-1, and then that direction has this code. |
| MazeTypes.Move | Maze.h:19-24 | A step in any direction reaches a different cell at Manhattan distance 1. |
| MazeTypes.CodeRoundTrip | Maze.h:28-34 | Decoding the code of a direction gives the direction back. |
| SearchNode.NodeEqIsKeyEquality | Node.h:27-29 | Two nodes are equal exactly when their player cells and box sets are equal. |
| SearchNode.NodeEqIgnoresBookkeeping | Node.h:12-16 | Equality ignores the path, the cost and the heuristic. |
| SearchNode.Ascending | Node.h:11 | The iteration order of a box set is strictly ascending and holds exactly the set's elements. |
| SearchNode.SeqLessIrreflexive | Node.h:24 | The lexicographic comparison of box lists is irreflexive. |
| SearchNode.SeqLessTransitive | Node.h:24 | The lexicographic comparison of box lists is transitive. |
| SearchNode.SeqLessConnected | Node.h:24 | Two different box lists are always ordered one way or the other. |
| SearchNode.SeqLessAsymmetric | Node.h:24 | The lexicographic comparison of box lists is asymmetric. |
| SearchNode.NodeLessIrreflexive | Node.h:21-25 | operator< is irreflexive. |
| SearchNode.NodeLessTransitive | Node.h:21-25 | operator< is transitive. |
| SearchNode.NodeLessAsymmetric | Node.h:21-25 | operator< is asymmetric. |
| SearchNode.NodeLessEquivalenceIsNodeEq | Node.h:21-29 | Two nodes are incomparable under operator< exactly when operator== holds. So a std::set keyed by operator< identifies nodes by player cell and boxes. |
| SearchNode.IncomparabilityTransitive | Node.h:21-25 | Incomparability under operator< is transitive, as std::set requires. |
| SearchNode.NodeComparatorIsStrictWeakOrder | Node.h:32-36 | The A* comparator is irreflexive and transitive, and two nodes are unordered by it exactly when their f values are equal, as std::priority_queue requires. |
| SolverRules.IsWall | Solver.cpp:32-37 | The linear search answers true exactly when the cell is in the wall list. |
| SolverRules.IsGoal | Solver.cpp:39-44 | The linear search answers true exactly when the cell is in the goal list. |
| SolverRules.Step | Solver.cpp:55-95 | An allowed move puts the player one cell further, on a cell that is neither a wall nor a box. It keeps the number of boxes. |
| SolverRules.WalkRule | Solver.cpp:61-93 | Without a box ahead, the move is allowed exactly when the next cell is not a wall, and then only the player moves. |
| SolverRules.PushRule | Solver.cpp:61-85 | With a box ahead, the move is allowed exactly when neither the box's cell nor the cell behind it is a wall and no box is behind it. The box then moves one cell and every other box stays. |
| SolverRules.ChildrenForSpec | Solver.cpp:55-95 | The children for a list of directions extend the path by one of them. There is one child for every allowed direction of the list. |
| SolverRules.ChildrenForOrdered | Solver.cpp:55-95 | Children appear in the order of their directions. |
| SolverRules.SuccessorsSpec | Solver.cpp:46-98 | expand returns at most four successors, in the order TOP, BOTTOM, LEFT, RIGHT. Each one extends the path by its move at cost + 1, stands off the walls and keeps the number of boxes. Every allowed move has its successor. |
| SolverRules.SuccessorMove | Solver.cpp:46-98 | A successor is its parent moved in the direction its path ends with. |
| SolverRules.Expand | Solver.cpp:46-98 | The loop over the four directions returns exactly the successors. |
| SolverRules.ReplayAppend | Solver.cpp:82-91 | Replaying a path extended by one move is the replay of the path followed by that move's step. |
| SolverRules.ReplayKeepsBoxCount | Solver.cpp:80-81 | Replaying moves never changes the number of boxes. |
| SolverRules.AllBoxesOnGoals | Solver.cpp:119-125 | The goal test answers true exactly when every box is on a goal. |
| SolverRules.MinDistUpToSpec | Solver.cpp:194-198 | After scanning k goals, the nearest distance is at most 999999 and no more than the distance to any scanned goal. It is 999999 or the distance to one of them. |
| SolverRules.MinDistSpec | Solver.cpp:194-198 | The same holds for all goals. The distance is 0 exactly when the box is on a goal. |
| SolverRules.HeuristicRemove | Solver.cpp:193-200 | The heuristic of a box set is one box's nearest distance plus the heuristic of the other boxes, for any choice of box. |
| SolverRules.CalculateHeuristic | Solver.cpp:191-202 | The loop computes the sum over the boxes of each box's nearest-goal distance. |
| SolverRules.HeuristicZeroIffSolved | Solver.cpp:191-202 | The heuristic is never negative, and it is 0 exactly when every box is on a goal. |
| SolverRules.HeuristicStepBound | Solver.cpp:191-202 | One move changes the heuristic by at most one. |
| SolverRules.HeuristicAdmissible | Solver.cpp:191-202 | The heuristic never exceeds the length of a move list that solves from that configuration. |
| SearchSpace.StepStaysInRegion | Solver.cpp:46-98 | A move from a configuration inside an enclosed region stays inside it. |
| SearchSpace.SearchInvInit | Solver.cpp:104-109 | The search starts with only the start node queued and visited, and nothing expanded. The invariant it establishes includes that no configuration is queued twice and none queued once expanded. |
| SearchSpace.SuccessorReplays | Solver.cpp:82-92 | A successor's path replays to the successor when its parent's path replays to the parent. |
| SearchSpace.UnvisitedSpec | Solver.cpp:133-139 | The nodes the visited check lets through are successors whose configurations were unvisited, no configuration appears twice, and together they cover every unvisited successor configuration. |
| SearchSpace.UnvisitedCount | Solver.cpp:133-139 | As many nodes are let through as there are distinct unvisited successor configurations. |
| SearchSpace.EnqueueNew | Solver.cpp:133-139 | The loop marks every successor visited and appends exactly the successors not yet visited, in order, each configuration once. |
| SearchSpace.EnqueueUnvisited | Solver.cpp:133-139 | Every successor ends up visited. The appended nodes are exactly the successors whose configuration was not yet visited, in successor order, each configuration once, and their paths replay. |
| SearchSpace.ExpandKeepsInv | Solver.cpp:113-139 | Expanding a node that is not a goal keeps the search invariant: expanded configurations are not goals, their moves lead to visited configurations, and queued paths replay. |
| SearchSpace.WaitingFacts | Solver.cpp:113-115 | A queued node lies in the region, its path replays to it, and its configuration has not been expanded. |
| SearchSpace.PopFacts | Solver.cpp:113-115 | Taking a node off the queue leaves the other queued nodes, whose paths still replay, with distinct configurations none of which is the popped one. |
| SearchSpace.ExpandStep | Solver.cpp:113-139 | One round keeps the invariant. The popped configuration had not been expanded before. Either the set of unvisited configurations shrinks, or it stays the same and the queue gets shorter. |
| SearchSpace.ClosedHoldsReplays | Solver.cpp:133-139 | Once the queue is exhausted, every move list from an expanded configuration stays among expanded configurations. |
| SearchSpace.ExhaustedMeansUnsolvable | Solver.cpp:142-143 | A search that empties its queue has shown that no move list solves the level. |
| SearchSpace.UnvisitedShrinks | Solver.cpp:135-137 | Marking configurations visited never grows the set of unvisited ones, and marking a new one shrinks it. |
| SolverSearch.ShortReplaysAreClosed | Solver.cpp:113-139 | While the queue head has path length L, every configuration reachable in fewer than L moves has been expanded. |
| SolverSearch.QueuedAreNotShorter | Solver.cpp:101-137 | The FIFO queue is ordered by path length. |
| SolverSearch.HeadIsShortest | Solver.cpp:113-131 | No move list that solves the level is shorter than the path at the queue head. |
| SolverSearch.SolveBFS | Solver.cpp:100-144 | BFS returns a move list that solves the level, no shorter list existing. Otherwise it returns the empty list and the level is unsolvable. |
| SolverSearch.BfsStep | Solver.cpp:113-139 | One BFS round keeps the search invariant and the layering by path length, and makes progress. |
| SolverSearch.LayerAdded | Solver.cpp:133-139 | Appending the unvisited successors of the head keeps the queue layered. |
| SolverSearch.ClosedStepsLayered | Solver.cpp:133-139 | A move from an expanded configuration reaches a configuration first seen at most one move later. |
| SolverSearch.QueueStaysLayered | Solver.cpp:114-137 | Popping the head and appending nodes one move longer keeps the queue sorted by path length, spanning at most two lengths. |
| SolverSearch.SolveDFS | Solver.cpp:146-189 | DFS returns a move list that solves the level. Otherwise it returns the empty list and the level is unsolvable. |
| SolverSearch.TopIndex | Solver.cpp:222-224 | The element taken from the A* queue has the least f, and it is the first such element. |
| SolverSearch.PriorityBoundsSolutions | Solver.cpp:243-249 | The priority f = g + h of a scored node never exceeds the length of its path plus any move list that solves from it. |
| SolverSearch.ScoreAdded | Solver.cpp:243-249 | Each newly queued node gets its heuristic. Its configuration, path and cost are unchanged. |
| SolverSearch.AddedCosts | Solver.cpp:83-92 | A successor's cost is the length of its path. |
| SolverSearch.ScoredKeepsInv | Solver.cpp:243-249 | Scoring the new nodes keeps the search invariant. |
| SolverSearch.SolveAStar | Solver.cpp:204-253 | A* returns a move list that solves the level. Otherwise it returns the empty list and the level is unsolvable. |
| SolverSearch.BruteForceRecursive | Solver.cpp:275-304 | On failure the solution vector is unchanged and no list of at most maxDepth - depth moves solves from the node. On success the vector is extended by a list of at most maxDepth - depth moves that solves from the node. |
| SolverSearch.SuccessorsOneMoveLonger | Solver.cpp:82-91 | A successor's path is one move longer than its parent's. |
| SolverSearch.SolutionExtends | Solver.cpp:290-297 | A solution found from a child, after that child's move, solves from the parent. |
| SolverSearch.NoChildSolves | Solver.cpp:286-303 | When no child solves within left - 1 moves and the node is not a goal, nothing solves from it within left moves. |
| SolverSearch.SolveBruteForce | Solver.cpp:255-273 | The brute force returns a solution of at most 15 moves. Otherwise it returns the empty list and no list of at most 15 moves solves the level. |
| LiveBoard.SpriteClasses | Maze.cpp:62-103 | A wall is neither box, goal nor free. A free cell holds no box. A cell is both box and goal exactly on BOX_PLACED. Any other sprite is in none of the four classes. |
| LiveBoard.NoLooseBoxMeansBoxesOnGoals | Maze.cpp:105-122 | No cell showing BOX means every box on the grid stands on a goal. |
| LiveBoard.RowCellsSpec | Maze.cpp:214-220 | The cells of a kind found in the first j cells of a line are exactly those cells, ascending. |
| LiveBoard.ScanRowsSpec | Maze.cpp:212-221 | The cells of a kind found in the first n lines are exactly those cells, in ascending order. |
| LiveBoard.CellsOfSpec | Maze.cpp:209-239 | The row-major scan lists every cell of the kind exactly once, ascending. A BOX_PLACED cell is listed both as a box and as a goal. |
| LiveBoard.DeadlocksFollowLayout | Maze.cpp:241-262 | The deadlock marks depend only on walls and goals, so they stay correct while boxes move. |
| LiveBoard.SetCell | Maze.cpp:137-155 | Writing one sprite changes that cell only. |
| LiveBoard.PushBoxGridSpec | Maze.cpp:124-160 | A push is refused exactly when the destination is not ground or goal. An accepted push keeps the walls and goals and moves the box. The old cell shows the goal or ground beneath it, the new one BOX_PLACED on a goal and BOX elsewhere. Nothing else changes. |
| LiveBoard.PushKeepsMarks | Maze.cpp:124-160 | A push keeps the grid's shape and the validity of the deadlock marks. |
| LiveBoard.MaxWidth | Maze.cpp:12-17 | The width is the length of the longest line, or 0 for no lines. |
| LiveBoard.GridOfAsWritten | Maze.cpp:30-42 | The grid Maze::Maze builds: one line per level line, as wide as the widest, short lines padded with ground. No cell shows the player on a goal, and a cell shows PLAYER exactly where the level has `@`. |
| LiveBoard.GridOf | Maze.cpp:19-53 | The intended grid: the same shape and padding, with no player sprite left on any cell. |
| LiveBoard.AsWrittenKeepsPlayer | Maze.cpp:35-42 | The built grid and the intended one have the same shape and differ exactly on the `@` cells, which show PLAYER instead of GROUND. |
| LiveBoard.LayoutKeepsEnclosure | Maze.cpp:124-160 | A region that keeps the player on the grid still does so after boxes move. |
| LiveBoard.MoveStaysEnclosed | Maze.cpp:162-196 | Inside such a region every move reads only cells of the grid. A move keeps the walls and goals and leaves the player in the region. |
| LiveBoard.PlayMoves | Maze.cpp:198-207 | Playing a list of moves leaves the player inside the region. |
| LiveBoard.FacingAfter | Maze.cpp:188-207 | After playing a list of moves the player faces its initial direction or the direction of one of the moves. |
| LiveMaze.GuardLetsFourThrough | Maze.cpp:164-167 | The guard as written accepts code DIRECTION_MAX = 4, which is past the end of `neighbours`. |
| LiveMaze.GuardAcceptsDirections | Maze.cpp:164-167 | The corrected guard accepts exactly the codes 0..3 of the four directions. It accepts nothing the written guard rejects. |
| LiveMaze.LongestLine | Maze.cpp:12-17 | The reading loop measures the longest line. |
| LiveMaze.Maze.constructor | Maze.cpp:6-60 | The grid is the level as Maze::Maze builds it: short lines padded with ground, a `+` start cell showing its goal and a `@` start cell keeping the PLAYER sprite. The player starts on the last player character, facing right. The deadlock marks are computed. |
| LiveMaze.Maze.ReadRow | Maze.cpp:26-51 | One line of the level padded with ground to the width, the start moved to the last player character met on it. |
| LiveMaze.Maze.ComputeStaticDeadlocks | Maze.cpp:241-262 | A cell is marked exactly when it is neither wall nor goal and has a wall above or below together with a wall left or right. Nothing else changes. |
| LiveMaze.Maze.IsDeadlock | Maze.h:81-83 | The mark of a cell says whether it is a dead cell. |
| LiveMaze.Maze.IsSolution | Maze.cpp:105-122 | Answers true exactly when no cell shows a box off its goal. |
| LiveMaze.Maze.Scan | Maze.cpp:209-239 | Lists the cells of one kind in row-major order. |
| LiveMaze.Maze.GetBoxes | Maze.cpp:209-223 | Lists the box cells, placed or not, in row-major order. |
| LiveMaze.Maze.GetGoals | Maze.cpp:225-239 | Lists the goal cells, covered or not, in row-major order. |
| LiveMaze.Maze.PushBox | Maze.cpp:124-160 | Succeeds exactly when the pushed box can move. Then the grid is the pushed grid and the player faces the push direction. A refused push changes nothing. The player cell and the deadlock marks never change. |
| LiveMaze.Maze.UpdatePlayer | Maze.cpp:162-196 | A code the corrected guard of finding 2 refuses, or a blocked move, changes nothing and answers false. A move applies the grid rule, turns the player, and answers whether every box is on a goal. |
| LiveMaze.Maze.PlaySolution | Maze.cpp:198-207 | Playing the moves one by one leaves the maze as the fold of the move rule over the list, a refused move being skipped. The player ends facing the last move that was accepted, or as before when none was. |
| LiveMaze.Load | Maze.cpp:6-60 | A level wider or taller than 100 is refused. Any other level gives a valid maze with the grid as Maze::Maze builds it and the start cell above. |
| SolverSetup.SetOf | Solver.cpp:27-28 | The box set holds exactly the listed cells. |
| SolverSetup.NewSolver | Solver.cpp:5-29 | The snapshot copies the size and the player. Its walls and goals are the grid's, in row-major order, and its boxes the grid's box cells. Its deadlock marks are exactly the maze's dead cells. |
| Agreement.BoxSetSpec | Solver.cpp:27-28 | The snapshot's box set holds exactly the grid's box cells. |
| Agreement.SnapshotEncodes | Solver.cpp:5-29 | A snapshot describes the walls, goals and boxes of the grid it was taken from. |
| Agreement.GridRegionEncloses | Solver.cpp:46-98 | A region enclosed on the grid also encloses the snapshot, so the searches terminate. |
| Agreement.PushedBoxes | Maze.cpp:137-155 | A push on the grid moves one cell out of the box set and one in, keeping the box count. |
| Agreement.PushedLayout | Maze.cpp:137-155 | A push keeps the grid described by the snapshot, and keeps it clean. |
| Agreement.MoveAgrees | Maze.cpp:162-196 | On a clean grid the maze accepts a move exactly when expand does, and both reach the same configuration. |
| Agreement.ReplayAgrees | Maze.cpp:198-207 | A move list the solver can replay, played on the maze, reaches the configuration of the replay. |
| Agreement.SolutionSolvesGrid | Maze.cpp:198-207 | A solver's solution played on a clean maze leaves no box off a goal. |
| Agreement.DeadCellIsWallCorner | Maze.cpp:241-262 | A cell marked dead is a corner of the snapshot's walls and not one of its goals. |
| Agreement.CornerBoxStays | Solver.cpp:61-85 | No move pushes a box out of a wall corner. |
| Agreement.CornerBoxNeverMoves | Solver.cpp:61-85 | No list of moves pushes a box out of a wall corner. |
| Agreement.DeadBoxIsFatal | Solver.cpp:74 | A configuration with a box on a marked cell has no solution, so the pruning left commented out in expand would lose none. |
| Agreement.LevelGridIsClean | Maze.cpp:30-42 | A level written in the level characters gives, once corrected, a grid of the five board sprites only. |
| Agreement.StartCellBlocksSolution | Maze.cpp:35-42 | As written: the start cell keeps the PLAYER sprite. On the example level a six-move list solves the solver's snapshot, but played on the maze it leaves the box off its goal. |
| Agreement.StartSolutionRefused | Maze.cpp:124-135 | The push back onto the start cell is refused, because the PLAYER sprite there is not free. |
| Agreement.StartCellCorrected | Maze.cpp:35-42 | Corrected: on the intended grid, with the start cell shown as ground, the same list solves both the snapshot and the maze. |

## Left out

- Reading the level file is left out, because it is I/O. The constructor receives the file's lines.
- The drawing is left out, because it is rendering: `Maze::draw`, the `GraphicAllegro5` calls in `playSolution`, and all console output of the solvers.
- Node counts and `Square::position` are left out, because no result depends on them.
- `main.cpp` and the graphics layer are not part of this model.
- `Maze::generate` and `Solver::isDeadlock` are declared in the headers but have no definition, so they are not modelled.
- LiveMaze.Maze.ComputeStaticDeadlocks: a neighbour outside the grid is read as not a wall. The source reads out of bounds there (row or column -1, or one past the end), which is undefined behaviour.
- LiveMaze.Maze.PushBox requires a box at the pushed cell and the destination cell on the grid. Its only caller, updatePlayer, guarantees the first. The second holds whenever the level is enclosed by walls.
- LiveMaze.Maze.UpdatePlayer requires the move to stay on the grid. The source indexes the grid without a bounds check, so a level that is not closed by walls has undefined behaviour there. It also runs the corrected guard of finding 2: code DIRECTION_MAX is refused with nothing changed, where the source lets it through and reads `neighbours[4]`, which is undefined behaviour.
- LiveMaze.Maze.PlaySolution takes directions rather than raw char codes. It needs a ghost region of cells that keeps the player on the grid, which is the same condition.
- The sprite `OUTSIDE` and any stray character in a level file are kept on the grid but excluded from the agreement lemmas by `Agreement.Clean`. The solver treats them as free floor; the maze treats them as neither free nor wall.
- SolverSearch.SolveBFS, SolverSearch.SolveDFS and SolverSearch.SolveAStar take a ghost region of cells that encloses the level. It gives termination and is not a parameter of the source. `Solver::isWall` (Solver.cpp:32-37) reads every cell off the grid as open, so on a level not closed by walls the space of configurations is infinite. BFS and A* then do not end when the level has no solution, and DFS may not end even when it has one. Such levels are not modelled. `Agreement.GridRegionEncloses` derives one from any region enclosed on the grid.
- SolverSearch.SolveAStar: the `std::priority_queue` is modelled as a sequence from which the first node of least f is taken, so the heap's tie-break among equal f is not modelled. No optimality is claimed, because the source marks nodes visited when it queues them.
- SolverSearch.SolveDFS: its stack is the end of the frontier sequence.
- SolverRules.CalculateHeuristic: the sum is an unbounded integer. The source adds into an `int`, and on a level with no goal every box contributes 999999, so a level of at least 2148 boxes and no goal overflows it (2148 × 999999 = 2,147,997,852 > 2^31 - 1), which is undefined behaviour and is not modelled.
- Costs and coordinates are unbounded integers too. Coordinates stay far inside `int` on levels of at most 100 × 100 cells, and a cost is the length of a path the search holds in memory.
- `Node::path` is a sequence of directions. The source stores the codes 0..3 as chars in a `std::string`.

## Findings

| source | as written | input that shows it | evidently intended | confidence | as-written member | corrected member |
|---|---|---|---|---|---|---|
| Maze.cpp:35-42 | On a `@` start cell the constructor keeps the PLAYER sprite; only `+` is replaced by GOAL. `isFree` rejects PLAYER, so no box can ever be pushed onto the start cell. The solver's snapshot treats the cell as floor. | The level `######`, `#.@$ #`, `#    #`, `######` with the moves BOTTOM, RIGHT, RIGHT, TOP, LEFT, LEFT. The solver accepts the list as a solution, but the last two pushes are refused on the maze and the box stays off its goal. | The start cell shows GROUND, as a `+` cell shows GOAL. | not executed | Agreement.StartCellBlocksSolution | Agreement.StartCellCorrected |
| Maze.cpp:164-167 | The guard rejects `dir > DIRECTION_MAX`, so code 4 passes and `neighbours[4]` is read past the end of the table. | updatePlayer(4) | Reject `dir >= DIRECTION_MAX`. | not executed | LiveMaze.GuardLetsFourThrough | LiveMaze.GuardAcceptsDirections |
