/**
 * The solver's view of a level (Solver.cpp): the static wall and goal
 * lists, the start configuration, the move rule that `expand` applies to a
 * node, the replay of a move list through that rule, and the box-to-goal
 * distance heuristic used by A*.
 */
module SolverRules {
  import opened Wrappers
  import opened MazeTypes
  import opened SearchNode

  /**
   * The data a Solver holds after construction; none of it changes during
   * a search. `walls` and `goals` are the lists the constructor collects in
   * row-major order.
   */
  datatype Board = Board(
    walls: seq<Pos>,
    goals: seq<Pos>,
    maxRow: int,
    maxCol: int,
    startPlayer: Pos,
    startBoxes: set<Pos>,
    staticDeadlocks: seq<seq<bool>>)

  /** Initial value of the nearest-goal search in calculateHeuristic. */
  const NO_GOAL_DISTANCE: int := 999999

  function StartConfig(b: Board): Config {
    Config(b.startPlayer, b.startBoxes)
  }

  /** The node every search starts from: empty path, cost and heuristic 0. */
  function StartNode(b: Board): Node {
    Node(b.startPlayer, b.startBoxes, [], 0, 0)
  }

  /** Solver::isWall: a linear search of the wall list. */
  method IsWall(b: Board, p: Pos) returns (r: bool)
    ensures r <==> p in b.walls
  {
    for i := 0 to |b.walls|
      invariant p !in b.walls[..i]
    {
      if b.walls[i] == p {
        return true;
      }
    }
    return false;
  }

  /** Solver::isGoal: a linear search of the goal list. */
  method IsGoal(b: Board, p: Pos) returns (r: bool)
    ensures r <==> p in b.goals
  {
    for i := 0 to |b.goals|
      invariant p !in b.goals[..i]
    {
      if b.goals[i] == p {
        return true;
      }
    }
    return false;
  }

  // ---------------------------------------------------------------------
  // The move rule
  // ---------------------------------------------------------------------

  /**
   * One move of `expand` on a configuration: a wall stops it, an empty
   * cell is a walk, a box is pushed one cell further unless a wall or
   * another box stands there.
   */
  function Step(b: Board, c: Config, d: Dir): (r: Option<Config>)
    ensures r.Some? ==> r.value.player == Move(c.player, d)
    ensures r.Some? ==> r.value.player !in b.walls && r.value.player !in r.value.boxes
    ensures r.Some? ==> |r.value.boxes| == |c.boxes|
  {
    var target := Move(c.player, d);
    if target in b.walls then None
    else if target in c.boxes then
      var beyond := Move(target, d);
      if beyond in b.walls || beyond in c.boxes then None
      else
        assert |c.boxes - {target}| == |c.boxes| - 1;
        Some(Config(target, c.boxes - {target} + {beyond}))
    else Some(Config(target, c.boxes))
  }

  /** A walk keeps the box set and is refused only by a wall. */
  lemma WalkRule(b: Board, c: Config, d: Dir)
    requires Move(c.player, d) !in c.boxes
    ensures Step(b, c, d).Some? <==> Move(c.player, d) !in b.walls
    ensures Step(b, c, d).Some? ==> Step(b, c, d).value == Config(Move(c.player, d), c.boxes)
  {
  }

  /**
   * A push moves exactly the box in front of the player one cell further,
   * and is refused when that cell is a wall or holds another box.
   */
  lemma PushRule(b: Board, c: Config, d: Dir)
    requires Move(c.player, d) in c.boxes
    ensures Step(b, c, d).Some? <==>
      Move(c.player, d) !in b.walls && Move(Move(c.player, d), d) !in b.walls && Move(Move(c.player, d), d) !in c.boxes
    ensures Step(b, c, d).Some? ==>
      var r := Step(b, c, d).value;
      && Move(Move(c.player, d), d) in r.boxes
      && Move(c.player, d) !in r.boxes
      && (forall x :: x != Move(c.player, d) && x != Move(Move(c.player, d), d) ==> (x in r.boxes <==> x in c.boxes))
  {
  }

  /** The successor node for direction d, if the move is allowed. */
  function Child(b: Board, n: Node, d: Dir): Option<Node> {
    match Step(b, Key(n), d)
    case None => None
    case Some(c) => Some(Node(c.player, c.boxes, n.path + [d], n.cost + 1, n.heuristic))
  }

  function ChildrenFor(b: Board, n: Node, ds: seq<Dir>): seq<Node>
    decreases |ds|
  {
    if ds == [] then []
    else
      var d := ds[|ds| - 1];
      ChildrenFor(b, n, ds[..|ds| - 1]) + (if Child(b, n, d).Some? then [Child(b, n, d).value] else [])
  }

  /** What `expand` returns: the children for TOP, BOTTOM, LEFT, RIGHT in that order. */
  function Successors(b: Board, n: Node): seq<Node> {
    ChildrenFor(b, n, ALL_DIRS)
  }

  function LastMove(s: Node): Dir
    requires |s.path| > 0
  {
    s.path[|s.path| - 1]
  }

  lemma {:induction false} ChildrenForSpec(b: Board, n: Node, ds: seq<Dir>)
    ensures |ChildrenFor(b, n, ds)| <= |ds|
    ensures forall s :: s in ChildrenFor(b, n, ds) ==>
      |s.path| == |n.path| + 1 && LastMove(s) in ds && Child(b, n, LastMove(s)) == Some(s)
    ensures forall d :: d in ds && Child(b, n, d).Some? ==> Child(b, n, d).value in ChildrenFor(b, n, ds)
    decreases |ds|
  {
    if ds != [] {
      var init := ds[..|ds| - 1];
      ChildrenForSpec(b, n, init);
      assert ds == init + [ds[|ds| - 1]];
    }
  }

  lemma {:induction false} ChildrenForOrdered(b: Board, n: Node, ds: seq<Dir>)
    requires forall i, j :: 0 <= i < j < |ds| ==> Code(ds[i]) < Code(ds[j])
    ensures forall i, j :: 0 <= i < j < |ChildrenFor(b, n, ds)| ==>
      |ChildrenFor(b, n, ds)[i].path| > 0 && |ChildrenFor(b, n, ds)[j].path| > 0 &&
      Code(LastMove(ChildrenFor(b, n, ds)[i])) < Code(LastMove(ChildrenFor(b, n, ds)[j]))
    decreases |ds|
  {
    if ds != [] {
      var init := ds[..|ds| - 1];
      ChildrenForOrdered(b, n, init);
      ChildrenForSpec(b, n, init);
      ChildrenForSpec(b, n, ds);
      var last := ds[|ds| - 1];
      var prefix := ChildrenFor(b, n, init);
      var r := ChildrenFor(b, n, ds);
      forall s | s in prefix
        ensures Code(LastMove(s)) < Code(last)
      {
        var k :| 0 <= k < |init| && init[k] == LastMove(s);
      }
      forall i, j | 0 <= i < j < |r|
        ensures |r[i].path| > 0 && |r[j].path| > 0 && Code(LastMove(r[i])) < Code(LastMove(r[j]))
      {
        if j >= |prefix| {
          assert r[j] == Child(b, n, last).value;
          assert r[i] == prefix[i];
        } else {
          assert r[i] == prefix[i] && r[j] == prefix[j];
        }
      }
      assert r == ChildrenFor(b, n, ds);
    } else {
      assert ChildrenFor(b, n, ds) == [];
    }
  }

  /**
   * The successors of a node: at most four, in direction order, each one
   * the parent's path plus its direction at cost + 1, and one for every
   * direction whose move is allowed.
   */
  lemma SuccessorsSpec(b: Board, n: Node)
    ensures |Successors(b, n)| <= 4
    ensures forall i, j :: 0 <= i < j < |Successors(b, n)| ==>
      |Successors(b, n)[i].path| > 0 && |Successors(b, n)[j].path| > 0 &&
      Code(LastMove(Successors(b, n)[i])) < Code(LastMove(Successors(b, n)[j]))
    ensures forall s :: s in Successors(b, n) ==>
      && |s.path| == |n.path| + 1
      && Child(b, n, LastMove(s)) == Some(s)
      && s.path == n.path + [LastMove(s)]
      && s.cost == n.cost + 1
      && s.playerPos !in b.walls
      && |s.boxes| == |n.boxes|
    ensures forall d :: Step(b, Key(n), d).Some? ==> Child(b, n, d).value in Successors(b, n)
  {
    ChildrenForSpec(b, n, ALL_DIRS);
    ChildrenForOrdered(b, n, ALL_DIRS);
    forall d | Step(b, Key(n), d).Some?
      ensures Child(b, n, d).value in Successors(b, n)
    {
      assert d in ALL_DIRS by { assert ALL_DIRS[Code(d)] == d; }
    }
  }

  /** A successor is its parent moved one step in the direction its path ends with. */
  lemma SuccessorMove(b: Board, n: Node, s: Node)
    requires s in Successors(b, n)
    ensures |s.path| == |n.path| + 1 && s.path == n.path + [LastMove(s)]
    ensures Step(b, Key(n), LastMove(s)) == Some(Key(s))
  {
    SuccessorsSpec(b, n);
  }

  /** Solver::expand: tries TOP, BOTTOM, LEFT, RIGHT and collects the legal moves. */
  method Expand(b: Board, current: Node) returns (successors: seq<Node>)
    ensures successors == Successors(b, current)
  {
    successors := [];
    for i := 0 to 4
      invariant successors == ChildrenFor(b, current, ALL_DIRS[..i])
    {
      var d := ALL_DIRS[i];
      assert ALL_DIRS[..i + 1][..i] == ALL_DIRS[..i];
      var newPos := Move(current.playerPos, d);
      var wall := IsWall(b, newPos);
      if wall {
        continue;
      }
      if newPos in current.boxes {
        var newBoxPos := Move(newPos, d);
        wall := IsWall(b, newBoxPos);
        if wall {
          continue;
        }
        if newBoxPos in current.boxes {
          continue;
        }
        var nextBoxes := current.boxes - {newPos} + {newBoxPos};
        successors := successors + [Node(newPos, nextBoxes, current.path + [d], current.cost + 1, current.heuristic)];
      } else {
        successors := successors + [Node(newPos, current.boxes, current.path + [d], current.cost + 1, current.heuristic)];
      }
    }
    assert ALL_DIRS[..4] == ALL_DIRS;
  }

  // ---------------------------------------------------------------------
  // Replaying a move list and the goal test
  // ---------------------------------------------------------------------

  /** Applies the moves one at a time; None as soon as one is refused. */
  function Replay(b: Board, c: Config, moves: seq<Dir>): Option<Config>
    decreases |moves|
  {
    if moves == [] then Some(c)
    else
      match Step(b, c, moves[0])
      case None => None
      case Some(next) => Replay(b, next, moves[1..])
  }

  lemma {:induction false} ReplayAppend(b: Board, c: Config, moves: seq<Dir>, d: Dir)
    ensures Replay(b, c, moves + [d]) ==
      (if Replay(b, c, moves).Some? then Step(b, Replay(b, c, moves).value, d) else None)
    decreases |moves|
  {
    if moves == [] {
      assert [d][1..] == [];
    } else {
      assert (moves + [d])[1..] == moves[1..] + [d];
      if Step(b, c, moves[0]).Some? {
        ReplayAppend(b, Step(b, c, moves[0]).value, moves[1..], d);
      }
    }
  }

  /** Replaying keeps the number of boxes. */
  lemma {:induction false} ReplayKeepsBoxCount(b: Board, c: Config, moves: seq<Dir>)
    ensures Replay(b, c, moves).Some? ==> |Replay(b, c, moves).value.boxes| == |c.boxes|
    decreases |moves|
  {
    if moves != [] && Step(b, c, moves[0]).Some? {
      ReplayKeepsBoxCount(b, Step(b, c, moves[0]).value, moves[1..]);
    }
  }

  /** The goal test: every box on a goal. */
  predicate AllOnGoals(b: Board, boxes: set<Pos>) {
    forall x :: x in boxes ==> x in b.goals
  }

  /** The goal test every solver runs on a dequeued node. */
  method AllBoxesOnGoals(b: Board, boxes: set<Pos>) returns (allOnGoal: bool)
    ensures allOnGoal <==> AllOnGoals(b, boxes)
  {
    var rest := boxes;
    while rest != {}
      invariant rest <= boxes
      invariant forall x :: x in boxes - rest ==> x in b.goals
      decreases |rest|
    {
      var box :| box in rest;
      var goal := IsGoal(b, box);
      if !goal {
        return false;
      }
      rest := rest - {box};
    }
    return true;
  }

  /** The moves lead from the start to a configuration with every box on a goal. */
  predicate Solves(b: Board, moves: seq<Dir>) {
    var r := Replay(b, StartConfig(b), moves);
    r.Some? && AllOnGoals(b, r.value.boxes)
  }

  /** No move list solves the level. */
  ghost predicate Unsolvable(b: Board) {
    forall moves :: !Solves(b, moves)
  }

  // ---------------------------------------------------------------------
  // The heuristic
  // ---------------------------------------------------------------------

  function Min(a: int, b: int): int {
    if a <= b then a else b
  }

  /** The nearest-goal distance after scanning the first k goals. */
  function MinDistUpTo(x: Pos, goals: seq<Pos>, k: nat): int
    requires k <= |goals|
  {
    if k == 0 then NO_GOAL_DISTANCE
    else Min(MinDistUpTo(x, goals, k - 1), Manhattan(x, goals[k - 1]))
  }

  /** Distance from x to its nearest goal, NO_GOAL_DISTANCE when there is none nearer. */
  function MinDist(x: Pos, goals: seq<Pos>): int {
    MinDistUpTo(x, goals, |goals|)
  }

  lemma {:induction false} MinDistUpToSpec(x: Pos, goals: seq<Pos>, k: nat)
    requires k <= |goals|
    ensures 0 <= MinDistUpTo(x, goals, k) <= NO_GOAL_DISTANCE
    ensures forall i :: 0 <= i < k ==> MinDistUpTo(x, goals, k) <= Manhattan(x, goals[i])
    ensures MinDistUpTo(x, goals, k) == NO_GOAL_DISTANCE ||
      exists i :: 0 <= i < k && MinDistUpTo(x, goals, k) == Manhattan(x, goals[i])
  {
    if k > 0 {
      MinDistUpToSpec(x, goals, k - 1);
    }
  }

  /**
   * The nearest-goal distance: no goal is nearer, and it is the distance
   * to some goal unless it is the no-goal value.
   */
  lemma MinDistSpec(x: Pos, goals: seq<Pos>)
    ensures 0 <= MinDist(x, goals) <= NO_GOAL_DISTANCE
    ensures forall g :: g in goals ==> MinDist(x, goals) <= Manhattan(x, g)
    ensures MinDist(x, goals) == NO_GOAL_DISTANCE ||
      exists g :: g in goals && MinDist(x, goals) == Manhattan(x, g)
    ensures MinDist(x, goals) == 0 <==> x in goals
  {
    MinDistUpToSpec(x, goals, |goals|);
    if x in goals {
      var i :| 0 <= i < |goals| && goals[i] == x;
      assert Manhattan(x, goals[i]) == 0;
    }
  }

  /** The heuristic of calculateHeuristic: the nearest-goal distances of all boxes, summed. */
  ghost function Heuristic(boxes: set<Pos>, goals: seq<Pos>): int
    decreases |boxes|
  {
    if boxes == {} then 0
    else
      var x :| x in boxes;
      MinDist(x, goals) + Heuristic(boxes - {x}, goals)
  }

  /** The sum does not depend on which box is taken first. */
  lemma {:induction false} HeuristicRemove(boxes: set<Pos>, y: Pos, goals: seq<Pos>)
    requires y in boxes
    ensures Heuristic(boxes, goals) == MinDist(y, goals) + Heuristic(boxes - {y}, goals)
    decreases |boxes|
  {
    var x :| x in boxes && Heuristic(boxes, goals) == MinDist(x, goals) + Heuristic(boxes - {x}, goals);
    if x != y {
      HeuristicRemove(boxes - {x}, y, goals);
      HeuristicRemove(boxes - {y}, x, goals);
      assert boxes - {x} - {y} == boxes - {y} - {x};
    }
  }

  /** Solver::calculateHeuristic. */
  method CalculateHeuristic(b: Board, node: Node) returns (h: int)
    ensures h == Heuristic(node.boxes, b.goals)
  {
    h := 0;
    var rest := node.boxes;
    while rest != {}
      invariant rest <= node.boxes
      invariant h + Heuristic(rest, b.goals) == Heuristic(node.boxes, b.goals)
      decreases |rest|
    {
      var box :| box in rest;
      var minDist := NO_GOAL_DISTANCE;
      for i := 0 to |b.goals|
        invariant minDist == MinDistUpTo(box, b.goals, i)
      {
        var goal := b.goals[i];
        var d := Abs(box.0 - goal.0) + Abs(box.1 - goal.1);
        if d < minDist {
          minDist := d;
        }
      }
      HeuristicRemove(rest, box, b.goals);
      h := h + minDist;
      rest := rest - {box};
    }
  }

  /** The heuristic is non-negative and is 0 exactly when every box is on a goal. */
  lemma {:induction false} HeuristicZeroIffSolved(boxes: set<Pos>, goals: seq<Pos>)
    ensures Heuristic(boxes, goals) >= 0
    ensures Heuristic(boxes, goals) == 0 <==> forall x :: x in boxes ==> x in goals
    decreases |boxes|
  {
    if boxes != {} {
      var x :| x in boxes;
      HeuristicRemove(boxes, x, goals);
      HeuristicZeroIffSolved(boxes - {x}, goals);
      MinDistSpec(x, goals);
    }
  }

  lemma ManhattanTriangle(a: Pos, b: Pos, g: Pos)
    ensures Manhattan(a, g) <= Manhattan(a, b) + Manhattan(b, g)
  {
  }

  lemma {:induction false} MinDistUpToLipschitz(x: Pos, y: Pos, goals: seq<Pos>, k: nat)
    requires k <= |goals|
    ensures MinDistUpTo(x, goals, k) <= MinDistUpTo(y, goals, k) + Manhattan(x, y)
  {
    if k > 0 {
      MinDistUpToLipschitz(x, y, goals, k - 1);
      ManhattanTriangle(x, y, goals[k - 1]);
    }
  }

  /** One move changes the heuristic by at most one: it is consistent with unit move costs. */
  lemma HeuristicStepBound(b: Board, c: Config, d: Dir)
    requires Step(b, c, d).Some?
    ensures Heuristic(c.boxes, b.goals) - 1 <= Heuristic(Step(b, c, d).value.boxes, b.goals) <= Heuristic(c.boxes, b.goals) + 1
  {
    var t := Move(c.player, d);
    if t in c.boxes {
      var beyond := Move(t, d);
      var after := Step(b, c, d).value.boxes;
      HeuristicRemove(c.boxes, t, b.goals);
      HeuristicRemove(after, beyond, b.goals);
      assert after - {beyond} == c.boxes - {t};
      MinDistUpToLipschitz(t, beyond, b.goals, |b.goals|);
      MinDistUpToLipschitz(beyond, t, b.goals, |b.goals|);
    }
  }

  /**
   * The heuristic never overestimates: any move list that puts every box
   * on a goal is at least as long as the heuristic of its first configuration.
   */
  lemma {:induction false} HeuristicAdmissible(b: Board, c: Config, moves: seq<Dir>)
    requires Replay(b, c, moves).Some? && AllOnGoals(b, Replay(b, c, moves).value.boxes)
    ensures Heuristic(c.boxes, b.goals) <= |moves|
    decreases |moves|
  {
    if moves == [] {
      HeuristicZeroIffSolved(c.boxes, b.goals);
    } else {
      var next := Step(b, c, moves[0]).value;
      HeuristicAdmissible(b, next, moves[1..]);
      HeuristicStepBound(b, c, moves[0]);
    }
  }
}
