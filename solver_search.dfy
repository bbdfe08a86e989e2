/**
 * The four solving strategies of Solver.cpp: breadth-first with a FIFO
 * queue, depth-first with a LIFO stack, A* with a queue ordered by f, and
 * depth-bounded backtracking. Each returns a move list; an empty list
 * means no solution was found.
 */
module SolverSearch {
  import opened Wrappers
  import opened MazeTypes
  import opened SearchNode
  import opened SolverRules
  import opened SearchSpace

  /** Bound of the backtracking search. */
  const BRUTE_FORCE_MAX_DEPTH: int := 15

  /** The moves put every box on a goal when replayed from c. */
  predicate SolvesFrom(b: Board, c: Config, moves: seq<Dir>) {
    var r := Replay(b, c, moves);
    r.Some? && AllOnGoals(b, r.value.boxes)
  }

  /** No list of at most `left` moves solves from c. */
  ghost predicate NoSolutionWithin(b: Board, c: Config, left: int) {
    forall moves :: |moves| <= left ==> !SolvesFrom(b, c, moves)
  }

  // ---------------------------------------------------------------------
  // Breadth-first search
  // ---------------------------------------------------------------------

  /**
   * The layering that makes BFS optimal. `dist` records, for each visited
   * configuration, the length of the path it was first reached by. The
   * queue is ordered by path length and spans at most two lengths; a
   * closed configuration's moves all lead to configurations at most one
   * step further.
   */
  ghost predicate Layered(b: Board, queue: seq<Node>, visited: set<Config>, closed: set<Config>, dist: map<Config, nat>) {
    && dist.Keys == visited
    && closed <= visited
    && StartConfig(b) in dist && dist[StartConfig(b)] == 0
    && (forall q :: q in queue ==> Key(q) in dist && dist[Key(q)] == |q.path|)
    && (forall i, j :: 0 <= i < j < |queue| ==> |queue[i].path| <= |queue[j].path|)
    && (queue != [] ==> |queue[|queue| - 1].path| <= |queue[0].path| + 1)
    && (queue != [] ==> forall c :: c in visited ==> dist[c] <= |queue[0].path| + 1)
    && (queue != [] ==> forall c :: c in closed ==> dist[c] <= |queue[0].path|)
    && (forall c, d :: c in closed && c in dist && Step(b, c, d).Some? && Step(b, c, d).value in dist ==>
          dist[Step(b, c, d).value] <= dist[c] + 1)
  }

  /**
   * While the head of the queue has path length L, every configuration
   * reachable in fewer than L moves is closed and was reached by a path no
   * longer than that.
   */
  lemma {:induction false} ShortReplaysAreClosed(b: Board, region: set<Pos>, queue: seq<Node>, visited: set<Config>,
                                                 closed: set<Config>, dist: map<Config, nat>, moves: seq<Dir>)
    requires queue != []
    requires SearchInv(b, region, queue, visited, closed) && Layered(b, queue, visited, closed, dist)
    requires |moves| < |queue[0].path|
    requires Replay(b, StartConfig(b), moves).Some?
    ensures Replay(b, StartConfig(b), moves).value in closed
    ensures dist[Replay(b, StartConfig(b), moves).value] <= |moves|
    decreases |moves|
  {
    var c := Replay(b, StartConfig(b), moves).value;
    if moves == [] {
      assert c == StartConfig(b);
    } else {
      var init, d := moves[..|moves| - 1], moves[|moves| - 1];
      assert moves == init + [d];
      ReplayAppend(b, StartConfig(b), init, d);
      ShortReplaysAreClosed(b, region, queue, visited, closed, dist, init);
      var prev := Replay(b, StartConfig(b), init).value;
      assert Step(b, prev, d) == Some(c);
    }
    QueuedAreNotShorter(b, queue, visited, closed, dist);
  }

  /** Every configuration waiting in the queue was reached by a path at least as long as the head's. */
  lemma QueuedAreNotShorter(b: Board, queue: seq<Node>, visited: set<Config>, closed: set<Config>, dist: map<Config, nat>)
    requires queue != []
    requires Layered(b, queue, visited, closed, dist)
    ensures forall c :: c in Keys(queue) ==> c in dist && dist[c] >= |queue[0].path|
  {
    forall c | c in Keys(queue)
      ensures c in dist && dist[c] >= |queue[0].path|
    {
      var q :| q in queue && Key(q) == c;
      var k :| 0 <= k < |queue| && queue[k] == q;
      assert k == 0 || |queue[0].path| <= |queue[k].path|;
    }
  }

  /** A goal at the head of the queue is reached by a shortest solving move list. */
  lemma HeadIsShortest(b: Board, region: set<Pos>, queue: seq<Node>, visited: set<Config>,
                       closed: set<Config>, dist: map<Config, nat>)
    requires queue != []
    requires SearchInv(b, region, queue, visited, closed) && Layered(b, queue, visited, closed, dist)
    ensures forall moves :: Solves(b, moves) ==> |queue[0].path| <= |moves|
  {
    forall moves | Solves(b, moves)
      ensures |queue[0].path| <= |moves|
    {
      if |moves| < |queue[0].path| {
        ShortReplaysAreClosed(b, region, queue, visited, closed, dist, moves);
      }
    }
  }

  /**
   * Solver::solveBFS. The result solves the level and no shorter move list
   * does; an empty result means the start is already solved or nothing
   * solves the level.
   */
  method SolveBFS(b: Board, ghost region: set<Pos>) returns (path: seq<Dir>)
    requires Enclosed(b, region)
    ensures Solves(b, path) || (path == [] && Unsolvable(b))
    ensures Solves(b, path) ==> forall moves :: Solves(b, moves) ==> |path| <= |moves|
  {
    var startNode := StartNode(b);
    var openSet := [startNode];
    var visited := {StartConfig(b)};
    ghost var closed: set<Config> := {};
    ghost var dist: map<Config, nat> := map[StartConfig(b) := 0];
    SearchInvInit(b, region, startNode);

    while openSet != []
      invariant SearchInv(b, region, openSet, visited, closed)
      invariant Layered(b, openSet, visited, closed, dist)
      decreases Universe(region) - visited, |openSet|
    {
      ghost var queue0, visited0 := openSet, visited;
      var current := openSet[0];
      openSet := openSet[1..];
      WaitingFacts(b, region, queue0, visited0, closed, 0);

      var allOnGoal := AllBoxesOnGoals(b, current.boxes);
      if allOnGoal {
        HeadIsShortest(b, region, queue0, visited0, closed, dist);
        return current.path;
      }

      var nextNodes := Expand(b, current);
      ghost var rest, added := openSet, [];
      openSet, visited, added := EnqueueUnvisited(b, region, current, nextNodes, openSet, visited);
      dist := BfsStep(b, region, queue0, rest, added, visited0, visited, closed, dist);
      closed := closed + {Key(current)};
    }
    ExhaustedMeansUnsolvable(b, region, visited, closed);
    return [];
  }

  /** One round of BFS keeps both the search invariant and the layering, and makes progress. */
  lemma BfsStep(b: Board, region: set<Pos>, queue: seq<Node>, rest: seq<Node>, added: seq<Node>,
                visited: set<Config>, visited': set<Config>, closed: set<Config>, dist: map<Config, nat>)
    returns (dist': map<Config, nat>)
    requires Enclosed(b, region)
    requires queue != [] && rest == queue[1..]
    requires SearchInv(b, region, queue, visited, closed) && Layered(b, queue, visited, closed, dist)
    requires !AllOnGoals(b, queue[0].boxes)
    requires visited <= visited'
    requires forall s :: s in Successors(b, queue[0]) ==> Key(s) in visited'
    requires Keys(added) == visited' - visited && (visited' == visited ==> added == [])
    requires forall q :: q in added ==> q in Successors(b, queue[0])
    requires forall c :: c in visited' - visited ==> InRegion(c, region)
    requires PathsReplay(b, added) && DistinctKeys(added)
    ensures SearchInv(b, region, rest + added, visited', closed + {Key(queue[0])})
    ensures Layered(b, rest + added, visited', closed + {Key(queue[0])}, dist')
    ensures Universe(region) - visited' <= Universe(region) - visited
    ensures Universe(region) - visited' < Universe(region) - visited || (visited' == visited && |rest + added| < |queue|)
  {
    assert rest == queue[..0] + queue[0 + 1..];
    ExpandStep(b, region, queue, 0, rest, added, visited, visited', closed);
    dist' := LayerAdded(b, queue, added, visited, visited', closed, dist);
  }

  /** The distances after one BFS step: each newly visited configuration is one step beyond the head. */
  lemma LayerAdded(b: Board, queue: seq<Node>, added: seq<Node>, visited: set<Config>, visited': set<Config>,
                   closed: set<Config>, dist: map<Config, nat>)
    returns (dist': map<Config, nat>)
    requires queue != []
    requires Layered(b, queue, visited, closed, dist)
    requires visited <= visited' && Keys(added) == visited' - visited
    requires forall q :: q in added ==> q in Successors(b, queue[0])
    requires forall s :: s in Successors(b, queue[0]) ==> Key(s) in visited'
    requires forall c, d :: c in closed && Step(b, c, d).Some? ==> Step(b, c, d).value in visited
    ensures Layered(b, queue[1..] + added, visited', closed + {Key(queue[0])}, dist')
  {
    var current := queue[0];
    var L := |current.path|;
    SuccessorsOneMoveLonger(b, current);
    dist' := map c | c in visited' :: if c in visited then dist[c] else L + 1;
    forall q | q in added
      ensures Key(q) in dist' && dist'[Key(q)] == |q.path|
    {
      assert Key(q) in Keys(added);
    }
    forall q | q in queue[1..]
      ensures Key(q) in dist' && dist'[Key(q)] == |q.path|
    {
    }
    QueueStaysLayered(queue, added);
    ClosedStepsLayered(b, queue, visited, visited', closed, dist, dist');
  }

  /** After one BFS step every move from a closed configuration still gains at most one layer. */
  lemma ClosedStepsLayered(b: Board, queue: seq<Node>, visited: set<Config>, visited': set<Config>,
                           closed: set<Config>, dist: map<Config, nat>, dist': map<Config, nat>)
    requires queue != []
    requires Layered(b, queue, visited, closed, dist)
    requires visited <= visited'
    requires dist' == map c | c in visited' :: if c in visited then dist[c] else |queue[0].path| + 1
    requires forall c, d :: c in closed && Step(b, c, d).Some? ==> Step(b, c, d).value in visited
    ensures forall c, d :: c in closed + {Key(queue[0])} && c in dist' && Step(b, c, d).Some? && Step(b, c, d).value in dist' ==>
      dist'[Step(b, c, d).value] <= dist'[c] + 1
  {
    forall c, d | c in closed + {Key(queue[0])} && c in dist' && Step(b, c, d).Some? && Step(b, c, d).value in dist'
      ensures dist'[Step(b, c, d).value] <= dist'[c] + 1
    {
      if c == Key(queue[0]) {
        assert queue[0] in queue;
        assert dist'[c] == |queue[0].path|;
      } else {
        assert Step(b, c, d).value in visited;
      }
    }
  }

  /**
   * Dropping the head of a queue ordered by path length, whose lengths
   * span at most two values, and appending nodes one move longer than the
   * head keeps it so.
   */
  lemma QueueStaysLayered(queue: seq<Node>, added: seq<Node>)
    requires queue != []
    requires forall i, j :: 0 <= i < j < |queue| ==> |queue[i].path| <= |queue[j].path|
    requires |queue[|queue| - 1].path| <= |queue[0].path| + 1
    requires forall q :: q in added ==> |q.path| == |queue[0].path| + 1
    ensures var q' := queue[1..] + added;
      && (forall i, j :: 0 <= i < j < |q'| ==> |q'[i].path| <= |q'[j].path|)
      && (q' != [] ==> |queue[0].path| <= |q'[0].path| && |q'[|q'| - 1].path| <= |queue[0].path| + 1)
  {
    var L := |queue[0].path|;
    var q' := queue[1..] + added;
    forall i, j | 0 <= i < j < |q'|
      ensures |q'[i].path| <= |q'[j].path|
    {
      if j >= |queue| - 1 {
        assert q'[j] in added;
        if i < |queue| - 1 {
          assert q'[i] == queue[i + 1];
          assert |queue[i + 1].path| <= |queue[|queue| - 1].path|;
        } else {
          assert q'[i] in added;
        }
      } else {
        assert q'[i] == queue[i + 1] && q'[j] == queue[j + 1];
      }
    }
    if q' != [] {
      var first := q'[0];
      var last := q'[|q'| - 1];
      assert L <= |first.path| by {
        if |queue| > 1 {
          assert first == queue[1];
        } else {
          assert first in added;
        }
      }
      assert |last.path| <= L + 1 by {
        if |added| > 0 {
          assert last in added;
        } else {
          assert last == queue[|queue| - 1];
        }
      }
    }
  }

  // ---------------------------------------------------------------------
  // Depth-first search
  // ---------------------------------------------------------------------

  /**
   * Solver::solveDFS. The result solves the level; an empty result means
   * the start is already solved or nothing solves the level.
   */
  method SolveDFS(b: Board, ghost region: set<Pos>) returns (path: seq<Dir>)
    requires Enclosed(b, region)
    ensures Solves(b, path) || (path == [] && Unsolvable(b))
  {
    var startNode := StartNode(b);
    var openSet := [startNode];
    var visited := {StartConfig(b)};
    ghost var closed: set<Config> := {};
    SearchInvInit(b, region, startNode);

    while openSet != []
      invariant SearchInv(b, region, openSet, visited, closed)
      decreases Universe(region) - visited, |openSet|
    {
      ghost var stack0, visited0, top := openSet, visited, |openSet| - 1;
      var current := openSet[|openSet| - 1];
      openSet := openSet[..|openSet| - 1];
      assert openSet == stack0[..top] + stack0[top + 1..];
      WaitingFacts(b, region, stack0, visited0, closed, top);

      var allOnGoal := AllBoxesOnGoals(b, current.boxes);
      if allOnGoal {
        return current.path;
      }

      var nextNodes := Expand(b, current);
      ghost var rest, added := openSet, [];
      openSet, visited, added := EnqueueUnvisited(b, region, current, nextNodes, openSet, visited);
      ExpandStep(b, region, stack0, top, rest, added, visited0, visited, closed);
      closed := closed + {Key(current)};
    }
    ExhaustedMeansUnsolvable(b, region, visited, closed);
    return [];
  }

  // ---------------------------------------------------------------------
  // A*
  // ---------------------------------------------------------------------

  /**
   * The top of the A* priority queue: no node in the queue comes before it
   * under NodeComparator, that is none has a smaller f. Of several with the
   * same f the earliest is taken.
   */
  method TopIndex(queue: seq<Node>) returns (top: nat)
    requires queue != []
    ensures top < |queue|
    ensures forall k :: 0 <= k < |queue| ==> !NodeComparator(queue[top], queue[k])
    ensures forall k :: 0 <= k < top ==> NodeComparator(queue[k], queue[top])
  {
    top := 0;
    for i := 1 to |queue|
      invariant top < i
      invariant forall k :: 0 <= k < i ==> !NodeComparator(queue[top], queue[k])
      invariant forall k :: 0 <= k < top ==> NodeComparator(queue[k], queue[top])
    {
      if NodeComparator(queue[top], queue[i]) {
        top := i;
      }
    }
  }

  /** Every node waiting in the A* queue carries its own heuristic value. */
  ghost predicate Scored(b: Board, queue: seq<Node>) {
    forall q :: q in queue ==> q.heuristic == Heuristic(q.boxes, b.goals) && q.cost == |q.path|
  }

  /**
   * The priority of a scored node, f = g + h, never exceeds the length of
   * a solution that reaches it by its path and then goes on from it.
   */
  lemma PriorityBoundsSolutions(b: Board, q: Node, moves: seq<Dir>)
    requires q.cost == |q.path| && q.heuristic == Heuristic(q.boxes, b.goals)
    requires SolvesFrom(b, Key(q), moves)
    ensures F(q) <= |q.path| + |moves|
  {
    HeuristicAdmissible(b, Key(q), moves);
  }

  /** Fills in the heuristic of the nodes just added to the A* queue. */
  method ScoreAdded(b: Board, queue: seq<Node>, from: nat) returns (scored: seq<Node>)
    requires from <= |queue|
    requires forall q :: q in queue[from..] ==> q.cost == |q.path|
    ensures |scored| == |queue| && scored[..from] == queue[..from]
    ensures forall k :: 0 <= k < |queue| ==> Key(scored[k]) == Key(queue[k]) && scored[k].path == queue[k].path
    ensures forall k :: from <= k < |queue| ==>
      scored[k].heuristic == Heuristic(scored[k].boxes, b.goals) && scored[k].cost == |scored[k].path|
  {
    scored := queue;
    for k := from to |queue|
      invariant |scored| == |queue| && scored[..from] == queue[..from]
      invariant forall i :: 0 <= i < |queue| ==> Key(scored[i]) == Key(queue[i]) && scored[i].path == queue[i].path
      invariant forall i :: from <= i < k ==>
        scored[i].heuristic == Heuristic(scored[i].boxes, b.goals) && scored[i].cost == |scored[i].path|
      invariant forall i :: k <= i < |queue| ==> scored[i] == queue[i]
    {
      assert queue[k] in queue[from..];
      var h := CalculateHeuristic(b, scored[k]);
      scored := scored[k := scored[k].(heuristic := h)];
    }
  }

  /** Two frontiers whose nodes agree on configuration and path. */
  lemma SameKeysAndPaths(s: seq<Node>, t: seq<Node>)
    requires |s| == |t|
    requires forall k :: 0 <= k < |s| ==> Key(s[k]) == Key(t[k]) && s[k].path == t[k].path
    ensures Keys(s) == Keys(t)
    ensures DistinctKeys(s) ==> DistinctKeys(t)
    ensures forall b :: PathsReplay(b, s) ==> PathsReplay(b, t)
  {
    forall c | c in Keys(s) ensures c in Keys(t) {
      var q :| q in s && Key(q) == c;
      var k :| 0 <= k < |s| && s[k] == q;
      assert t[k] in t;
    }
    forall c | c in Keys(t) ensures c in Keys(s) {
      var q :| q in t && Key(q) == c;
      var k :| 0 <= k < |t| && t[k] == q;
      assert s[k] in s;
    }
    forall b | PathsReplay(b, s) ensures PathsReplay(b, t) {
      forall q | q in t ensures Replay(b, StartConfig(b), q.path) == Some(Key(q)) {
        var k :| 0 <= k < |t| && t[k] == q;
        assert s[k] in s;
      }
    }
  }

  /** A successor of a scored node has its cost equal to its path length. */
  lemma AddedCosts(b: Board, queue: seq<Node>, top: nat, added: seq<Node>)
    requires Scored(b, queue) && top < |queue|
    requires forall q :: q in added ==> q in Successors(b, queue[top])
    ensures forall q :: q in added ==> q.cost == |q.path|
  {
    assert queue[top] in queue;
    SuccessorsSpec(b, queue[top]);
  }

  /**
   * Scoring the added nodes changes neither keys nor paths, so the search
   * invariant carries over, and afterwards every waiting node is scored.
   */
  lemma ScoredKeepsInv(b: Board, region: set<Pos>, queue: seq<Node>, top: nat, rest: seq<Node>, added: seq<Node>,
                       scored: seq<Node>, visited: set<Config>, closed: set<Config>)
    requires Scored(b, queue) && top < |queue| && rest == queue[..top] + queue[top + 1..]
    requires SearchInv(b, region, rest + added, visited, closed)
    requires |scored| == |rest + added| && scored[..|rest|] == (rest + added)[..|rest|]
    requires forall k :: 0 <= k < |rest + added| ==>
      Key(scored[k]) == Key((rest + added)[k]) && scored[k].path == (rest + added)[k].path
    requires forall k :: |rest| <= k < |rest + added| ==>
      scored[k].heuristic == Heuristic(scored[k].boxes, b.goals) && scored[k].cost == |scored[k].path|
    ensures SearchInv(b, region, scored, visited, closed)
    ensures Scored(b, scored)
  {
    SameKeysAndPaths(rest + added, scored);
    RemoveKeepsMembers(queue, top, rest);
    forall q | q in scored
      ensures q.heuristic == Heuristic(q.boxes, b.goals) && q.cost == |q.path|
    {
      var k :| 0 <= k < |scored| && scored[k] == q;
      if k < |rest| {
        assert scored[k] == scored[..|rest|][k] == rest[k];
        assert rest[k] in rest;
      }
    }
  }

  /**
   * Solver::solveAStar. The queue is ordered by f = cost + heuristic and a
   * configuration is marked visited when it is first queued. The result
   * solves the level; an empty result means the start is already solved or
   * nothing solves the level.
   */
  method SolveAStar(b: Board, ghost region: set<Pos>) returns (path: seq<Dir>)
    requires Enclosed(b, region)
    ensures Solves(b, path) || (path == [] && Unsolvable(b))
  {
    var startNode := StartNode(b);
    var h0 := CalculateHeuristic(b, startNode);
    startNode := startNode.(heuristic := h0);
    var openSet := [startNode];
    var visited := {StartConfig(b)};
    ghost var closed: set<Config> := {};
    SearchInvInit(b, region, startNode);

    while openSet != []
      invariant SearchInv(b, region, openSet, visited, closed)
      invariant Scored(b, openSet)
      decreases Universe(region) - visited, |openSet|
    {
      ghost var queue0, visited0 := openSet, visited;
      var top := TopIndex(openSet);
      var current := openSet[top];
      openSet := openSet[..top] + openSet[top + 1..];
      WaitingFacts(b, region, queue0, visited0, closed, top);

      var allOnGoal := AllBoxesOnGoals(b, current.boxes);
      if allOnGoal {
        return current.path;
      }

      var nextNodes := Expand(b, current);
      var rest := openSet;
      ghost var added := [];
      openSet, visited, added := EnqueueUnvisited(b, region, current, nextNodes, openSet, visited);
      ExpandStep(b, region, queue0, top, rest, added, visited0, visited, closed);
      AddedCosts(b, queue0, top, added);
      assert openSet[|rest|..] == added;
      var scored := ScoreAdded(b, openSet, |rest|);
      ScoredKeepsInv(b, region, queue0, top, rest, added, scored, visited, closed + {Key(current)});
      openSet := scored;
      closed := closed + {Key(current)};
    }
    ExhaustedMeansUnsolvable(b, region, visited, closed);
    return [];
  }

  // ---------------------------------------------------------------------
  // Depth-bounded backtracking
  // ---------------------------------------------------------------------

  /**
   * Solver::bruteForceRecursive. `solution` is the move list shared by the
   * whole recursion; the call appends to it and gives it back as `after`.
   * On failure it is given back exactly as it came in, and no list of at
   * most maxDepth - depth moves solves from `current`. On success the moves
   * it appended solve from `current` and number at most maxDepth - depth.
   */
  method BruteForceRecursive(b: Board, current: Node, depth: int, maxDepth: int, solution: seq<Dir>)
    returns (found: bool, after: seq<Dir>)
    ensures !found ==> after == solution
    ensures !found ==> NoSolutionWithin(b, Key(current), maxDepth - depth)
    ensures found ==> |solution| <= |after| && after[..|solution|] == solution
    ensures found ==> |after| - |solution| <= (if depth < maxDepth then maxDepth - depth else 0)
    ensures found ==> SolvesFrom(b, Key(current), after[|solution|..])
    decreases maxDepth - depth
  {
    var allOnGoal := AllBoxesOnGoals(b, current.boxes);
    if allOnGoal {
      return true, solution;
    }
    if depth >= maxDepth {
      forall moves | |moves| <= maxDepth - depth
        ensures !SolvesFrom(b, Key(current), moves)
      {
        assert moves == [];
      }
      return false, solution;
    }

    var successors := Expand(b, current);
    SuccessorsOneMoveLonger(b, current);
    after := solution;
    for i := 0 to |successors|
      invariant after == solution
      invariant forall k :: 0 <= k < i ==> NoSolutionWithin(b, Key(successors[k]), maxDepth - depth - 1)
    {
      var next := successors[i];
      after := after + [LastMove(next)];
      var temp := next;
      var ok, updated := BruteForceRecursive(b, temp, depth + 1, maxDepth, after);
      if ok {
        SolutionExtends(b, current, next, solution, updated);
        return true, updated;
      }
      after := updated[..|updated| - 1];
    }

    NoChildSolves(b, current, successors, maxDepth - depth);
    found := false;
  }

  /** Every successor's path is one move longer than its parent's. */
  lemma SuccessorsOneMoveLonger(b: Board, n: Node)
    ensures forall s :: s in Successors(b, n) ==> |s.path| == |n.path| + 1
  {
    SuccessorsSpec(b, n);
  }

  /** A solution from a successor, after the move that reached it, is a solution from its parent. */
  lemma SolutionExtends(b: Board, current: Node, next: Node, solution: seq<Dir>, updated: seq<Dir>)
    requires next in Successors(b, current) && |next.path| > 0
    requires |solution| + 1 <= |updated| && updated[..|solution| + 1] == solution + [LastMove(next)]
    requires SolvesFrom(b, Key(next), updated[|solution| + 1..])
    ensures updated[..|solution|] == solution
    ensures SolvesFrom(b, Key(current), updated[|solution|..])
  {
    SuccessorsSpec(b, current);
    var d := LastMove(next);
    assert updated[..|solution|] == updated[..|solution| + 1][..|solution|];
    assert updated[|solution|..] == [d] + updated[|solution| + 1..] by {
      assert updated[|solution|] == (solution + [d])[|solution|];
    }
    assert Step(b, Key(current), d) == Some(Key(next));
  }

  /**
   * When no successor can be solved in fewer than `left` moves and the
   * node itself is not solved, no list of at most `left` moves solves it.
   */
  lemma NoChildSolves(b: Board, current: Node, successors: seq<Node>, left: int)
    requires successors == Successors(b, current)
    requires !AllOnGoals(b, current.boxes)
    requires forall k :: 0 <= k < |successors| ==> NoSolutionWithin(b, Key(successors[k]), left - 1)
    ensures NoSolutionWithin(b, Key(current), left)
  {
    SuccessorsSpec(b, current);
    forall moves | |moves| <= left
      ensures !SolvesFrom(b, Key(current), moves)
    {
      if moves != [] && Step(b, Key(current), moves[0]).Some? {
        var s := Child(b, current, moves[0]).value;
        var k :| 0 <= k < |successors| && successors[k] == s;
        assert NoSolutionWithin(b, Key(successors[k]), left - 1);
        assert !SolvesFrom(b, Key(successors[k]), moves[1..]);
      }
    }
  }

  /**
   * Solver::solveBruteForce: backtracking to depth 15. The result solves
   * the level in at most 15 moves; an empty result means the start is
   * already solved or no list of at most 15 moves solves it.
   */
  method SolveBruteForce(b: Board) returns (path: seq<Dir>)
    ensures (Solves(b, path) && |path| <= BRUTE_FORCE_MAX_DEPTH)
      || (path == [] && forall moves :: |moves| <= BRUTE_FORCE_MAX_DEPTH ==> !Solves(b, moves))
  {
    var startNode := StartNode(b);
    var solution := [];
    var maxDepth := BRUTE_FORCE_MAX_DEPTH;
    var found, after := BruteForceRecursive(b, startNode, 0, maxDepth, solution);
    if found {
      assert after[|solution|..] == after;
      return after;
    }
    return [];
  }
}
