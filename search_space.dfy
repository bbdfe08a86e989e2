/**
 * The facts the three graph searches share: the finite region a level
 * keeps the player and the boxes in, the invariant of a frontier plus
 * visited set, and why an exhausted frontier means no solution exists.
 */
module SearchSpace {
  import opened Wrappers
  import opened MazeTypes
  import opened SearchNode
  import opened SolverRules

  ghost predicate InRegion(c: Config, region: set<Pos>) {
    c.player in region && c.boxes <= region
  }

  /**
   * The level is enclosed by `region`: the start player and boxes are in
   * it, and a step from a cell of it either hits a wall or stays in it.
   */
  ghost predicate Enclosed(b: Board, region: set<Pos>) {
    && InRegion(StartConfig(b), region)
    && forall p, d :: p in region && Move(p, d) !in b.walls ==> Move(p, d) in region
  }

  lemma StepStaysInRegion(b: Board, region: set<Pos>, c: Config, d: Dir)
    requires Enclosed(b, region) && InRegion(c, region)
    requires Step(b, c, d).Some?
    ensures InRegion(Step(b, c, d).value, region)
  {
    var t := Move(c.player, d);
    if t in c.boxes {
      assert Move(t, d) !in b.walls;
    }
  }

  /** Every subset of s. */
  ghost function Subsets(s: set<Pos>): set<set<Pos>>
    decreases |s|
  {
    if s == {} then {{}}
    else
      var x :| x in s;
      var without := Subsets(s - {x});
      without + set t | t in without :: t + {x}
  }

  lemma {:induction false} SubsetsComplete(s: set<Pos>, t: set<Pos>)
    requires t <= s
    ensures t in Subsets(s)
    decreases |s|
  {
    if s != {} {
      var x :| x in s && Subsets(s) == Subsets(s - {x}) + set u | u in Subsets(s - {x}) :: u + {x};
      if x in t {
        SubsetsComplete(s - {x}, t - {x});
        assert (t - {x}) + {x} == t;
      } else {
        SubsetsComplete(s - {x}, t);
      }
    }
  }

  /** All configurations inside the region: a finite set. */
  ghost function Universe(region: set<Pos>): set<Config> {
    set p, bs | p in region && bs in Subsets(region) :: Config(p, bs)
  }

  lemma InUniverse(c: Config, region: set<Pos>)
    requires InRegion(c, region)
    ensures c in Universe(region)
  {
    SubsetsComplete(region, c.boxes);
  }

  /** The configurations of the nodes waiting in a frontier. */
  ghost function Keys(frontier: seq<Node>): set<Config> {
    set q | q in frontier :: Key(q)
  }

  lemma KeysAppend(s: seq<Node>, t: seq<Node>)
    ensures Keys(s + t) == Keys(s) + Keys(t)
  {
    assert forall q :: q in s + t <==> q in s || q in t;
  }

  lemma KeysRemove(s: seq<Node>, i: nat)
    requires i < |s|
    ensures Keys(s) == Keys(s[..i] + s[i + 1..]) + {Key(s[i])}
  {
    assert s == s[..i] + [s[i]] + s[i + 1..];
    KeysAppend(s[..i] + [s[i]], s[i + 1..]);
    KeysAppend(s[..i], [s[i]]);
    KeysAppend(s[..i], s[i + 1..]);
  }

  /** No two nodes of s have the same configuration. */
  ghost predicate DistinctKeys(s: seq<Node>) {
    forall i, j :: 0 <= i < j < |s| ==> Key(s[i]) != Key(s[j])
  }

  lemma DistinctAppend(s: seq<Node>, t: seq<Node>)
    requires DistinctKeys(s) && DistinctKeys(t) && Keys(s) !! Keys(t)
    ensures DistinctKeys(s + t)
  {
    forall i, j | 0 <= i < j < |s + t|
      ensures Key((s + t)[i]) != Key((s + t)[j])
    {
      if j < |s| {
        assert (s + t)[i] == s[i] && (s + t)[j] == s[j];
      } else if i >= |s| {
        assert (s + t)[i] == t[i - |s|] && (s + t)[j] == t[j - |s|];
      } else {
        assert (s + t)[i] == s[i] && s[i] in s && Key(s[i]) in Keys(s);
        assert (s + t)[j] == t[j - |s|] && t[j - |s|] in t && Key(t[j - |s|]) in Keys(t);
      }
    }
  }

  /** Removing one node keeps the others distinct, and none of them shares its configuration. */
  lemma DistinctRemove(s: seq<Node>, i: nat, rest: seq<Node>)
    requires DistinctKeys(s) && i < |s| && rest == s[..i] + s[i + 1..]
    ensures DistinctKeys(rest) && Key(s[i]) !in Keys(rest)
  {
    forall a, c | 0 <= a < c < |rest|
      ensures Key(rest[a]) != Key(rest[c])
    {
      var a' := if a < i then a else a + 1;
      var c' := if c < i then c else c + 1;
      assert rest[a] == s[a'] && rest[c] == s[c'];
    }
    forall q | q in rest
      ensures Key(q) != Key(s[i])
    {
      var k :| 0 <= k < |rest| && rest[k] == q;
      var k' := if k < i then k else k + 1;
      assert rest[k] == s[k'];
    }
  }

  /**
   * What the inner loop of a search enqueues from successors, in their
   * order: each one whose configuration is not yet visited, the
   * configuration being marked visited as it is enqueued.
   */
  ghost function Unvisited(successors: seq<Node>, visited: set<Config>): seq<Node>
    decreases |successors|
  {
    if successors == [] then []
    else if Key(successors[0]) in visited then Unvisited(successors[1..], visited)
    else [successors[0]] + Unvisited(successors[1..], visited + {Key(successors[0])})
  }

  /** Unfolding Unvisited at index i of the successors. */
  lemma UnvisitedAt(successors: seq<Node>, i: nat, visited: set<Config>)
    requires i < |successors|
    ensures Unvisited(successors[i..], visited) ==
      if Key(successors[i]) in visited then Unvisited(successors[i + 1..], visited)
      else [successors[i]] + Unvisited(successors[i + 1..], visited + {Key(successors[i])})
  {
    assert successors[i..][0] == successors[i] && successors[i..][1..] == successors[i + 1..];
  }

  /** Nodes with distinct configurations have as many configurations as nodes. */
  lemma {:induction false} DistinctCount(s: seq<Node>)
    requires DistinctKeys(s)
    ensures |Keys(s)| == |s|
    decreases |s|
  {
    if s != [] {
      assert s == [s[0]] + s[1..];
      KeysAppend([s[0]], s[1..]);
      assert Keys([s[0]]) == {Key(s[0])};
      DistinctRemove(s, 0, s[1..]);
      DistinctCount(s[1..]);
    }
  }

  /**
   * The enqueued nodes are successors whose configurations were not
   * visited, one node for each such configuration and no configuration
   * twice.
   */
  lemma {:induction false} UnvisitedSpec(successors: seq<Node>, visited: set<Config>)
    ensures forall q :: q in Unvisited(successors, visited) ==> q in successors && Key(q) !in visited
    ensures DistinctKeys(Unvisited(successors, visited))
    ensures Keys(Unvisited(successors, visited)) == Keys(successors) - visited
    decreases |successors|
  {
    if successors != [] {
      var x, t := successors[0], successors[1..];
      UnvisitedAt(successors, 0, visited);
      assert successors == [x] + t;
      KeysAppend([x], t);
      assert Keys([x]) == {Key(x)};
      if Key(x) in visited {
        UnvisitedSpec(t, visited);
      } else {
        var v' := visited + {Key(x)};
        UnvisitedSpec(t, v');
        var rest := Unvisited(t, v');
        KeysAppend([x], rest);
        DistinctAppend([x], rest);
      }
    }
  }

  /** One node for each unvisited configuration among the successors. */
  lemma UnvisitedCount(successors: seq<Node>, visited: set<Config>)
    ensures |Unvisited(successors, visited)| == |Keys(successors) - visited|
  {
    UnvisitedSpec(successors, visited);
    DistinctCount(Unvisited(successors, visited));
  }

  /** Every node waiting in the frontier is reached by replaying its path. */
  ghost predicate PathsReplay(b: Board, frontier: seq<Node>) {
    forall q :: q in frontier ==> Replay(b, StartConfig(b), q.path) == Some(Key(q))
  }

  /**
   * The invariant of a graph search. `closed` holds the configurations
   * already taken out of the frontier and expanded: none of them is a goal,
   * and each of their moves leads into `visited`. Everything visited is
   * closed or still waiting, and stays inside the region. No
   * configuration waits twice, and none waits once it is closed.
   */
  ghost predicate SearchInv(b: Board, region: set<Pos>, frontier: seq<Node>, visited: set<Config>, closed: set<Config>) {
    && StartConfig(b) in visited
    && visited <= closed + Keys(frontier)
    && closed <= visited
    && Keys(frontier) <= visited
    && (forall c :: c in visited ==> InRegion(c, region))
    && (forall c :: c in closed ==> !AllOnGoals(b, c.boxes))
    && (forall c, d :: c in closed && Step(b, c, d).Some? ==> Step(b, c, d).value in visited)
    && PathsReplay(b, frontier)
    && DistinctKeys(frontier)
    && Keys(frontier) !! closed
  }

  /** The search starts with only the start node waiting. */
  lemma SearchInvInit(b: Board, region: set<Pos>, start: Node)
    requires Enclosed(b, region)
    requires Key(start) == StartConfig(b) && start.path == []
    ensures SearchInv(b, region, [start], {StartConfig(b)}, {})
  {
    assert Keys([start]) == {StartConfig(b)};
  }

  /** A successor of a node whose path replays has a path that replays too. */
  lemma SuccessorReplays(b: Board, current: Node, next: Node)
    requires Replay(b, StartConfig(b), current.path) == Some(Key(current))
    requires next in Successors(b, current)
    ensures Replay(b, StartConfig(b), next.path) == Some(Key(next))
  {
    SuccessorMove(b, current, next);
    ReplayAppend(b, StartConfig(b), current.path, LastMove(next));
  }

  /**
   * The inner loop of a search: each successor whose configuration is not
   * yet visited is marked visited and added to the frontier, in the order
   * of the successors.
   */
  method EnqueueUnvisited(b: Board, ghost region: set<Pos>, current: Node, successors: seq<Node>,
                          frontier: seq<Node>, visited: set<Config>)
    returns (frontier': seq<Node>, visited': set<Config>, ghost added: seq<Node>)
    requires Enclosed(b, region) && InRegion(Key(current), region)
    requires Replay(b, StartConfig(b), current.path) == Some(Key(current))
    requires successors == Successors(b, current)
    ensures visited <= visited'
    ensures forall s :: s in successors ==> Key(s) in visited'
    ensures added == Unvisited(successors, visited) && DistinctKeys(added)
    ensures frontier' == frontier + added && Keys(added) == visited' - visited
    ensures visited' == visited ==> added == []
    ensures forall q :: q in added ==> q in successors
    ensures forall c :: c in visited' - visited ==> InRegion(c, region)
    ensures PathsReplay(b, added)
  {
    frontier', visited', added := EnqueueNew(successors, frontier, visited);
    EnqueuedFacts(b, region, current, successors, visited, visited', added);
  }

  /** One round of EnqueueNew keeps its loop invariants, whether or not the node is new. */
  lemma EnqueueStep(successors: seq<Node>, i: nat, visited: set<Config>, seen: set<Config>, added: seq<Node>)
    requires i < |successors|
    requires seen == visited + Keys(successors[..i])
    requires added + Unvisited(successors[i..], seen) == Unvisited(successors, visited)
    ensures Key(successors[i]) in seen ==>
      seen == visited + Keys(successors[..i + 1]) &&
      added + Unvisited(successors[i + 1..], seen) == Unvisited(successors, visited)
    ensures Key(successors[i]) !in seen ==>
      seen + {Key(successors[i])} == visited + Keys(successors[..i + 1]) &&
      (added + [successors[i]]) + Unvisited(successors[i + 1..], seen + {Key(successors[i])})
        == Unvisited(successors, visited)
  {
    var next := successors[i];
    UnvisitedAt(successors, i, seen);
    assert successors[..i + 1] == successors[..i] + [next];
    KeysAppend(successors[..i], [next]);
    assert Keys([next]) == {Key(next)};
    if Key(next) !in seen {
      assert (added + [next]) + Unvisited(successors[i + 1..], seen + {Key(next)})
        == added + ([next] + Unvisited(successors[i + 1..], seen + {Key(next)}));
    }
  }

  /**
   * The loop itself: each node whose configuration is not yet visited is
   * marked visited and appended to the frontier.
   */
  method EnqueueNew(successors: seq<Node>, frontier: seq<Node>, visited: set<Config>)
    returns (frontier': seq<Node>, visited': set<Config>, ghost added: seq<Node>)
    ensures visited' == visited + Keys(successors)
    ensures frontier' == frontier + added && added == Unvisited(successors, visited)
  {
    frontier', visited', added := frontier, visited, [];
    for i := 0 to |successors|
      invariant visited' == visited + Keys(successors[..i])
      invariant frontier' == frontier + added
      invariant added + Unvisited(successors[i..], visited') == Unvisited(successors, visited)
    {
      var next := successors[i];
      EnqueueStep(successors, i, visited, visited', added);
      if Key(next) !in visited' {
        visited' := visited' + {Key(next)};
        frontier' := frontier' + [next];
        added := added + [next];
      }
    }
    assert successors[..|successors|] == successors && successors[|successors|..] == [];
  }

  /** What the inner loop leaves behind, once every successor has been looked at. */
  lemma EnqueuedFacts(b: Board, region: set<Pos>, current: Node, successors: seq<Node>,
                      visited: set<Config>, visited': set<Config>, added: seq<Node>)
    requires Enclosed(b, region) && InRegion(Key(current), region)
    requires Replay(b, StartConfig(b), current.path) == Some(Key(current))
    requires successors == Successors(b, current)
    requires visited' == visited + Keys(successors) && added == Unvisited(successors, visited)
    ensures forall s :: s in successors ==> Key(s) in visited'
    ensures DistinctKeys(added) && Keys(added) == visited' - visited
    ensures visited' == visited ==> added == []
    ensures forall q :: q in added ==> q in successors
    ensures forall c :: c in visited' - visited ==> InRegion(c, region)
    ensures PathsReplay(b, added)
  {
    UnvisitedSpec(successors, visited);
    if added != [] {
      assert Key(added[0]) in Keys(added);
    }
    forall c | c in visited' - visited
      ensures InRegion(c, region)
    {
      var s :| s in successors && Key(s) == c;
      SuccessorMove(b, current, s);
      StepStaysInRegion(b, region, Key(current), LastMove(s));
    }
    forall q | q in added
      ensures Replay(b, StartConfig(b), q.path) == Some(Key(q))
    {
      SuccessorReplays(b, current, q);
    }
  }


  /**
   * Expanding the node taken out of the frontier keeps the search
   * invariant, with that node's configuration now closed.
   */
  lemma ExpandKeepsInv(b: Board, region: set<Pos>, frontier: seq<Node>, current: Node, rest: seq<Node>,
                       added: seq<Node>, visited: set<Config>, visited': set<Config>, closed: set<Config>)
    requires Enclosed(b, region)
    requires SearchInv(b, region, frontier, visited, closed)
    requires Keys(frontier) == Keys(rest) + {Key(current)}
    requires DistinctKeys(rest) && Key(current) !in Keys(rest) && DistinctKeys(added)
    requires !AllOnGoals(b, current.boxes)
    requires visited <= visited'
    requires forall s :: s in Successors(b, current) ==> Key(s) in visited'
    requires Keys(added) == visited' - visited
    requires forall c :: c in visited' - visited ==> InRegion(c, region)
    requires PathsReplay(b, rest + added)
    ensures SearchInv(b, region, rest + added, visited', closed + {Key(current)})
  {
    KeysAppend(rest, added);
    DistinctAppend(rest, added);
    SuccessorsSpec(b, current);
    forall c, d | c in closed + {Key(current)} && Step(b, c, d).Some?
      ensures Step(b, c, d).value in visited'
    {
      if c == Key(current) {
        assert Child(b, current, d).value in Successors(b, current);
      }
    }
  }

  /** A node waiting in the frontier lies in the region and its path replays to it. */
  lemma WaitingFacts(b: Board, region: set<Pos>, frontier: seq<Node>, visited: set<Config>, closed: set<Config>, i: nat)
    requires SearchInv(b, region, frontier, visited, closed)
    requires i < |frontier|
    ensures InRegion(Key(frontier[i]), region) && Key(frontier[i]) !in closed
    ensures Replay(b, StartConfig(b), frontier[i].path) == Some(Key(frontier[i]))
  {
    assert frontier[i] in frontier;
    assert Key(frontier[i]) in Keys(frontier);
  }

  /**
   * Taking the node at index i out of the frontier: it lies in the region,
   * its path replays to it, and the rest of the frontier keeps the
   * replay property.
   */
  lemma PopFacts(b: Board, region: set<Pos>, frontier: seq<Node>, visited: set<Config>, closed: set<Config>,
                 i: nat, rest: seq<Node>)
    requires SearchInv(b, region, frontier, visited, closed)
    requires i < |frontier| && rest == frontier[..i] + frontier[i + 1..]
    ensures InRegion(Key(frontier[i]), region)
    ensures Replay(b, StartConfig(b), frontier[i].path) == Some(Key(frontier[i]))
    ensures Keys(frontier) == Keys(rest) + {Key(frontier[i])}
    ensures DistinctKeys(rest) && Key(frontier[i]) !in Keys(rest)
    ensures PathsReplay(b, rest)
  {
    KeysRemove(frontier, i);
    DistinctRemove(frontier, i, rest);
    assert frontier[i] in frontier;
    assert Key(frontier[i]) in Keys(frontier);
    RemoveKeepsMembers(frontier, i, rest);
  }

  /** What is left after removing one element was in the sequence. */
  lemma RemoveKeepsMembers(s: seq<Node>, i: nat, rest: seq<Node>)
    requires i < |s| && rest == s[..i] + s[i + 1..]
    ensures forall q :: q in rest ==> q in s
  {
    forall q | q in rest
      ensures q in s
    {
      var k :| 0 <= k < |rest| && rest[k] == q;
      if k < i {
        assert rest[k] == s[k];
      } else {
        assert rest[k] == s[k + 1];
      }
    }
  }

  /**
   * One round of a graph search: the popped node is not a goal, its
   * unvisited successors were enqueued. The invariant holds again with the
   * popped configuration closed, and the search made progress: either a
   * new configuration was visited or the frontier got shorter. The popped
   * configuration had not been expanded before.
   */
  lemma ExpandStep(b: Board, region: set<Pos>, frontier: seq<Node>, i: nat, rest: seq<Node>, added: seq<Node>,
                   visited: set<Config>, visited': set<Config>, closed: set<Config>)
    requires Enclosed(b, region)
    requires SearchInv(b, region, frontier, visited, closed)
    requires i < |frontier| && rest == frontier[..i] + frontier[i + 1..]
    requires !AllOnGoals(b, frontier[i].boxes)
    requires visited <= visited'
    requires forall s :: s in Successors(b, frontier[i]) ==> Key(s) in visited'
    requires Keys(added) == visited' - visited && (visited' == visited ==> added == [])
    requires forall c :: c in visited' - visited ==> InRegion(c, region)
    requires PathsReplay(b, added) && DistinctKeys(added)
    ensures Key(frontier[i]) !in closed
    ensures SearchInv(b, region, rest + added, visited', closed + {Key(frontier[i])})
    ensures Universe(region) - visited' <= Universe(region) - visited
    ensures Universe(region) - visited' < Universe(region) - visited || (visited' == visited && |rest + added| < |frontier|)
  {
    PopFacts(b, region, frontier, visited, closed, i, rest);
    assert PathsReplay(b, rest + added);
    ExpandKeepsInv(b, region, frontier, frontier[i], rest, added, visited, visited', closed);
    UnvisitedShrinks(region, visited, visited');
  }

  /**
   * When nothing is left in the frontier, everything reachable from the
   * start is closed, and no closed configuration is a goal: no move list
   * solves the level.
   */
  lemma {:induction false} ClosedHoldsReplays(b: Board, visited: set<Config>, closed: set<Config>, c: Config, moves: seq<Dir>)
    requires visited <= closed
    requires forall c, d :: c in closed && Step(b, c, d).Some? ==> Step(b, c, d).value in visited
    requires c in closed
    ensures Replay(b, c, moves).Some? ==> Replay(b, c, moves).value in closed
    decreases |moves|
  {
    if moves != [] && Step(b, c, moves[0]).Some? {
      ClosedHoldsReplays(b, visited, closed, Step(b, c, moves[0]).value, moves[1..]);
    }
  }

  lemma ExhaustedMeansUnsolvable(b: Board, region: set<Pos>, visited: set<Config>, closed: set<Config>)
    requires SearchInv(b, region, [], visited, closed)
    ensures Unsolvable(b)
  {
    assert Keys([]) == {};
    forall moves
      ensures !Solves(b, moves)
    {
      ClosedHoldsReplays(b, visited, closed, StartConfig(b), moves);
    }
  }

  /** Growing `visited` inside the finite universe shrinks what is left of it. */
  lemma UnvisitedShrinks(region: set<Pos>, visited: set<Config>, visited': set<Config>)
    requires visited <= visited'
    requires forall c :: c in visited' - visited ==> InRegion(c, region)
    ensures Universe(region) - visited' <= Universe(region) - visited
    ensures visited' != visited ==> Universe(region) - visited' < Universe(region) - visited
  {
    if visited' != visited {
      var diff := visited' - visited;
      assert visited' == visited + diff;
      assert diff != {};
      var c :| c in diff;
      InUniverse(c, region);
    }
  }
}
