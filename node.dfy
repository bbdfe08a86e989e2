/**
 * The search state of the solver (Node.h): a player cell, a set of box
 * cells, the moves that led there, the cost so far and the heuristic
 * estimate. Identity and ordering look at the player cell and the box set
 * only.
 */
module SearchNode {
  import opened MazeTypes

  /** The part of a node that identifies it: what the visited set keys on. */
  datatype Config = Config(player: Pos, boxes: set<Pos>)

  /**
   * A node. `boxes` is a set, so two boxes never share a cell; `path`
   * holds the moves from the start, `cost` is g(n), `heuristic` is h(n).
   */
  datatype Node = Node(playerPos: Pos, boxes: set<Pos>, path: seq<Dir>, cost: int, heuristic: int)

  function Key(n: Node): Config {
    Config(n.playerPos, n.boxes)
  }

  /** f(n) of A*. */
  function F(n: Node): int {
    n.cost + n.heuristic
  }

  /** operator==: compares the player cell and the box set only. */
  predicate NodeEq(a: Node, b: Node) {
    a.playerPos == b.playerPos && a.boxes == b.boxes
  }

  lemma NodeEqIsKeyEquality(a: Node, b: Node)
    ensures NodeEq(a, b) <==> Key(a) == Key(b)
  {
  }

  /** Nodes that differ only in path, cost and heuristic are the same state. */
  lemma NodeEqIgnoresBookkeeping(a: Node, path: seq<Dir>, cost: int, heuristic: int)
    ensures NodeEq(a, a.(path := path, cost := cost, heuristic := heuristic))
  {
  }

  /** NodeComparator: a orders after b in the A* queue when its f is larger. */
  predicate NodeComparator(a: Node, b: Node) {
    F(a) > F(b)
  }

  /**
   * NodeComparator is a strict weak ordering, as std::priority_queue
   * requires: irreflexive, transitive, and two nodes are unordered by it
   * exactly when their f values are equal.
   */
  lemma NodeComparatorIsStrictWeakOrder(a: Node, b: Node, c: Node)
    ensures !NodeComparator(a, a)
    ensures NodeComparator(a, b) && NodeComparator(b, c) ==> NodeComparator(a, c)
    ensures !NodeComparator(a, b) && !NodeComparator(b, a) <==> F(a) == F(b)
  {
  }

  // ---------------------------------------------------------------------
  // operator< : lexicographic on (playerPos, boxes), where std::pair and
  // std::set compare lexicographically, the set in ascending order.
  // ---------------------------------------------------------------------

  /** std::pair<int,int>::operator< */
  predicate PosLess(a: Pos, b: Pos) {
    a.0 < b.0 || (a.0 == b.0 && a.1 < b.1)
  }

  /** std::lexicographical_compare over two ascending element lists. */
  predicate SeqLess(s: seq<Pos>, t: seq<Pos>) {
    if |s| == 0 then |t| != 0
    else if |t| == 0 then false
    else if PosLess(s[0], t[0]) then true
    else if PosLess(t[0], s[0]) then false
    else SeqLess(s[1..], t[1..])
  }

  ghost predicate IsLeast(m: Pos, s: set<Pos>) {
    m in s && forall x :: x in s && x != m ==> PosLess(m, x)
  }

  lemma {:induction false} LeastExists(s: set<Pos>)
    requires s != {}
    ensures exists m :: IsLeast(m, s)
    decreases |s|
  {
    var y :| y in s;
    var rest := s - {y};
    if rest == {} {
      assert s == {y};
      assert IsLeast(y, s);
    } else {
      LeastExists(rest);
      var m :| IsLeast(m, rest);
      assert forall x :: x in s && x != y ==> x in rest;
      if PosLess(y, m) {
        assert IsLeast(y, s);
      } else {
        assert IsLeast(m, s);
      }
    }
  }

  ghost predicate StrictlyAscending(s: seq<Pos>) {
    forall i, j :: 0 <= i < j < |s| ==> PosLess(s[i], s[j])
  }

  /** The elements of a std::set in its iteration order. */
  ghost function Ascending(s: set<Pos>): (r: seq<Pos>)
    ensures StrictlyAscending(r)
    ensures forall x :: x in r <==> x in s
    decreases |s|
  {
    if s == {} then []
    else
      LeastExists(s);
      var m :| IsLeast(m, s);
      var rest := Ascending(s - {m});
      assert forall x :: x in rest ==> PosLess(m, x);
      [m] + rest
  }

  /** The iteration order determines the set. */
  lemma AscendingInjective(s: set<Pos>, t: set<Pos>)
    requires Ascending(s) == Ascending(t)
    ensures s == t
  {
    assert forall x :: x in s <==> x in Ascending(s);
  }

  /** operator< of Node. */
  ghost predicate NodeLess(a: Node, b: Node) {
    if a.playerPos != b.playerPos then PosLess(a.playerPos, b.playerPos)
    else SeqLess(Ascending(a.boxes), Ascending(b.boxes))
  }

  lemma {:induction false} SeqLessIrreflexive(s: seq<Pos>)
    ensures !SeqLess(s, s)
    decreases |s|
  {
    if |s| > 0 {
      SeqLessIrreflexive(s[1..]);
    }
  }

  lemma {:induction false} SeqLessTransitive(s: seq<Pos>, t: seq<Pos>, u: seq<Pos>)
    requires SeqLess(s, t) && SeqLess(t, u)
    ensures SeqLess(s, u)
    decreases |s|
  {
    if |s| > 0 && |t| > 0 && |u| > 0 {
      if !PosLess(s[0], t[0]) && !PosLess(t[0], u[0]) {
        SeqLessTransitive(s[1..], t[1..], u[1..]);
      }
    }
  }

  /** Two different lists are always ordered one way or the other. */
  lemma {:induction false} SeqLessConnected(s: seq<Pos>, t: seq<Pos>)
    requires s != t
    ensures SeqLess(s, t) || SeqLess(t, s)
    decreases |s|
  {
    if |s| > 0 && |t| > 0 && !PosLess(s[0], t[0]) && !PosLess(t[0], s[0]) {
      assert s[0] == t[0];
      assert s == [s[0]] + s[1..] && t == [t[0]] + t[1..];
      SeqLessConnected(s[1..], t[1..]);
    }
  }

  lemma {:induction false} SeqLessAsymmetric(s: seq<Pos>, t: seq<Pos>)
    requires SeqLess(s, t)
    ensures !SeqLess(t, s)
    decreases |s|
  {
    if |s| > 0 && |t| > 0 && !PosLess(s[0], t[0]) && !PosLess(t[0], s[0]) {
      SeqLessAsymmetric(s[1..], t[1..]);
    }
  }

  /** operator< is irreflexive. */
  lemma NodeLessIrreflexive(a: Node)
    ensures !NodeLess(a, a)
  {
    SeqLessIrreflexive(Ascending(a.boxes));
  }

  /** operator< is transitive. */
  lemma NodeLessTransitive(a: Node, b: Node, c: Node)
    requires NodeLess(a, b) && NodeLess(b, c)
    ensures NodeLess(a, c)
  {
    if a.playerPos == b.playerPos == c.playerPos {
      SeqLessTransitive(Ascending(a.boxes), Ascending(b.boxes), Ascending(c.boxes));
    }
  }

  /**
   * The equivalence that operator< induces, neither a < b nor b < a, is
   * exactly operator==. This is what lets std::set<Node> act as a set of
   * configurations.
   */
  lemma NodeLessEquivalenceIsNodeEq(a: Node, b: Node)
    ensures (!NodeLess(a, b) && !NodeLess(b, a)) <==> NodeEq(a, b)
  {
    if NodeEq(a, b) {
      NodeLessIrreflexive(a);
    } else if a.playerPos == b.playerPos {
      if Ascending(a.boxes) == Ascending(b.boxes) {
        AscendingInjective(a.boxes, b.boxes);
      }
      SeqLessConnected(Ascending(a.boxes), Ascending(b.boxes));
    }
  }

  /** operator< is a strict weak order: incomparability is transitive. */
  lemma IncomparabilityTransitive(a: Node, b: Node, c: Node)
    requires !NodeLess(a, b) && !NodeLess(b, a)
    requires !NodeLess(b, c) && !NodeLess(c, b)
    ensures !NodeLess(a, c) && !NodeLess(c, a)
  {
    NodeLessEquivalenceIsNodeEq(a, b);
    NodeLessEquivalenceIsNodeEq(b, c);
    NodeLessEquivalenceIsNodeEq(a, c);
  }

  /** operator< is asymmetric. */
  lemma NodeLessAsymmetric(a: Node, b: Node)
    requires NodeLess(a, b)
    ensures !NodeLess(b, a)
  {
    if a.playerPos == b.playerPos {
      SeqLessAsymmetric(Ascending(a.boxes), Ascending(b.boxes));
    }
  }
}
