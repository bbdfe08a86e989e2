/**
 * The shared vocabulary of the game: cell coordinates, the four move
 * directions and their offset table, the sprite codes of a board cell and
 * the size limits of a level.
 */
module MazeTypes {
  import opened Wrappers

  /** Largest number of columns a level may have. */
  const NB_MAX_WIDTH: nat := 100
  /** Largest number of lines a level may have. */
  const NB_MAX_HEIGHT: nat := 100

  // Sprite codes: a cell of the board holds one character.
  const GROUND: char := ' '
  const OUTSIDE: char := 'X'
  const WALL: char := '#'
  const PLAYER: char := '@'
  const PLAYER_ON_GOAL: char := '+'
  const BOX: char := '$'
  const BOX_PLACED: char := '*'
  const GOAL: char := '.'

  // Direction codes as the board and the solver exchange them.
  const TOP: int := 0
  const BOTTOM: int := 1
  const LEFT: int := 2
  const RIGHT: int := 3
  const DIRECTION_MAX: int := 4

  /** A cell as (line, column). */
  type Pos = (int, int)

  /** The offset of each direction, indexed by its code. */
  const NEIGHBOURS: seq<Pos> := [(-1, 0), (1, 0), (0, -1), (0, 1)]

  datatype Dir = Top | Bottom | Left | Right

  /** The four directions in the order the solver tries them. */
  const ALL_DIRS: seq<Dir> := [Top, Bottom, Left, Right]

  /** The code of a direction; its entry in NEIGHBOURS is its offset. */
  function Code(d: Dir): (k: int)
    ensures 0 <= k < DIRECTION_MAX == |NEIGHBOURS|
    ensures ALL_DIRS[k] == d
    ensures NEIGHBOURS[k] == Offset(d)
  {
    match d
    case Top => TOP
    case Bottom => BOTTOM
    case Left => LEFT
    case Right => RIGHT
  }

  /** The direction a code stands for, if any. */
  function DirOfCode(k: int): (r: Option<Dir>)
    ensures r.Some? <==> 0 <= k < DIRECTION_MAX
    ensures r.Some? ==> Code(r.value) == k
  {
    if 0 <= k < DIRECTION_MAX then Some(ALL_DIRS[k]) else None
  }

  /** The offset the solver hard-codes for each direction. */
  function Offset(d: Dir): Pos {
    match d
    case Top => (-1, 0)
    case Bottom => (1, 0)
    case Left => (0, -1)
    case Right => (0, 1)
  }

  /** The cell one step from p in direction d. */
  function Move(p: Pos, d: Dir): (q: Pos)
    ensures q != p
    ensures Manhattan(p, q) == 1
  {
    (p.0 + Offset(d).0, p.1 + Offset(d).1)
  }

  function Abs(x: int): nat {
    if x < 0 then -x else x
  }

  function Manhattan(a: Pos, b: Pos): nat {
    Abs(a.0 - b.0) + Abs(a.1 - b.1)
  }

  lemma CodeRoundTrip(d: Dir)
    ensures DirOfCode(Code(d)) == Some(d)
  {
  }
}
