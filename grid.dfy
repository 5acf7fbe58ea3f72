/** The maze as the solver sees it: a rectangular grid of one-character
    cells, coordinates, the four neighbour offsets, and walks through it. */
module Grid {

  /** A cell coordinate, row first (0-indexed). */
  datatype Pos = Pos(row: int, col: int)

  /** The map, row-major; every row has the length of row 0. */
  type Maze = seq<seq<char>>

  const Wall: char := 'X'
  const Goal: char := 'B'

  /** Neighbour offsets in the order the solver tries them: up, down, left, right. */
  const DR: seq<int> := [-1, 1, 0, 0]
  const DC: seq<int> := [0, 0, -1, 1]

  predicate Rectangular(m: Maze) {
    |m| >= 1 && forall i :: 0 <= i < |m| ==> |m[i]| == |m[0]|
  }

  predicate InBounds(m: Maze, p: Pos) {
    |m| >= 1 && 0 <= p.row < |m| && 0 <= p.col < |m[0]|
  }

  function Cell(m: Maze, p: Pos): char
    requires Rectangular(m) && InBounds(m, p)
  {
    m[p.row][p.col]
  }

  /** A cell a walk may step onto: inside the maze and not a wall. */
  predicate Open(m: Maze, p: Pos)
    requires Rectangular(m)
  {
    InBounds(m, p) && Cell(m, p) != Wall
  }

  /** `p` and `q` differ by exactly 1 in exactly one coordinate. */
  predicate Adjacent(p: Pos, q: Pos) {
    || (p.row == q.row && (q.col == p.col + 1 || q.col == p.col - 1))
    || (p.col == q.col && (q.row == p.row + 1 || q.row == p.row - 1))
  }

  /** The neighbour of `p` in direction `k` (0 up, 1 down, 2 left, 3 right). */
  function Neighbour(p: Pos, k: nat): (q: Pos)
    requires k < 4
    ensures Adjacent(p, q)
    ensures k == 0 ==> q.row < p.row
    ensures k == 1 ==> q.row > p.row
    ensures k == 2 ==> q.col < p.col
    ensures k == 3 ==> q.col > p.col
  {
    Pos(p.row + DR[k], p.col + DC[k])
  }

  /** The direction index that leads from `p` to an adjacent `q`. */
  function DirectionOf(p: Pos, q: Pos): (k: nat)
    requires Adjacent(p, q)
    ensures k < 4 && Neighbour(p, k) == q
  {
    if q.row < p.row then 0
    else if q.row > p.row then 1
    else if q.col < p.col then 2
    else 3
  }

  /** Different direction indices lead to different neighbours. */
  lemma NeighboursDistinct(p: Pos, j: nat, k: nat)
    requires j < 4 && k < 4 && j != k
    ensures Neighbour(p, j) != Neighbour(p, k)
  {
  }

  function Last<T>(s: seq<T>): T
    requires |s| >= 1
  {
    s[|s| - 1]
  }

  /** A walk from `s`: starts at the in-bounds cell `s`, every later cell is
      open and each step goes to an adjacent cell. It has |w| - 1 steps. */
  ghost predicate IsWalk(m: Maze, s: Pos, w: seq<Pos>) {
    && Rectangular(m)
    && InBounds(m, s)
    && |w| >= 1
    && w[0] == s
    && forall i :: 1 <= i < |w| ==> Open(m, w[i]) && Adjacent(w[i - 1], w[i])
  }

  /** A walk from `s` that ends on a cell holding the goal marker. */
  ghost predicate GoalWalk(m: Maze, s: Pos, w: seq<Pos>) {
    IsWalk(m, s, w) && InBounds(m, Last(w)) && Cell(m, Last(w)) == Goal
  }

  /** Dropping the last cell of a walk leaves a walk. */
  lemma WalkPrefix(m: Maze, s: Pos, w: seq<Pos>)
    requires IsWalk(m, s, w) && |w| >= 2
    ensures IsWalk(m, s, w[..|w| - 1])
  {
  }

  /** A walk extended by an open cell adjacent to its last cell is a walk. */
  lemma WalkSnoc(m: Maze, s: Pos, w: seq<Pos>, p: Pos)
    requires IsWalk(m, s, w) && Open(m, p) && Adjacent(Last(w), p)
    ensures IsWalk(m, s, w + [p])
  {
    var w' := w + [p];
    forall i | 1 <= i < |w'| ensures Open(m, w'[i]) && Adjacent(w'[i - 1], w'[i]) {
      if i < |w| {
        assert w'[i] == w[i] && w'[i - 1] == w[i - 1];
      }
    }
  }

  /** The cells of row `r` with column below `cols`. */
  function RowCells(r: int, cols: nat): (cells: set<Pos>)
    ensures forall p :: p in cells <==> p.row == r && 0 <= p.col < cols
    ensures |cells| == cols
  {
    if cols == 0 then {} else RowCells(r, cols - 1) + {Pos(r, cols - 1)}
  }

  /** Every coordinate of a `rows` x `cols` grid. */
  function GridCells(rows: nat, cols: nat): (cells: set<Pos>)
    ensures forall p :: p in cells <==> 0 <= p.row < rows && 0 <= p.col < cols
    ensures |cells| == rows * cols
  {
    if rows == 0 then {}
    else
      var prev := GridCells(rows - 1, cols);
      var last := RowCells(rows - 1, cols);
      assert prev * last == {};
      prev + last
  }

  lemma ConcatAssoc<T>(a: seq<T>, b: seq<T>, c: seq<T>)
    ensures (a + b) + c == a + (b + c)
  {
  }

  /** Row numbers of a sequence of cells, as the solver's row queue holds them. */
  function Rows(ps: seq<Pos>): (rs: seq<int>)
    ensures |rs| == |ps| && forall i :: 0 <= i < |ps| ==> rs[i] == ps[i].row
  {
    seq(|ps|, i requires 0 <= i < |ps| => ps[i].row)
  }

  /** Column numbers of a sequence of cells, as the solver's column queue holds them. */
  function Cols(ps: seq<Pos>): (cs: seq<int>)
    ensures |cs| == |ps| && forall i :: 0 <= i < |ps| ==> cs[i] == ps[i].col
  {
    seq(|ps|, i requires 0 <= i < |ps| => ps[i].col)
  }

  lemma RowsColsSnoc(ps: seq<Pos>, p: Pos)
    ensures Rows(ps + [p]) == Rows(ps) + [p.row]
    ensures Cols(ps + [p]) == Cols(ps) + [p.col]
  {
    assert Rows(ps + [p]) == Rows(ps) + [p.row];
    assert Cols(ps + [p]) == Cols(ps) + [p.col];
  }
}
