/** Rendering a path as compass letters, and replaying letters as moves. */
module Directions {
  import opened Grid

  /** The letter for going from `prev` to `now`: "S" when the row grows,
      "N" when it shrinks, "E" when the column grows, "W" when it shrinks,
      each only when the other coordinate is unchanged; nothing otherwise. */
  function Letter(prev: Pos, now: Pos): (t: seq<char>)
    ensures |t| <= 1
    ensures t == [] <==> prev == now || (prev.row != now.row && prev.col != now.col)
    ensures forall i :: 0 <= i < |t| ==> t[i] in "NSEW"
    ensures Adjacent(prev, now) ==> |t| == 1 && Move(prev, t[0]) == now
  {
    if now.row > prev.row && now.col == prev.col then "S"
    else if now.row < prev.row && now.col == prev.col then "N"
    else if now.col > prev.col && now.row == prev.row then "E"
    else if now.col < prev.col && now.row == prev.row then "W"
    else ""
  }

  /** One step in the direction a letter names ("N" is up, a smaller row). */
  function Move(p: Pos, d: char): Pos {
    match d
    case 'N' => Pos(p.row - 1, p.col)
    case 'S' => Pos(p.row + 1, p.col)
    case 'E' => Pos(p.row, p.col + 1)
    case 'W' => Pos(p.row, p.col - 1)
    case _ => p
  }

  /** The cells visited by following `ds` from `p`, `p` included. */
  function Replay(p: Pos, ds: seq<char>): (cells: seq<Pos>)
    ensures |cells| == |ds| + 1 && cells[0] == p
    decreases |ds|
  {
    if ds == [] then [p] else [p] + Replay(Move(p, ds[0]), ds[1..])
  }

  /** Each step of the path is to an adjacent cell. */
  ghost predicate Connected(path: seq<Pos>) {
    forall i :: 1 <= i < |path| ==> Adjacent(path[i - 1], path[i])
  }

  /** The letters of the consecutive pairs of `path`, first pair first. */
  function Steps(path: seq<Pos>): seq<char> {
    if |path| <= 1 then [] else Letter(path[0], path[1]) + Steps(path[1..])
  }

  /** The cell the solver compares with `path[i]`: the one before it, and for
      `i == 0` the last cell of the path (a negative index wraps around). */
  function Prev(path: seq<Pos>, i: nat): Pos
    requires i < |path|
  {
    if i == 0 then path[|path| - 1] else path[i - 1]
  }

  /** The letters emitted for the first `k` cells of `path`. */
  function TokensUpTo(path: seq<Pos>, k: nat): (t: seq<char>)
    requires k <= |path|
    ensures forall i :: 0 <= i < |t| ==> t[i] in "NSEW"
  {
    if k == 0 then [] else TokensUpTo(path, k - 1) + Letter(Prev(path, k - 1), path[k - 1])
  }

  /** The letters emitted for a whole path. */
  function Tokens(path: seq<Pos>): seq<char> {
    TokensUpTo(path, |path|)
  }

  /** Emitting the letter for cell `k` extends what was emitted before. */
  lemma TokensUpToNext(before: seq<char>, path: seq<Pos>, k: nat)
    requires k < |path|
    ensures before + TokensUpTo(path, k + 1) == (before + TokensUpTo(path, k)) + Letter(Prev(path, k), path[k])
  {
    ConcatAssoc(before, TokensUpTo(path, k), Letter(Prev(path, k), path[k]));
  }

  /** Appending a cell appends the letter of the new last pair. */
  lemma {:induction false} StepsSnoc(path: seq<Pos>, x: Pos)
    requires |path| >= 1
    ensures Steps(path + [x]) == Steps(path) + Letter(Last(path), x)
  {
    if |path| == 1 {
      assert (path + [x])[1..] == [x];
    } else {
      StepsSnoc(path[1..], x);
      assert (path + [x])[1..] == path[1..] + [x];
    }
  }

  /** Following the letters of a connected path from its first cell
      retraces the path exactly: one letter per step. */
  lemma {:induction false} ReplaySteps(path: seq<Pos>)
    requires |path| >= 1 && Connected(path)
    ensures |Steps(path)| == |path| - 1
    ensures Replay(path[0], Steps(path)) == path
  {
    if |path| >= 2 {
      var rest := path[1..];
      assert Connected(rest) by {
        forall i | 1 <= i < |rest| ensures Adjacent(rest[i - 1], rest[i]) {
          assert rest[i - 1] == path[i] && rest[i] == path[i + 1];
        }
      }
      ReplaySteps(rest);
      assert Adjacent(path[0], path[1]);
      var l := Letter(path[0], path[1]);
      assert Steps(path) == l + Steps(rest);
      assert (l + Steps(rest))[0] == l[0] && (l + Steps(rest))[1..] == Steps(rest);
    }
  }

  lemma TakeSnoc(path: seq<Pos>, k: nat)
    requires 1 <= k <= |path|
    ensures path[..k - 1] + [path[k - 1]] == path[..k]
  {
  }

  /** What the solver emits for the first `k` cells: the letter from the
      last cell to the first, then the letters of the first `k - 1` steps. */
  lemma {:induction false} TokensUpToSplit(path: seq<Pos>, k: nat)
    requires 1 <= k <= |path|
    ensures TokensUpTo(path, k) == Letter(Last(path), path[0]) + Steps(path[..k])
  {
    if k == 1 {
      assert Steps(path[..1]) == [];
      assert TokensUpTo(path, 1) == TokensUpTo(path, 0) + Letter(Prev(path, 0), path[0]);
    } else {
      var init := path[..k - 1];
      var lead := Letter(Last(path), path[0]);
      var step := Letter(path[k - 2], path[k - 1]);
      TokensUpToSplit(path, k - 1);
      assert TokensUpTo(path, k - 1) == lead + Steps(init);
      assert TokensUpTo(path, k) == TokensUpTo(path, k - 1) + step;
      StepsSnoc(init, path[k - 1]);
      TakeSnoc(path, k);
      assert Steps(path[..k]) == Steps(init) + step;
      ConcatAssoc(lead, Steps(init), step);
    }
  }

  /** The solver's letters for a connected path: a leading letter comparing
      the last cell with the first — present exactly when they differ but
      share a row or a column — followed by one letter per step, which
      replay the path from its first cell. */
  lemma TokensOfPath(path: seq<Pos>)
    requires |path| >= 1 && Connected(path)
    ensures var lead := Letter(Last(path), path[0]);
            && Tokens(path) == lead + Steps(path)
            && (|lead| == 1 <==> Last(path) != path[0] && (Last(path).row == path[0].row || Last(path).col == path[0].col))
            && |Steps(path)| == |path| - 1
            && Replay(path[0], Steps(path)) == path
  {
    TokensUpToSplit(path, |path|);
    assert path[..|path|] == path;
    ReplaySteps(path);
  }

  /** Start (0, 0) and end (0, 2) on one row: the solver's letters are
      "WEE", a leading "W" from comparing the first cell with the last, and
      following them from the start does not retrace the path; the letters
      of the steps alone do. */
  lemma SharedRowExample()
    ensures Tokens([Pos(0, 0), Pos(0, 1), Pos(0, 2)]) == "WEE"
    ensures Replay(Pos(0, 0), "WEE") != [Pos(0, 0), Pos(0, 1), Pos(0, 2)]
    ensures Steps([Pos(0, 0), Pos(0, 1), Pos(0, 2)]) == "EE"
    ensures Replay(Pos(0, 0), "EE") == [Pos(0, 0), Pos(0, 1), Pos(0, 2)]
  {
    var path := [Pos(0, 0), Pos(0, 1), Pos(0, 2)];
    assert TokensUpTo(path, 1) == "W";
    assert TokensUpTo(path, 2) == "WE";
    assert path[1..] == [Pos(0, 1), Pos(0, 2)];
    assert path[1..][1..] == [Pos(0, 2)];
    assert Replay(Pos(0, 0), "WEE")[1] == Pos(0, -1);
  }
}
