/** The maze solver object: breadth-first search over the grid with two
    parallel FIFO lists of rows and columns, a `visited` matrix and a
    `tracker` matrix of predecessors, then path reconstruction from the
    tracker and rendering of the path as N/S/E/W letters. */
module Solver {
  import opened Grid
  import opened Search
  import opened Directions

  /** A tracker entry: not reached yet, the start's own marker, or the cell
      the search came from. */
  datatype Track = Untracked | Home | Step(cell: Pos)

  /** What `Execute` answers when no goal is reachable. */
  const NotFound: string := "Could not find goal!"

  /** One goal marker in the whole maze, and it sits at `e`. */
  ghost predicate OnlyGoalAt(m: Maze, e: Pos) {
    forall r, c {:trigger m[r][c]} :: 0 <= r < |m| && 0 <= c < |m[r]| ==> (m[r][c] == Goal <==> Pos(r, c) == e)
  }

  /** A tracker entry agrees with the search from `s`: untracked cells were
      never enqueued, only the start is Home, and a recorded predecessor is
      an enqueued adjacent cell exactly one level shallower. */
  ghost predicate TrackedCorrectly(s: Pos, dist: map<Pos, nat>, p: Pos, t: Track) {
    match t
    case Untracked => p !in dist
    case Home => p == s
    case Step(q) => p in dist && q in dist && Adjacent(q, p) && dist[p] == dist[q] + 1
  }

  /** The row and column queues hold, in order, the cells of `order` from
      `head` on: the cells enqueued but not yet dequeued. */
  ghost predicate Queued(rq: seq<int>, cq: seq<int>, order: seq<Pos>, head: nat) {
    && head <= |order|
    && |rq| == |cq| == |order| - head
    && forall i :: 0 <= i < |rq| ==> rq[i] == order[head + i].row && cq[i] == order[head + i].col
  }

  /** Dequeuing the front cell and enqueuing `found` behind the rest. */
  lemma QueueAdvance(rq: seq<int>, cq: seq<int>, order: seq<Pos>, head: nat, found: seq<Pos>)
    requires Queued(rq, cq, order, head) && head < |order|
    ensures Queued(rq[1..] + Rows(found), cq[1..] + Cols(found), order + found, head + 1)
  {
    var rq', cq', order' := rq[1..] + Rows(found), cq[1..] + Cols(found), order + found;
    forall i | 0 <= i < |rq'| ensures rq'[i] == order'[head + 1 + i].row && cq'[i] == order'[head + 1 + i].col {
      if i < |rq| - 1 {
        assert rq'[i] == rq[i + 1] && cq'[i] == cq[i + 1];
      } else {
        assert rq'[i] == found[i - |rq| + 1].row && cq'[i] == found[i - |rq| + 1].col;
      }
    }
  }

  /** Putting the cell before a suffix of `w` in front of that suffix
      gives the next longer suffix. */
  lemma PrependDrop<T>(w: seq<T>, k: int, tail: seq<T>)
    requires 0 < k <= |w|
    ensures [w[k - 1]] + (w[k..] + tail) == w[k - 1..] + tail
  {
    assert w[k - 1..] == [w[k - 1]] + w[k..];
  }

  /** After trying the first `i` directions from `cur`: `order`, `dist`, the
      queues and the next-level count have grown by exactly the cells those
      directions discover, starting from the values `order0` … `up0`. */
  ghost predicate ExploredUpTo(m: Maze, dist0: map<Pos, nat>, cur: Pos, i: nat, level: nat,
                               order0: seq<Pos>, rq0: seq<int>, cq0: seq<int>, up0: int,
                               order: seq<Pos>, dist: map<Pos, nat>, rq: seq<int>, cq: seq<int>, up: int)
    requires Rectangular(m) && i <= 4
  {
    var found := DiscoveredUpTo(m, dist0.Keys, cur, i);
    && order == order0 + found
    && dist == Extend(dist0, found, level + 1)
    && rq == rq0 + Rows(found) && cq == cq0 + Cols(found)
    && up == up0 + |found|
  }

  /** Before any direction is tried nothing has been discovered. */
  lemma ExploredInit(m: Maze, dist0: map<Pos, nat>, cur: Pos, level: nat,
                     order0: seq<Pos>, rq0: seq<int>, cq0: seq<int>, up0: int)
    requires Rectangular(m)
    ensures ExploredUpTo(m, dist0, cur, 0, level, order0, rq0, cq0, up0, order0, dist0, rq0, cq0, up0)
  {
    assert order0 + [] == order0 && rq0 + [] == rq0 && cq0 + [] == cq0;
  }

  /** The effect of trying direction `k` from `cur` at level `level`: the
      neighbour there is enqueued, one level deeper and counted for the next
      level, exactly when it is open and not yet seen; otherwise nothing
      changes. */
  ghost predicate Visited(m: Maze, cur: Pos, k: nat, level: nat,
                          order: seq<Pos>, dist: map<Pos, nat>, rq: seq<int>, cq: seq<int>, up: int,
                          order': seq<Pos>, dist': map<Pos, nat>, rq': seq<int>, cq': seq<int>, up': int)
    requires Rectangular(m) && k < 4
  {
    var q := Neighbour(cur, k);
    if Open(m, q) && q !in dist then
      order' == order + [q] && dist' == dist[q := level + 1] && rq' == rq + [q.row] && cq' == cq + [q.col] && up' == up + 1
    else
      order' == order && dist' == dist && rq' == rq && cq' == cq && up' == up
  }

  /** Trying direction `i` keeps `ExploredUpTo`: the neighbour is enqueued
      exactly when it is open and was not seen before the expansion. */
  lemma ExploredStep(m: Maze, dist0: map<Pos, nat>, cur: Pos, i: nat, level: nat,
                     order0: seq<Pos>, rq0: seq<int>, cq0: seq<int>, up0: int,
                     order: seq<Pos>, dist: map<Pos, nat>, rq: seq<int>, cq: seq<int>, up: int,
                     order': seq<Pos>, dist': map<Pos, nat>, rq': seq<int>, cq': seq<int>, up': int)
    requires Rectangular(m) && i < 4
    requires ExploredUpTo(m, dist0, cur, i, level, order0, rq0, cq0, up0, order, dist, rq, cq, up)
    requires Visited(m, cur, i, level, order, dist, rq, cq, up, order', dist', rq', cq', up')
    ensures ExploredUpTo(m, dist0, cur, i + 1, level, order0, rq0, cq0, up0, order', dist', rq', cq', up')
  {
    var q := Neighbour(cur, i);
    var found := DiscoveredUpTo(m, dist0.Keys, cur, i);
    ExtendHas(dist0, found, level + 1, q);
    assert q !in found;
    if Open(m, q) && q !in dist {
      assert DiscoveredUpTo(m, dist0.Keys, cur, i + 1) == found + [q];
      ConcatAssoc(order0, found, [q]);
      ConcatAssoc(rq0, Rows(found), [q.row]);
      ConcatAssoc(cq0, Cols(found), [q.col]);
      ExtendSnoc(dist0, found, q, level + 1);
      RowsColsSnoc(found, q);
    } else {
      assert DiscoveredUpTo(m, dist0.Keys, cur, i + 1) == found;
    }
  }

  /** Once all four directions are tried, the cells enqueued are exactly
      what `Discovered` names. */
  lemma ExploredAll(m: Maze, dist0: map<Pos, nat>, cur: Pos, level: nat,
                    order0: seq<Pos>, rq0: seq<int>, cq0: seq<int>, up0: int,
                    order: seq<Pos>, dist: map<Pos, nat>, rq: seq<int>, cq: seq<int>, up: int)
    requires Rectangular(m)
    requires ExploredUpTo(m, dist0, cur, 4, level, order0, rq0, cq0, up0, order, dist, rq, cq, up)
    ensures var found := Discovered(m, dist0.Keys, cur);
      && order == order0 + found && dist == Extend(dist0, found, level + 1)
      && rq == rq0 + Rows(found) && cq == cq0 + Cols(found) && up == up0 + |found|
  {
  }

  /** The search invariant together with the queues, the fact that no
      expanded cell held the goal marker, and the bound on enqueued cells. */
  ghost predicate SearchState(m: Maze, s: Pos, order: seq<Pos>, head: nat, dist: map<Pos, nat>, slot: map<Pos, nat>,
                              nodesLeft: int, upcoming: int, moves: int, rq: seq<int>, cq: seq<int>)
  {
    && Searching(m, s, order, head, dist, slot, nodesLeft, upcoming, moves)
    && Queued(rq, cq, order, head)
    && NoGoalExpanded(m, order, head)
    && |order| <= |m| * |m[0]|
  }

  /** The state right after the start cell is enqueued. */
  lemma SeedState(m: Maze, s: Pos)
    requires Rectangular(m) && InBounds(m, s)
    ensures SearchState(m, s, [s], 0, map[s := 0], map[s := 0], 1, 0, 0, [s.row], [s.col])
  {
    SeedEstablishes(m, s);
    EnqueueBound(m, s, [s], map[s := 0], map[s := 0]);
  }

  /** One pass of the search loop on values: the queue head `order[head]`,
      which does not hold the goal marker, is dequeued and expanded, its
      discoveries `found` join the record and the back of the queues one
      level deeper, `nodesLeft` is decremented, and a new level begins when
      it reaches 0. The search invariant, the queues and the enqueue bound
      are kept. */
  lemma ExpandStep(m: Maze, s: Pos, order: seq<Pos>, head: nat, dist: map<Pos, nat>, slot: map<Pos, nat>,
                   nodesLeft: int, upcoming: int, moves: int, rq: seq<int>, cq: seq<int>, found: seq<Pos>,
                   order': seq<Pos>, dist': map<Pos, nat>, slot': map<Pos, nat>,
                   nodesLeft': int, upcoming': int, moves': int, rq': seq<int>, cq': seq<int>)
    requires SearchState(m, s, order, head, dist, slot, nodesLeft, upcoming, moves, rq, cq)
    requires head < |order| && Cell(m, order[head]) != Goal
    requires found == Discovered(m, dist.Keys, order[head])
    requires order' == order + found && dist' == Extend(dist, found, dist[order[head]] + 1)
    requires |rq| > 0 && rq' == rq[1..] + Rows(found) && cq' == cq[1..] + Cols(found)
    requires Enqueued(m, s, order', dist', slot')
    requires nodesLeft' == (if nodesLeft == 1 then upcoming + |found| else nodesLeft - 1)
    requires upcoming' == (if nodesLeft == 1 then 0 else upcoming + |found|)
    requires moves' == (if nodesLeft == 1 then moves + 1 else moves)
    ensures SearchState(m, s, order', head + 1, dist', slot', nodesLeft', upcoming', moves', rq', cq')
  {
    ExpandPreserves(m, s, order, head, dist, slot, nodesLeft, upcoming, moves,
                    found, dist', slot', nodesLeft', upcoming', moves');
    QueueAdvance(rq, cq, order, head, found);
    EnqueueBound(m, s, order', dist', slot');
    assert forall i :: 0 <= i < |order| ==> order'[i] == order[i];
    NoGoalExtended(m, order, head, found);
  }

  /** Expanding a head that does not hold the goal marker keeps every
      expanded cell free of it. */
  lemma NoGoalExtended(m: Maze, order: seq<Pos>, head: nat, found: seq<Pos>)
    requires Rectangular(m) && head < |order|
    requires forall i :: 0 <= i < |order| ==> InBounds(m, order[i])
    requires forall i :: 0 <= i < |order + found| ==> InBounds(m, (order + found)[i])
    requires NoGoalExpanded(m, order, head) && Cell(m, order[head]) != Goal
    ensures NoGoalExpanded(m, order + found, head + 1)
  {
    forall i | 0 <= i < head + 1 ensures Cell(m, (order + found)[i]) != Goal {
      assert (order + found)[i] == order[i];
    }
  }

  /** What the search leaves behind: the record of the search is complete
      and consistent, its answer is -1 exactly when no goal cell was
      dequeued, and then every enqueued cell was expanded and no walk from
      `s` reaches a goal cell; otherwise the cell at `head` holds the goal
      marker, was dequeued, and lies at level `result` = `moves`, and no
      goal walk is shorter. */
  ghost predicate Solved(m: Maze, s: Pos, result: int, reached: bool,
                         order: seq<Pos>, head: nat, dist: map<Pos, nat>, slot: map<Pos, nat>,
                         nodesLeft: int, upcoming: int, moves: int, rq: seq<int>, cq: seq<int>)
  {
    && Searching(m, s, order, head, dist, slot, nodesLeft, upcoming, moves)
    && NoGoalExpanded(m, order, head)
    && Distinct(order) && |order| <= |m| * |m[0]|
    && (result == -1 <==> !reached)
    && (!reached ==>
          && head == |order| && rq == [] && cq == []
          && forall w :: !GoalWalk(m, s, w))
    && (reached ==>
          && result == moves && head < |order| && Queued(rq, cq, order, head + 1)
          && Cell(m, order[head]) == Goal && dist[order[head]] == result
          && forall w {:trigger GoalWalk(m, s, w)} :: GoalWalk(m, s, w) ==> |w| - 1 >= result)
  }

  /** A goal cell is dequeued: the search stops at level `moves`, which is
      the length of a shortest goal walk. */
  lemma GoalDequeued(m: Maze, s: Pos, order: seq<Pos>, head: nat, dist: map<Pos, nat>, slot: map<Pos, nat>,
                     nodesLeft: int, upcoming: int, moves: int, rq: seq<int>, cq: seq<int>)
    requires SearchState(m, s, order, head, dist, slot, nodesLeft, upcoming, moves, rq, cq)
    requires head < |order| && Cell(m, order[head]) == Goal
    ensures Solved(m, s, moves, true, order, head, dist, slot, nodesLeft, upcoming, moves, rq[1..], cq[1..])
  {
    QueueAdvance(rq, cq, order, head, []);
    assert rq[1..] + Rows([]) == rq[1..] && cq[1..] + Cols([]) == cq[1..];
    assert order + [] == order;
    forall w | GoalWalk(m, s, w) ensures |w| - 1 >= moves {
      NoCloserGoal(m, s, order, head, dist, slot, nodesLeft, upcoming, moves, w);
    }
    EnqueuedOnce(m, s, order, dist, slot);
  }

  /** The queue ran dry: every enqueued cell was expanded, and since none
      holds the goal marker, no walk from the start reaches one. */
  lemma QueueExhausted(m: Maze, s: Pos, order: seq<Pos>, head: nat, dist: map<Pos, nat>, slot: map<Pos, nat>,
                       nodesLeft: int, upcoming: int, moves: int, rq: seq<int>, cq: seq<int>)
    requires SearchState(m, s, order, head, dist, slot, nodesLeft, upcoming, moves, rq, cq)
    requires |rq| == 0
    ensures Solved(m, s, -1, false, order, head, dist, slot, nodesLeft, upcoming, moves, rq, cq)
  {
    forall w | IsWalk(m, s, w) ensures !GoalWalk(m, s, w) {
      ExhaustedCoversWalks(m, s, order, head, dist, slot, nodesLeft, upcoming, moves, w);
      assert order[slot[Last(w)]] == Last(w);
    }
    EnqueuedOnce(m, s, order, dist, slot);
  }

  /** When the start cell itself holds the goal marker, the search stops
      on its first dequeue and answers 0. */
  lemma SolvedAtStart(m: Maze, s: Pos, result: int, reached: bool,
                      order: seq<Pos>, head: nat, dist: map<Pos, nat>, slot: map<Pos, nat>,
                      nodesLeft: int, upcoming: int, moves: int, rq: seq<int>, cq: seq<int>)
    requires Solved(m, s, result, reached, order, head, dist, slot, nodesLeft, upcoming, moves, rq, cq)
    requires InBounds(m, s) && Cell(m, s) == Goal
    ensures reached && result == 0
  {
    assert GoalWalk(m, s, [s]);
  }

  /** With the goal marker only at `e`, a goal cell the search dequeues is
      `e` itself. */
  lemma GoalIsEnd(m: Maze, e: Pos, p: Pos)
    requires Rectangular(m) && OnlyGoalAt(m, e) && InBounds(m, p) && Cell(m, p) == Goal
    ensures p == e
  {
    assert |m[p.row]| == |m[0]|;
  }

  /** With the goal marker only at the in-bounds cell `e`, a search that
      finds no goal walk shows that no walk from `s` ends at `e`. */
  lemma EndUnreachable(m: Maze, s: Pos, e: Pos)
    requires Rectangular(m) && OnlyGoalAt(m, e) && InBounds(m, e)
    requires forall w :: !GoalWalk(m, s, w)
    ensures forall w {:trigger IsWalk(m, s, w)} :: IsWalk(m, s, w) ==> Last(w) != e
  {
    assert |m[e.row]| == |m[0]|;
    assert m[e.row][e.col] == Goal;
    forall w | IsWalk(m, s, w) ensures Last(w) != e {
      assert !GoalWalk(m, s, w);
    }
  }

  /** A walk to the goal cell `e` of `moves` steps, when no goal walk is
      shorter, is a shortest walk to `e`; the solver's letters for it are
      the wrap-around letter from `e` to `s` followed by one letter per
      step, which replay it from `s`, and none of them spells NotFound. */
  lemma FoundPath(m: Maze, s: Pos, e: Pos, w: seq<Pos>, moves: int)
    requires Rectangular(m) && OnlyGoalAt(m, e) && InBounds(m, e)
    requires IsWalk(m, s, w) && Last(w) == e && |w| == moves + 1
    requires forall g {:trigger GoalWalk(m, s, g)} :: GoalWalk(m, s, g) ==> |g| - 1 >= moves
    ensures forall g {:trigger IsWalk(m, s, g)} :: IsWalk(m, s, g) && Last(g) == e ==> |g| >= |w|
    ensures Tokens(w) == Letter(e, s) + Steps(w)
    ensures |Steps(w)| == |w| - 1 && Replay(s, Steps(w)) == w
    ensures Tokens(w) != NotFound
    ensures e.row != s.row && e.col != s.col ==> Tokens(w) == Steps(w)
  {
    assert m[e.row][e.col] == Goal;
    forall g | IsWalk(m, s, g) && Last(g) == e ensures |g| >= |w| {
      assert GoalWalk(m, s, g);
    }
    assert Connected(w);
    TokensOfPath(w);
    assert NotFound[0] !in "NSEW";
    if e.row != s.row && e.col != s.col {
      assert Letter(e, s) == [];
    }
  }

  /** When the start is the goal cell, the shortest walk is the start
      alone, and the solver emits no letter at all. */
  lemma StartIsGoal(m: Maze, s: Pos, w: seq<Pos>, moves: int)
    requires Rectangular(m) && OnlyGoalAt(m, s) && InBounds(m, s)
    requires IsWalk(m, s, w) && Last(w) == s && |w| == moves + 1
    requires forall g {:trigger GoalWalk(m, s, g)} :: GoalWalk(m, s, g) ==> |g| - 1 >= moves
    ensures w == [s] && Tokens(w) == ""
  {
    assert m[s.row][s.col] == Goal;
    assert GoalWalk(m, s, [s]);
    assert TokensUpTo(w, 1) == TokensUpTo(w, 0) + Letter(Prev(w, 0), w[0]);
  }

  class MazeSolver {
    const mazeMap: Maze
    const R: int
    const C: int
    const startRow: int
    const startCol: int
    const endRow: int
    const endCol: int

    /** Row and column queues of the search, popped from the front. */
    var rq: seq<int>
    var cq: seq<int>

    /** Level accounting of the search. */
    var moves: int
    var nodesUpcoming: int
    var nodesLeft: int

    var reached: bool

    const visited: array2<bool>
    const tracker: array2<Track>

    var path: seq<Pos>
    var directions: seq<char>

    function Start(): Pos { Pos(startRow, startCol) }
    function End(): Pos { Pos(endRow, endCol) }

    /** The fixed shape of the solver: a rectangular map, its dimensions,
        matrices of the same dimensions, and a start inside the map. */
    ghost predicate Shape() {
      && Rectangular(mazeMap)
      && R == |mazeMap| && C == |mazeMap[0]|
      && visited.Length0 == R && visited.Length1 == C
      && tracker.Length0 == R && tracker.Length1 == C
      && InBounds(mazeMap, Start())
    }

    /** The matrices agree with the levels `dist` of the cells enqueued so
        far: a cell is visited exactly when it was enqueued, and its tracker
        entry is correct for it. */
    ghost predicate Tracked(dist: map<Pos, nat>)
      reads visited, tracker
    {
      && Shape()
      && (forall r, c {:trigger visited[r, c]} :: 0 <= r < R && 0 <= c < C ==> (visited[r, c] <==> Pos(r, c) in dist))
      && (forall r, c {:trigger tracker[r, c]} :: 0 <= r < R && 0 <= c < C ==> TrackedCorrectly(Start(), dist, Pos(r, c), tracker[r, c]))
    }

    /** The state a freshly constructed solver is in. */
    ghost predicate Initial()
      reads this, visited, tracker
    {
      && rq == [] && cq == []
      && moves == 0 && nodesUpcoming == 0 && nodesLeft == 1
      && !reached
      && path == [] && directions == []
      && (forall r, c :: 0 <= r < visited.Length0 && 0 <= c < visited.Length1 ==> !visited[r, c])
      && (forall r, c :: 0 <= r < tracker.Length0 && 0 <= c < tracker.Length1 ==> tracker[r, c] == Untracked)
    }

    /** A solver for `maze`. Coordinates arrive as (x, y): the row is the
        second component and the column the first. */
    constructor (maze: Maze, startingPosition: (int, int), endingPosition: (int, int))
      requires Rectangular(maze)
      requires InBounds(maze, Pos(startingPosition.1, startingPosition.0))
      ensures mazeMap == maze
      ensures Start() == Pos(startingPosition.1, startingPosition.0)
      ensures End() == Pos(endingPosition.1, endingPosition.0)
      ensures Shape() && Initial()
      ensures fresh(visited) && fresh(tracker)
    {
      mazeMap := maze;
      R := |maze|;
      C := |maze[0]|;
      startRow := startingPosition.1;
      startCol := startingPosition.0;
      endRow := endingPosition.1;
      endCol := endingPosition.0;
      rq := [];
      cq := [];
      moves := 0;
      nodesUpcoming := 0;
      nodesLeft := 1;
      reached := false;
      visited := new bool[|maze|, |maze[0]|]((r, c) => false);
      tracker := new Track[|maze|, |maze[0]|]((r, c) => Untracked);
      path := [];
      directions := [];
    }

    /** Expands cell (rowIndex, colIndex): tries up, down, left and right,
        and enqueues each neighbour that is inside the map, not yet visited
        and not a wall, marking it visited and recording where it came from.
        The ghost parameters are the record of the search so far; the ghost
        results are that record after the expansion. */
    method Explore(rowIndex: int, colIndex: int, ghost order: seq<Pos>, ghost dist: map<Pos, nat>, ghost slot: map<Pos, nat>)
      returns (ghost order': seq<Pos>, ghost dist': map<Pos, nat>, ghost slot': map<Pos, nat>)
      requires Enqueued(mazeMap, Start(), order, dist, slot) && Tracked(dist) && Pos(rowIndex, colIndex) in dist
      modifies this`rq, this`cq, this`nodesUpcoming, visited, tracker
      ensures nodesLeft == old(nodesLeft) && moves == old(moves) && reached == old(reached)
      ensures path == old(path) && directions == old(directions)
      ensures Enqueued(mazeMap, Start(), order', dist', slot') && Tracked(dist')
      ensures ExploredUpTo(mazeMap, dist, Pos(rowIndex, colIndex), 4, dist[Pos(rowIndex, colIndex)],
                           order, old(rq), old(cq), old(nodesUpcoming), order', dist', rq, cq, nodesUpcoming)
      ensures NamedBy(order', |order|, Pos(rowIndex, colIndex))
      ensures TrackerKept(dist)
    {
      ghost var cur := Pos(rowIndex, colIndex);
      ghost var level := dist[cur];
      ghost var rqIn, cqIn, upIn := rq, cq, nodesUpcoming;
      order', dist', slot' := order, dist, slot;
      ExploredInit(mazeMap, dist, cur, level, order, rq, cq, nodesUpcoming);
      for i := 0 to 4
        invariant Exploring(cur, i, level, dist, order, rqIn, cqIn, upIn, order', dist', slot')
        invariant TrackerKept(dist)
      {
        ghost var seen := dist';
        label before:
        order', dist', slot' := ExploreStep(rowIndex, colIndex, i, level, dist, order, rqIn, cqIn, upIn, order', dist', slot');
        forall r, c | 0 <= r < tracker.Length0 && 0 <= c < tracker.Length1 && Pos(r, c) in dist
          ensures tracker[r, c] == old(tracker[r, c])
        {
          assert Pos(r, c) in seen;
          assert tracker[r, c] == old@before(tracker[r, c]);
        }
      }
    }

    /** The state of `Explore` after trying the first `i` directions from
        `cur`: the search record is consistent with the matrices, exactly
        the cells those directions discover were enqueued, and the tracker
        entry of each of them names `cur`. */
    ghost predicate Exploring(cur: Pos, i: nat, level: nat, dist0: map<Pos, nat>,
                              order0: seq<Pos>, rqIn: seq<int>, cqIn: seq<int>, upIn: int,
                              order: seq<Pos>, dist: map<Pos, nat>, slot: map<Pos, nat>)
      reads this, visited, tracker
    {
      && i <= 4
      && Enqueued(mazeMap, Start(), order, dist, slot) && Tracked(dist)
      && cur in dist && dist[cur] == level && dist0.Keys <= dist.Keys
      && ExploredUpTo(mazeMap, dist0, cur, i, level, order0, rqIn, cqIn, upIn, order, dist, rq, cq, nodesUpcoming)
      && NamedBy(order, |order0|, cur)
    }

    /** The tracker entry of every cell of `order` from index `from` on
        names `cur`, the cell whose expansion enqueued it. */
    ghost predicate NamedBy(order: seq<Pos>, from: nat, cur: Pos)
      reads tracker
    {
      forall j :: from <= j < |order| ==>
        && 0 <= order[j].row < tracker.Length0 && 0 <= order[j].col < tracker.Length1
        && tracker[order[j].row, order[j].col] == Step(cur)
    }

    /** The tracker entries of the cells `dist` knows are as they were: an
        entry is written once, when its cell is first enqueued. */
    twostate predicate TrackerKept(dist: map<Pos, nat>)
      reads tracker
    {
      forall r, c {:trigger tracker[r, c]} :: 0 <= r < tracker.Length0 && 0 <= c < tracker.Length1 && Pos(r, c) in dist ==>
        tracker[r, c] == old(tracker[r, c])
    }

    /** The body of the loop in `Explore`, with its bookkeeping. */
    method ExploreStep(rowIndex: int, colIndex: int, i: nat, ghost level: nat, ghost dist0: map<Pos, nat>,
                       ghost order0: seq<Pos>, ghost rqIn: seq<int>, ghost cqIn: seq<int>, ghost upIn: int,
                       ghost order: seq<Pos>, ghost dist: map<Pos, nat>, ghost slot: map<Pos, nat>)
      returns (ghost order': seq<Pos>, ghost dist': map<Pos, nat>, ghost slot': map<Pos, nat>)
      requires i < 4 && Exploring(Pos(rowIndex, colIndex), i, level, dist0, order0, rqIn, cqIn, upIn, order, dist, slot)
      modifies this`rq, this`cq, this`nodesUpcoming, visited, tracker
      ensures nodesLeft == old(nodesLeft) && moves == old(moves) && reached == old(reached)
      ensures Exploring(Pos(rowIndex, colIndex), i + 1, level, dist0, order0, rqIn, cqIn, upIn, order', dist', slot')
      ensures TrackerKept(dist)
    {
      ghost var rq0, cq0, up0 := rq, cq, nodesUpcoming;
      order', dist', slot' := Visit(rowIndex, colIndex, i, order, dist, slot);
      ExploredStep(mazeMap, dist0, Pos(rowIndex, colIndex), i, level, order0, rqIn, cqIn, upIn,
                   order, dist, rq0, cq0, up0, order', dist', rq, cq, nodesUpcoming);
    }

    /** One pass of the loop in `Explore`: the neighbour of (rowIndex,
        colIndex) in direction `k` is enqueued exactly when it is inside the
        map, not yet visited and not a wall. */
    method Visit(rowIndex: int, colIndex: int, k: nat, ghost order: seq<Pos>, ghost dist: map<Pos, nat>, ghost slot: map<Pos, nat>)
      returns (ghost order': seq<Pos>, ghost dist': map<Pos, nat>, ghost slot': map<Pos, nat>)
      requires Enqueued(mazeMap, Start(), order, dist, slot) && Tracked(dist)
      requires Pos(rowIndex, colIndex) in dist && k < 4
      modifies this`rq, this`cq, this`nodesUpcoming, visited, tracker
      ensures nodesLeft == old(nodesLeft) && moves == old(moves) && reached == old(reached)
      ensures Enqueued(mazeMap, Start(), order', dist', slot') && Tracked(dist')
      ensures Visited(mazeMap, Pos(rowIndex, colIndex), k, dist[Pos(rowIndex, colIndex)],
                      order, dist, old(rq), old(cq), old(nodesUpcoming), order', dist', rq, cq, nodesUpcoming)
      ensures var q := Neighbour(Pos(rowIndex, colIndex), k);
        if Open(mazeMap, q) && q !in dist then
          slot' == slot[q := |order|] && tracker[q.row, q.col] == Step(Pos(rowIndex, colIndex))
        else
          slot' == slot
      ensures forall r, c {:trigger tracker[r, c]} :: 0 <= r < R && 0 <= c < C && Pos(r, c) in dist ==>
                tracker[r, c] == old(tracker[r, c])
    {
      order', dist', slot' := order, dist, slot;
      var rr := DR[k] + rowIndex;
      var cc := DC[k] + colIndex;
      if rr < 0 || cc < 0 { return; }
      if rr >= R || cc >= C { return; }
      if visited[rr, cc] { return; }
      if mazeMap[rr][cc] == Wall { return; }
      var cur := Pos(rowIndex, colIndex);
      EnqueueOne(mazeMap, Start(), order, dist, slot, cur, Pos(rr, cc));
      order', dist', slot' := order + [Pos(rr, cc)], dist[Pos(rr, cc) := dist[cur] + 1], slot[Pos(rr, cc) := |order|];
      Admit(cur, rr, cc, dist);
    }

    /** The updates `Visit` makes for a neighbour it enqueues: both queues
        grow by it, it is marked visited, its tracker entry records `cur`,
        and one more cell is counted for the next level. */
    method Admit(cur: Pos, rr: int, cc: int, ghost dist: map<Pos, nat>)
      requires Tracked(dist) && cur in dist
      requires 0 <= rr < R && 0 <= cc < C && Adjacent(cur, Pos(rr, cc))
      requires !visited[rr, cc]
      modifies this`rq, this`cq, this`nodesUpcoming, visited, tracker
      ensures nodesLeft == old(nodesLeft) && moves == old(moves) && reached == old(reached)
      ensures Tracked(dist[Pos(rr, cc) := dist[cur] + 1])
      ensures rq == old(rq) + [rr] && cq == old(cq) + [cc] && nodesUpcoming == old(nodesUpcoming) + 1
      ensures tracker[rr, cc] == Step(cur)
      ensures forall r, c {:trigger tracker[r, c]} :: 0 <= r < R && 0 <= c < C && Pos(r, c) in dist ==>
                tracker[r, c] == old(tracker[r, c])
    {
      rq, cq, visited[rr, cc], tracker[rr, cc], nodesUpcoming :=
        rq + [rr], cq + [cc], true, Step(cur), nodesUpcoming + 1;
    }

    /** The cells the tracker records from the start to the enqueued cell
        `p`: its i-th cell was discovered at level i, so the chain of
        predecessors has no cycle and ends at the start's Home marker. */
    ghost function TrackBack(order: seq<Pos>, dist: map<Pos, nat>, slot: map<Pos, nat>, p: Pos): (w: seq<Pos>)
      reads visited, tracker
      requires Enqueued(mazeMap, Start(), order, dist, slot) && Tracked(dist) && p in dist
      ensures |w| == dist[p] + 1
      ensures w[0] == Start() && Last(w) == p
      ensures forall i :: 0 <= i < |w| ==> w[i] in dist && dist[w[i]] == i
      decreases dist[p]
    {
      assert order[slot[p]] == p;
      var t := tracker[p.row, p.col];
      assert TrackedCorrectly(Start(), dist, p, t);
      if t.Step? then
        TrackBack(order, dist, slot, t.cell) + [p]
      else
        [p]
    }

    /** Breadth-first search from the start until a cell holding the goal
        marker is dequeued (answering its level) or the queue runs dry
        (answering -1). The ghost results are the record of the search:
        every cell enqueued in order, how many were expanded, their levels
        and their places in the order. */
    method Solve() returns (result: int, ghost order: seq<Pos>, ghost head: nat, ghost dist: map<Pos, nat>, ghost slot: map<Pos, nat>)
      requires Shape() && Initial()
      modifies this`rq, this`cq, this`moves, this`nodesUpcoming, this`nodesLeft, this`reached, visited, tracker
      ensures Tracked(dist)
      ensures Solved(mazeMap, Start(), result, reached, order, head, dist, slot, nodesLeft, nodesUpcoming, moves, rq, cq)
    {
      rq, cq, visited[startRow, startCol], tracker[startRow, startCol] :=
        rq + [startRow], cq + [startCol], true, Home;
      order, head, dist, slot := [Start()], 0, map[Start() := 0], map[Start() := 0];
      SeedState(mazeMap, Start());
      ghost var cellCount := |mazeMap| * |mazeMap[0]|;

      while |rq| > 0
        invariant Tracked(dist)
        invariant SearchState(mazeMap, Start(), order, head, dist, slot, nodesLeft, nodesUpcoming, moves, rq, cq)
        invariant !reached
        invariant |order| <= cellCount
        decreases cellCount - head
      {
        ghost var rq0, cq0 := rq, cq;
        var r := rq[0];
        rq := rq[1..];
        var c := cq[0];
        cq := cq[1..];

        if mazeMap[r][c] == Goal {
          GoalDequeued(mazeMap, Start(), order, head, dist, slot, nodesLeft, nodesUpcoming, moves, rq0, cq0);
          reached := true;
          break;
        }
        order, dist, slot := Pass(r, c, order, head, dist, slot, rq0, cq0);
        head := head + 1;
      }

      if reached {
        return moves, order, head, dist, slot;
      }
      QueueExhausted(mazeMap, Start(), order, head, dist, slot, nodesLeft, nodesUpcoming, moves, rq, cq);
      return -1, order, head, dist, slot;
    }

    /** One pass of the search loop after (r, c), which does not hold the
        goal marker, was popped from the front of the queues `rq0`/`cq0`:
        `Expand` it, and keep the search invariant. The ghost parameters are
        the record of the search before the pass, the results the record
        after. */
    method Pass(r: int, c: int, ghost order: seq<Pos>, ghost head: nat, ghost dist: map<Pos, nat>,
                ghost slot: map<Pos, nat>, ghost rq0: seq<int>, ghost cq0: seq<int>)
      returns (ghost order': seq<Pos>, ghost dist': map<Pos, nat>, ghost slot': map<Pos, nat>)
      requires Tracked(dist)
      requires SearchState(mazeMap, Start(), order, head, dist, slot, nodesLeft, nodesUpcoming, moves, rq0, cq0)
      requires |rq0| > 0 && r == rq0[0] && c == cq0[0] && rq == rq0[1..] && cq == cq0[1..]
      requires mazeMap[r][c] != Goal
      modifies this`rq, this`cq, this`moves, this`nodesUpcoming, this`nodesLeft, visited, tracker
      ensures Tracked(dist')
      ensures SearchState(mazeMap, Start(), order', head + 1, dist', slot', nodesLeft, nodesUpcoming, moves, rq, cq)
      ensures reached == old(reached) && path == old(path) && directions == old(directions)
      ensures NamedBy(order', |order|, Pos(r, c)) && TrackerKept(dist)
      ensures var found := Discovered(mazeMap, dist.Keys, Pos(r, c));
        && order' == order + found
        && dist' == Extend(dist, found, dist[Pos(r, c)] + 1)
        && rq == old(rq) + Rows(found) && cq == old(cq) + Cols(found)
        && if old(nodesLeft) == 1 then
             nodesLeft == old(nodesUpcoming) + |found| && nodesUpcoming == 0 && moves == old(moves) + 1
           else
             nodesLeft == old(nodesLeft) - 1 && nodesUpcoming == old(nodesUpcoming) + |found| && moves == old(moves)
    {
      assert order[head] == Pos(r, c);
      ghost var found := Discovered(mazeMap, dist.Keys, Pos(r, c));
      ghost var left0, upcoming0, moves0 := nodesLeft, nodesUpcoming, moves;
      order', dist', slot' := Expand(r, c, order, dist, slot);
      ExpandStep(mazeMap, Start(), order, head, dist, slot, left0, upcoming0, moves0, rq0, cq0, found,
                 order', dist', slot', nodesLeft, nodesUpcoming, moves, rq, cq);
    }

    /** Expands (r, c) and counts it off its BFS level: its discoveries
        join the record and both queues one level deeper and are counted
        for the next level; then `nodesLeft` is decremented, and when the
        level is used up the next one begins. */
    method Expand(r: int, c: int, ghost order: seq<Pos>, ghost dist: map<Pos, nat>, ghost slot: map<Pos, nat>)
      returns (ghost order': seq<Pos>, ghost dist': map<Pos, nat>, ghost slot': map<Pos, nat>)
      requires Enqueued(mazeMap, Start(), order, dist, slot) && Tracked(dist) && Pos(r, c) in dist
      modifies this`rq, this`cq, this`moves, this`nodesUpcoming, this`nodesLeft, visited, tracker
      ensures Enqueued(mazeMap, Start(), order', dist', slot') && Tracked(dist')
      ensures reached == old(reached) && path == old(path) && directions == old(directions)
      ensures NamedBy(order', |order|, Pos(r, c)) && TrackerKept(dist)
      ensures var found := Discovered(mazeMap, dist.Keys, Pos(r, c));
        && order' == order + found
        && dist' == Extend(dist, found, dist[Pos(r, c)] + 1)
        && rq == old(rq) + Rows(found) && cq == old(cq) + Cols(found)
        && if old(nodesLeft) == 1 then
             nodesLeft == old(nodesUpcoming) + |found| && nodesUpcoming == 0 && moves == old(moves) + 1
           else
             nodesLeft == old(nodesLeft) - 1 && nodesUpcoming == old(nodesUpcoming) + |found| && moves == old(moves)
    {
      ghost var rqIn, cqIn, upIn := rq, cq, nodesUpcoming;
      order', dist', slot' := Explore(r, c, order, dist, slot);
      ExploredAll(mazeMap, dist, Pos(r, c), dist[Pos(r, c)], order, rqIn, cqIn, upIn,
                  order', dist', rq, cq, nodesUpcoming);
      CountOff();
    }

    /** Counts the cell just expanded off the current BFS level; when the
        level is used up, the cells discovered meanwhile become the next
        level and the move count grows by one. */
    method CountOff()
      modifies this`nodesLeft, this`nodesUpcoming, this`moves
      ensures rq == old(rq) && cq == old(cq) && reached == old(reached)
      ensures path == old(path) && directions == old(directions)
      ensures if old(nodesLeft) == 1 then
                nodesLeft == old(nodesUpcoming) && nodesUpcoming == 0 && moves == old(moves) + 1
              else
                nodesLeft == old(nodesLeft) - 1 && nodesUpcoming == old(nodesUpcoming) && moves == old(moves)
    {
      nodesLeft := nodesLeft - 1;

      if nodesLeft == 0 {
        nodesLeft := nodesUpcoming;
        nodesUpcoming := 0;
        moves := moves + 1;
      }
    }

    /** One step of the recorded walk: the walk to `p` is the walk to its
        tracker predecessor followed by `p`, or `p` alone at the start. */
    lemma TrackBackUnfold(order: seq<Pos>, dist: map<Pos, nat>, slot: map<Pos, nat>, p: Pos)
      requires Enqueued(mazeMap, Start(), order, dist, slot) && Tracked(dist) && p in dist
      ensures 0 <= p.row < R && 0 <= p.col < C
      ensures tracker[p.row, p.col].Home? || tracker[p.row, p.col].Step?
      ensures tracker[p.row, p.col].Home? ==> p == Start() && TrackBack(order, dist, slot, p) == [p]
      ensures tracker[p.row, p.col].Step? ==>
        && tracker[p.row, p.col].cell in dist && dist[tracker[p.row, p.col].cell] + 1 == dist[p]
        && TrackBack(order, dist, slot, p) == TrackBack(order, dist, slot, tracker[p.row, p.col].cell) + [p]
    {
      assert order[slot[p]] == p;
      assert TrackedCorrectly(Start(), dist, p, tracker[p.row, p.col]);
    }

    /** The recorded cells form a walk from the start: each is open and
        adjacent to the one before it. */
    lemma {:induction false} TrackBackWalk(order: seq<Pos>, dist: map<Pos, nat>, slot: map<Pos, nat>, p: Pos)
      requires Enqueued(mazeMap, Start(), order, dist, slot) && Tracked(dist) && p in dist
      ensures IsWalk(mazeMap, Start(), TrackBack(order, dist, slot, p))
      decreases dist[p]
    {
      assert order[slot[p]] == p;
      var t := tracker[p.row, p.col];
      assert TrackedCorrectly(Start(), dist, p, t);
      if t.Step? {
        TrackBackWalk(order, dist, slot, t.cell);
        assert slot[p] != 0;
        WalkSnoc(mazeMap, Start(), TrackBack(order, dist, slot, t.cell), p);
      }
    }

    /** `w` is a chain of tracker links: its first cell is marked Home and
        every later cell names the cell before it. */
    ghost predicate Chain(w: seq<Pos>)
      reads tracker
    {
      && |w| >= 1
      && (forall j :: 0 <= j < |w| ==> 0 <= w[j].row < tracker.Length0 && 0 <= w[j].col < tracker.Length1)
      && tracker[w[0].row, w[0].col] == Home
      && (forall j {:trigger tracker[w[j].row, w[j].col]} :: 0 < j < |w| ==> tracker[w[j].row, w[j].col] == Step(w[j - 1]))
    }

    /** The cells the tracker records for an enqueued cell form a chain. */
    lemma {:induction false} TrackBackLinks(order: seq<Pos>, dist: map<Pos, nat>, slot: map<Pos, nat>, p: Pos)
      requires Enqueued(mazeMap, Start(), order, dist, slot) && Tracked(dist) && p in dist
      ensures Chain(TrackBack(order, dist, slot, p))
      decreases dist[p]
    {
      TrackBackUnfold(order, dist, slot, p);
      var t := tracker[p.row, p.col];
      if t.Step? {
        var q := t.cell;
        TrackBackLinks(order, dist, slot, q);
        var w', w := TrackBack(order, dist, slot, q), TrackBack(order, dist, slot, p);
        assert w == w' + [p];
        forall k | 0 < k < |w| ensures tracker[w[k].row, w[k].col] == Step(w[k - 1]) {
          if k < |w'| {
            assert w[k] == w'[k] && w[k - 1] == w'[k - 1];
          } else {
            assert w[k] == p && w[k - 1] == Last(w') == q;
          }
        }
      }
    }

    /** Walks the tracker back from the end coordinate to the start's Home
        marker, putting each cell in front of `path`. The ghost `w` is the
        chain of links that walk follows. */
    method PathGenerator(ghost w: seq<Pos>)
      requires Chain(w) && Last(w) == End()
      modifies this`path
      ensures path == w + old(path)
      ensures moves == old(moves) && directions == old(directions)
    {
      ghost var k := |w| - 1;
      var backwards := Step(End());
      PrependDrop(w, |w|, path);
      assert w[|w|..] == [];
      path := [End()] + path;
      while backwards != Home
        invariant Chain(w)
        invariant 0 <= k < |w|
        invariant backwards.Step? ==> backwards.cell == w[k] && path == w[k..] + old(path)
        invariant backwards.Home? ==> path == w + old(path)
        invariant backwards.Step? || backwards.Home?
        decreases k + if backwards.Step? then 1 else 0
      {
        var at := backwards.cell;
        var step := tracker[at.row, at.col];
        // The search marks the start Home; that marker is the loop's stop
        // and is never put in front of the path.
        if step.Step? {
          PrependDrop(w, k, old(path));
          path := [step.cell] + path;
          k := k - 1;
        } else {
          assert k == 0;
        }
        backwards := step;
      }
    }

    /** Appends one letter for each cell of `path`, comparing it with the
        cell before it; the first cell is compared with the last. */
    method DirectionGenerator()
      modifies this`directions
      ensures directions == old(directions) + Tokens(path)
      ensures path == old(path) && moves == old(moves)
    {
      for i := 0 to |path|
        invariant directions == old(directions) + TokensUpTo(path, i)
      {
        var now := path[i];
        var prev := Prev(path, i);
        TokensUpToNext(old(directions), path, i);
        if now.row > prev.row && now.col == prev.col {
          directions := directions + "S";
        } else if now.row < prev.row && now.col == prev.col {
          directions := directions + "N";
        } else if now.col > prev.col && now.row == prev.row {
          directions := directions + "E";
        } else if now.col < prev.col && now.row == prev.row {
          directions := directions + "W";
        }
      }
    }

    /** Runs the search; on success rebuilds the path to the end coordinate
        and answers its letters, otherwise answers NotFound. */
    method Execute() returns (result: string)
      requires Shape() && Initial()
      requires InBounds(mazeMap, End()) && OnlyGoalAt(mazeMap, End())
      modifies this, visited, tracker
      ensures result == NotFound <==> forall w {:trigger IsWalk(mazeMap, Start(), w)} :: IsWalk(mazeMap, Start(), w) ==> Last(w) != End()
      ensures result != NotFound ==>
        && IsWalk(mazeMap, Start(), path) && Last(path) == End()
        && |path| == moves + 1
        && (forall w {:trigger IsWalk(mazeMap, Start(), w)} :: IsWalk(mazeMap, Start(), w) && Last(w) == End() ==> |w| >= |path|)
        && result == Tokens(path)
        && result == Letter(End(), Start()) + Steps(path)
        && |Steps(path)| == |path| - 1 && Replay(Start(), Steps(path)) == path
      ensures End() == Start() ==> result == ""
      ensures result != NotFound && End().row != Start().row && End().col != Start().col ==>
        |result| == |path| - 1 && Replay(Start(), result) == path
    {
      var solved, order, head, dist, slot := Solve();
      if solved != -1 {
        GoalIsEnd(mazeMap, End(), order[head]);
        assert path == [] && directions == [];
        ghost var w := TrackBack(order, dist, slot, End());
        TrackBackWalk(order, dist, slot, End());
        assert |w| == solved + 1;
        TrackBackLinks(order, dist, slot, End());
        PathGenerator(w);
        assert path == w;
        DirectionGenerator();
        assert directions == Tokens(w);
        assert moves == solved;
        FoundPath(mazeMap, Start(), End(), w, solved);
        if Start() == End() {
          StartIsGoal(mazeMap, Start(), w, solved);
        }
      } else {
        EndUnreachable(mazeMap, Start(), End());
        return NotFound;
      }
      result := directions;
    }
  }
}
