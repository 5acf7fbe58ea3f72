/** The breadth-first search described on values. The search is summed up by
    three ghost quantities that the solver keeps beside its real state:
    `order`, every cell ever enqueued in enqueue order (the FIFO queue is
    always a suffix of it); `head`, how many of those cells have been
    expanded; and `dist`, the BFS level at which each enqueued cell was
    discovered. The lemmas here show that expanding the next cell keeps the
    invariants, and that the invariants make every level a shortest distance. */
module Search {
  import opened Grid

  /** The cells that expanding `p` enqueues, considering only the first `k`
      directions: neighbours inside the maze, not walls and not yet seen,
      in the fixed order up, down, left, right. */
  function DiscoveredUpTo(m: Maze, seen: set<Pos>, p: Pos, k: nat): (d: seq<Pos>)
    requires Rectangular(m) && k <= 4
    ensures forall j :: 0 <= j < 4 ==>
              (Neighbour(p, j) in d <==> j < k && Open(m, Neighbour(p, j)) && Neighbour(p, j) !in seen)
    ensures forall i :: 0 <= i < |d| ==> Open(m, d[i]) && d[i] !in seen && Adjacent(p, d[i])
  {
    if k == 0 then []
    else
      var q := Neighbour(p, k - 1);
      var prev := DiscoveredUpTo(m, seen, p, k - 1);
      forall j | 0 <= j < 4 && j != k - 1
        ensures Neighbour(p, j) != q
      {
        NeighboursDistinct(p, j, k - 1);
      }
      prev + (if Open(m, q) && q !in seen then [q] else [])
  }

  /** The discovered cells come in the order up, down, left, right, so none
      repeats. */
  lemma {:induction false} DiscoveredInOrder(m: Maze, seen: set<Pos>, p: Pos, k: nat)
    requires Rectangular(m) && k <= 4
    ensures var d := DiscoveredUpTo(m, seen, p, k);
      && (forall i :: 0 <= i < |d| ==> DirectionOf(p, d[i]) < k)
      && (forall i, j :: 0 <= i < j < |d| ==> DirectionOf(p, d[i]) < DirectionOf(p, d[j]))
      && Distinct(d)
  {
    if k > 0 {
      var prev := DiscoveredUpTo(m, seen, p, k - 1);
      DiscoveredInOrder(m, seen, p, k - 1);
      var d := DiscoveredUpTo(m, seen, p, k);
      if |d| > |prev| {
        assert d == prev + [Neighbour(p, k - 1)];
        assert DirectionOf(p, Neighbour(p, k - 1)) == k - 1;
      } else {
        assert d == prev;
      }
    }
  }

  /** All the cells that expanding `p` enqueues. */
  function Discovered(m: Maze, seen: set<Pos>, p: Pos): seq<Pos>
    requires Rectangular(m)
  {
    DiscoveredUpTo(m, seen, p, 4)
  }

  /** No cell is enqueued twice. */
  ghost predicate Distinct(order: seq<Pos>) {
    forall i, j :: 0 <= i < j < |order| ==> order[i] != order[j]
  }

  /** Bookkeeping of enqueued cells: the start comes first at level 0, every
      later cell is open, and `dist` knows exactly these cells; `slot` gives
      each enqueued cell its place in `order`, so none repeats. */
  ghost predicate Enqueued(m: Maze, s: Pos, order: seq<Pos>, dist: map<Pos, nat>, slot: map<Pos, nat>) {
    && Rectangular(m)
    && |order| >= 1 && order[0] == s
    && slot.Keys == dist.Keys
    && (forall i :: 0 <= i < |order| ==> InBounds(m, order[i]) && order[i] in dist && slot[order[i]] == i)
    && (forall i :: 1 <= i < |order| ==> Open(m, order[i]))
    && (forall p :: p in slot ==> slot[p] < |order| && order[slot[p]] == p)
    && dist[s] == 0
  }

  /** Level accounting: the first `nodesLeft` queued cells are at level
      `moves`, the `upcoming` ones behind them at level `moves + 1`, and every
      expanded cell at most at level `moves`. */
  ghost predicate Levels(order: seq<Pos>, head: nat, dist: map<Pos, nat>,
                         nodesLeft: int, upcoming: int, moves: int)
    requires forall i :: 0 <= i < |order| ==> order[i] in dist
  {
    && head <= |order|
    && nodesLeft >= 0 && upcoming >= 0 && moves >= 0
    && |order| - head == nodesLeft + upcoming
    && (nodesLeft == 0 ==> head == |order|)
    && (forall i :: 0 <= i < head ==> dist[order[i]] <= moves)
    && (forall i :: head <= i < head + nodesLeft ==> dist[order[i]] == moves)
    && (forall i :: head + nodesLeft <= i < |order| ==> dist[order[i]] == moves + 1)
  }

  /** Every open neighbour of an expanded cell is enqueued, at most one level deeper. */
  ghost predicate Closed(m: Maze, order: seq<Pos>, head: nat, dist: map<Pos, nat>)
    requires Rectangular(m) && head <= |order|
    requires forall i :: 0 <= i < |order| ==> order[i] in dist
  {
    forall i, k :: 0 <= i < head && 0 <= k < 4 && Open(m, Neighbour(order[i], k)) ==>
      Neighbour(order[i], k) in dist && dist[Neighbour(order[i], k)] <= dist[order[i]] + 1
  }

  /** The whole search invariant, from start `s`. */
  ghost predicate Searching(m: Maze, s: Pos, order: seq<Pos>, head: nat, dist: map<Pos, nat>,
                            slot: map<Pos, nat>, nodesLeft: int, upcoming: int, moves: int)
  {
    && Enqueued(m, s, order, dist, slot)
    && Levels(order, head, dist, nodesLeft, upcoming, moves)
    && Closed(m, order, head, dist)
  }

  /** None of the expanded cells holds the goal marker. */
  ghost predicate NoGoalExpanded(m: Maze, order: seq<Pos>, head: nat)
    requires Rectangular(m) && head <= |order|
    requires forall i :: 0 <= i < |order| ==> InBounds(m, order[i])
  {
    forall i :: 0 <= i < head ==> Cell(m, order[i]) != Goal
  }

  /** The state right after the start cell is enqueued. */
  lemma SeedEstablishes(m: Maze, s: Pos)
    requires Rectangular(m) && InBounds(m, s)
    ensures Searching(m, s, [s], 0, map[s := 0], map[s := 0], 1, 0, 0)
  {
  }

  /** Enqueueing one open, unseen neighbour of an enqueued cell one level
      deeper, at the back of `order`, keeps the bookkeeping. */
  lemma EnqueueOne(m: Maze, s: Pos, order: seq<Pos>, dist: map<Pos, nat>, slot: map<Pos, nat>,
                   cur: Pos, q: Pos)
    requires Enqueued(m, s, order, dist, slot) && cur in dist
    requires Open(m, q) && q !in dist
    ensures Enqueued(m, s, order + [q], dist[q := dist[cur] + 1], slot[q := |order|])
  {
    var order', slot' := order + [q], slot[q := |order|];
    assert forall i :: 0 <= i < |order| ==> order'[i] == order[i];
    assert order'[|order|] == q;
  }

  /** `d` with each cell of `ps` added at level `l`. */
  function Extend(d: map<Pos, nat>, ps: seq<Pos>, l: nat): map<Pos, nat>
    decreases |ps|
  {
    if ps == [] then d else Extend(d, ps[..|ps| - 1], l)[Last(ps) := l]
  }

  /** What `Extend` adds: exactly the cells of `ps`, each at level `l`;
      other entries keep their level. */
  lemma {:induction false} ExtendFacts(d: map<Pos, nat>, ps: seq<Pos>, l: nat)
    ensures forall p :: p in Extend(d, ps, l) <==> p in d || p in ps
    ensures forall p :: p in d && p !in ps ==> Extend(d, ps, l)[p] == d[p]
    ensures forall i :: 0 <= i < |ps| ==> Extend(d, ps, l)[ps[i]] == l
    decreases |ps|
  {
    if ps != [] {
      var init := ps[..|ps| - 1];
      ExtendFacts(d, init, l);
      assert ps == init + [Last(ps)];
    }
  }

  /** Extending by one more cell is one more map update. */
  lemma ExtendSnoc(d: map<Pos, nat>, ps: seq<Pos>, p: Pos, l: nat)
    ensures Extend(d, ps + [p], l) == Extend(d, ps, l)[p := l]
  {
    assert (ps + [p])[..|ps|] == ps;
  }

  /** One cell's membership in `Extend(d, ps, l)`. */
  lemma ExtendHas(d: map<Pos, nat>, ps: seq<Pos>, l: nat, p: Pos)
    ensures p in Extend(d, ps, l) <==> p in d || p in ps
  {
    ExtendFacts(d, ps, l);
  }

  /** Expanding `order[head]` keeps the level accounting: its discoveries
      join the back of the queue one level deeper, and once the current
      level runs out (`nodesLeft` was 1) the next level begins. */
  lemma LevelsPreserved(order: seq<Pos>, head: nat, dist: map<Pos, nat>,
                        nodesLeft: int, upcoming: int, moves: int,
                        found: seq<Pos>, dist': map<Pos, nat>,
                        nodesLeft': int, upcoming': int, moves': int)
    requires forall i :: 0 <= i < |order| ==> order[i] in dist
    requires Levels(order, head, dist, nodesLeft, upcoming, moves)
    requires head < |order|
    requires forall i :: 0 <= i < |found| ==> found[i] !in dist
    requires dist' == Extend(dist, found, dist[order[head]] + 1)
    requires nodesLeft' == (if nodesLeft == 1 then upcoming + |found| else nodesLeft - 1)
    requires upcoming' == (if nodesLeft == 1 then 0 else upcoming + |found|)
    requires moves' == (if nodesLeft == 1 then moves + 1 else moves)
    requires forall i :: 0 <= i < |order + found| ==> (order + found)[i] in dist'
    ensures Levels(order + found, head + 1, dist', nodesLeft', upcoming', moves')
  {
    var order' := order + found;
    ExtendFacts(dist, found, dist[order[head]] + 1);
    assert dist[order[head]] == moves;
    forall i | 0 <= i < |order| ensures order'[i] == order[i] && dist'[order'[i]] == dist[order[i]] {
      assert order[i] !in found;
    }
    forall i | |order| <= i < |order'| ensures dist'[order'[i]] == moves + 1 {
      assert order'[i] == found[i - |order|];
    }
  }

  /** Expanding `order[head]` keeps every open neighbour of an expanded cell
      enqueued at most one level deeper. */
  lemma ClosedPreserved(m: Maze, s: Pos, order: seq<Pos>, head: nat, dist: map<Pos, nat>,
                        slot: map<Pos, nat>, nodesLeft: int, upcoming: int, moves: int,
                        found: seq<Pos>, dist': map<Pos, nat>)
    requires Searching(m, s, order, head, dist, slot, nodesLeft, upcoming, moves)
    requires head < |order|
    requires found == Discovered(m, dist.Keys, order[head])
    requires dist' == Extend(dist, found, dist[order[head]] + 1)
    requires forall i :: 0 <= i < |order + found| ==> (order + found)[i] in dist'
    ensures Closed(m, order + found, head + 1, dist')
  {
    var order', cur := order + found, order[head];
    ExtendFacts(dist, found, dist[cur] + 1);
    assert dist[cur] == moves;
    forall i, k | 0 <= i < head + 1 && 0 <= k < 4 && Open(m, Neighbour(order'[i], k))
      ensures Neighbour(order'[i], k) in dist' && dist'[Neighbour(order'[i], k)] <= dist'[order'[i]] + 1
    {
      assert order'[i] == order[i];
      assert order[i] !in found;
      var q := Neighbour(order[i], k);
      if q in dist {
        assert q !in found;
        assert order[slot[q]] == q;
        assert dist[q] <= dist[order[i]] + 1;
      } else {
        assert i == head && q in found;
        var j :| 0 <= j < |found| && found[j] == q;
      }
    }
  }

  /** Expanding the queue head `order[head]` — enqueueing its discoveries one
      level deeper, decrementing `nodesLeft`, and moving to the next level
      once `nodesLeft` reaches 0 — keeps the whole search invariant. */
  lemma ExpandPreserves(m: Maze, s: Pos, order: seq<Pos>, head: nat, dist: map<Pos, nat>,
                        slot: map<Pos, nat>, nodesLeft: int, upcoming: int, moves: int,
                        found: seq<Pos>, dist': map<Pos, nat>, slot': map<Pos, nat>,
                        nodesLeft': int, upcoming': int, moves': int)
    requires Searching(m, s, order, head, dist, slot, nodesLeft, upcoming, moves)
    requires head < |order|
    requires found == Discovered(m, dist.Keys, order[head])
    requires dist' == Extend(dist, found, dist[order[head]] + 1)
    requires Enqueued(m, s, order + found, dist', slot')
    requires nodesLeft' == (if nodesLeft == 1 then upcoming + |found| else nodesLeft - 1)
    requires upcoming' == (if nodesLeft == 1 then 0 else upcoming + |found|)
    requires moves' == (if nodesLeft == 1 then moves + 1 else moves)
    ensures Searching(m, s, order + found, head + 1, dist', slot', nodesLeft', upcoming', moves')
  {
    LevelsPreserved(order, head, dist, nodesLeft, upcoming, moves, found, dist', nodesLeft', upcoming', moves');
    ClosedPreserved(m, s, order, head, dist, slot, nodesLeft, upcoming, moves, found, dist');
  }

  /** The heart of the shortest-path argument: following any walk from the
      start, either its end was expanded at a level no greater than its
      length, or some cell of it still waits in the queue at a level no
      greater than its position on the walk. */
  lemma {:induction false} WalkMeetsFrontier(m: Maze, s: Pos, order: seq<Pos>, head: nat,
                                             dist: map<Pos, nat>, slot: map<Pos, nat>,
                                             nodesLeft: int, upcoming: int, moves: int, w: seq<Pos>)
    requires Searching(m, s, order, head, dist, slot, nodesLeft, upcoming, moves)
    requires IsWalk(m, s, w)
    ensures || (Last(w) in dist && slot[Last(w)] < head && dist[Last(w)] <= |w| - 1)
            || (exists j :: 0 <= j < |w| && w[j] in dist && slot[w[j]] >= head && dist[w[j]] <= j)
  {
    if |w| == 1 {
      assert slot[order[0]] == 0;
    } else {
      var w' := w[..|w| - 1];
      WalkPrefix(m, s, w);
      WalkMeetsFrontier(m, s, order, head, dist, slot, nodesLeft, upcoming, moves, w');
      var p, q := Last(w), Last(w');
      if q in dist && slot[q] < head && dist[q] <= |w'| - 1 {
        assert Adjacent(q, p) by { assert w[|w| - 2] == q; }
        var k := DirectionOf(q, p);
        assert order[slot[q]] == q;
        assert p in dist && dist[p] <= dist[q] + 1;
        if slot[p] >= head {
          assert w[|w| - 1] == p;
        }
      } else {
        var j :| 0 <= j < |w'| && w'[j] in dist && slot[w'[j]] >= head && dist[w'[j]] <= j;
        assert w[j] == w'[j];
      }
    }
  }

  /** Every enqueued cell's level is the length of a shortest walk to it:
      no walk reaches it in fewer steps. */
  lemma ShortestToEnqueued(m: Maze, s: Pos, order: seq<Pos>, head: nat, dist: map<Pos, nat>,
                           slot: map<Pos, nat>, nodesLeft: int, upcoming: int, moves: int, w: seq<Pos>)
    requires Searching(m, s, order, head, dist, slot, nodesLeft, upcoming, moves)
    requires IsWalk(m, s, w) && Last(w) in dist
    ensures |w| - 1 >= dist[Last(w)]
  {
    WalkMeetsFrontier(m, s, order, head, dist, slot, nodesLeft, upcoming, moves, w);
    var p := Last(w);
    if !(slot[p] < head && dist[p] <= |w| - 1) {
      var j :| 0 <= j < |w| && w[j] in dist && slot[w[j]] >= head && dist[w[j]] <= j;
      assert dist[w[j]] >= moves by { assert order[slot[w[j]]] == w[j]; }
      assert dist[p] <= moves + 1 by { assert order[slot[p]] == p; }
    }
  }

  /** While no expanded cell holds the goal marker, no walk reaches a goal
      cell in fewer than `moves` steps. */
  lemma NoCloserGoal(m: Maze, s: Pos, order: seq<Pos>, head: nat, dist: map<Pos, nat>,
                     slot: map<Pos, nat>, nodesLeft: int, upcoming: int, moves: int, w: seq<Pos>)
    requires Searching(m, s, order, head, dist, slot, nodesLeft, upcoming, moves)
    requires NoGoalExpanded(m, order, head)
    requires IsWalk(m, s, w) && InBounds(m, Last(w)) && Cell(m, Last(w)) == Goal
    ensures |w| - 1 >= moves
  {
    WalkMeetsFrontier(m, s, order, head, dist, slot, nodesLeft, upcoming, moves, w);
    var p := Last(w);
    assert !(p in dist && slot[p] < head) by {
      if p in dist { assert order[slot[p]] == p; }
    }
    var j :| 0 <= j < |w| && w[j] in dist && slot[w[j]] >= head && dist[w[j]] <= j;
    assert order[slot[w[j]]] == w[j];
  }

  /** Once every enqueued cell has been expanded, every walk from the start
      ends on an expanded cell, so nothing else is reachable. */
  lemma ExhaustedCoversWalks(m: Maze, s: Pos, order: seq<Pos>, head: nat, dist: map<Pos, nat>,
                             slot: map<Pos, nat>, nodesLeft: int, upcoming: int, moves: int, w: seq<Pos>)
    requires Searching(m, s, order, head, dist, slot, nodesLeft, upcoming, moves)
    requires head == |order|
    requires IsWalk(m, s, w)
    ensures Last(w) in dist
  {
    WalkMeetsFrontier(m, s, order, head, dist, slot, nodesLeft, upcoming, moves, w);
    assert forall j :: 0 <= j < |w| && w[j] in dist ==> slot[w[j]] < head;
  }

  /** A sequence of cells has at most as many distinct members as elements,
      and exactly as many when no cell repeats. */
  lemma {:induction false} DistinctCount(order: seq<Pos>)
    ensures |set p | p in order| <= |order|
    ensures Distinct(order) <==> |set p | p in order| == |order|
  {
    if |order| > 0 {
      var init := order[..|order| - 1];
      var x := Last(order);
      DistinctCount(init);
      assert order == init + [x];
      assert (set p | p in order) == (set p | p in init) + {x};
      if x in init {
        var i :| 0 <= i < |init| && init[i] == x;
        assert order[i] == order[|order| - 1];
      } else if Distinct(init) {
        assert Distinct(order);
      } else {
        var i, j :| 0 <= i < j < |init| && init[i] == init[j];
        assert order[i] == order[j];
      }
    }
  }

  /** Each cell is enqueued at most once. */
  lemma EnqueuedOnce(m: Maze, s: Pos, order: seq<Pos>, dist: map<Pos, nat>, slot: map<Pos, nat>)
    requires Enqueued(m, s, order, dist, slot)
    ensures Distinct(order)
  {
    forall i, j | 0 <= i < j < |order| ensures order[i] != order[j] {
      assert slot[order[i]] == i && slot[order[j]] == j;
    }
  }

  /** At most R * C cells are ever enqueued. */
  lemma EnqueueBound(m: Maze, s: Pos, order: seq<Pos>, dist: map<Pos, nat>, slot: map<Pos, nat>)
    requires Enqueued(m, s, order, dist, slot)
    ensures |order| <= |m| * |m[0]|
  {
    EnqueuedOnce(m, s, order, dist, slot);
    DistinctCount(order);
    var cells := set p | p in order;
    var grid := GridCells(|m|, |m[0]|);
    assert cells <= grid;
    assert |cells| <= |grid| by {
      assert grid == cells + (grid - cells);
    }
  }
}
