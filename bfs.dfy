/** Breadth-first search over the doors of a maze: the distance, in doors, from a start cell to every cell. */
module Distances {
  import opened Grid
  import opened DoorGraph

  /** The distance recorded for a cell the search has not reached. */
  const NotSeen: int := -1

  /**
   * `dist` is the table of door distances from cell `s`: the start is at 0, every other entry is
   * NotSeen or the number of doors on a walk from `s`, and no walk from `s` is shorter than the
   * distance recorded for the cell it ends at (so no reachable cell is left NotSeen).
   */
  ghost predicate ShortestDistances(m: Maze, s: int, dist: seq<int>)
    requires WellFormed(m)
  {
    && |dist| == |m.cells| && 0 <= s < |dist| && dist[s] == 0
    && (forall v :: 0 <= v < |dist| ==> dist[v] >= NotSeen)
    && (forall v :: 0 <= v < |dist| && dist[v] != NotSeen ==>
          exists p :: IsWalkFrom(m, s, p) && p[|p| - 1] == v && |p| == dist[v] + 1)
    && (forall p :: IsWalkFrom(m, s, p) ==> 0 <= dist[p[|p| - 1]] < |p|)
  }

  /** A cell is left NotSeen exactly when no walk from the start reaches it. */
  lemma NotSeenIffUnreachable(m: Maze, s: int, dist: seq<int>, v: int)
    requires WellFormed(m) && ShortestDistances(m, s, dist) && 0 <= v < |dist|
    ensures dist[v] == NotSeen <==> !Reaches(m, s, v)
  {
    if dist[v] != NotSeen {
      var p :| IsWalkFrom(m, s, p) && p[|p| - 1] == v && |p| == dist[v] + 1;
      assert Reaches(m, s, v);
    }
  }

  /** The distance table is unique: two tables of shortest distances from the same cell are equal. */
  lemma ShortestUnique(m: Maze, s: int, d1: seq<int>, d2: seq<int>)
    requires WellFormed(m) && ShortestDistances(m, s, d1) && ShortestDistances(m, s, d2)
    ensures d1 == d2
  {
    forall v | 0 <= v < |d1|
      ensures d1[v] == d2[v]
    {
      if d1[v] != NotSeen {
        var p :| IsWalkFrom(m, s, p) && p[|p| - 1] == v && |p| == d1[v] + 1;
        assert d2[v] <= d1[v];
      }
      if d2[v] != NotSeen {
        var q :| IsWalkFrom(m, s, q) && q[|q| - 1] == v && |q| == d2[v] + 1;
        assert d1[v] <= d2[v];
      }
    }
  }

  /** Going through one door adds at most one to the distance. */
  lemma DoorAddsAtMostOne(m: Maze, s: int, dist: seq<int>, u: int, v: int)
    requires WellFormed(m) && ShortestDistances(m, s, dist) && 0 <= u < |dist|
    requires dist[u] != NotSeen && v in Neighbors(m, u)
    ensures 0 <= dist[v] <= dist[u] + 1
  {
    var p :| IsWalkFrom(m, s, p) && p[|p| - 1] == u && |p| == dist[u] + 1;
    WalkExtend(m, p, v);
    assert IsWalkFrom(m, s, p + [v]);
  }

  /** Every door of the reached cell `v` leads to a reached cell at most one door farther from the start. */
  ghost predicate Closed(m: Maze, dist: seq<int>, v: int)
    requires WellFormed(m) && |dist| == |m.cells| && 0 <= v < |m.cells|
  {
    forall u :: u in Neighbors(m, v) ==> 0 <= dist[u] <= dist[v] + 1
  }

  /** Recording new distances for unreached cells keeps a closed cell closed. */
  lemma ClosedStable(m: Maze, d0: seq<int>, d1: seq<int>, v: int)
    requires WellFormed(m) && |d0| == |d1| == |m.cells| && 0 <= v < |m.cells|
    requires forall u :: 0 <= u < |d0| && d0[u] >= 0 ==> d1[u] == d0[u]
    requires d0[v] >= 0 && Closed(m, d0, v)
    ensures Closed(m, d1, v)
  {
  }

  /**
   * When every reached cell is closed, every walk from the start ends at a reached cell whose
   * distance is less than the number of cells on the walk.
   */
  lemma {:induction false} WalkBound(m: Maze, dist: seq<int>, s: int, p: seq<int>)
    requires WellFormed(m) && |dist| == |m.cells| && 0 <= s < |m.cells| && dist[s] == 0
    requires forall v {:trigger Closed(m, dist, v)} :: 0 <= v < |m.cells| && dist[v] >= 0 ==> Closed(m, dist, v)
    requires IsWalkFrom(m, s, p)
    ensures 0 <= dist[p[|p| - 1]] < |p|
    decreases |p|
  {
    if |p| > 1 {
      WalkPrefix(m, p);
      WalkBound(m, dist, s, p[..|p| - 1]);
      assert Closed(m, dist, p[|p| - 2]);
    }
  }

  /** The cells the search has not reached yet. */
  ghost function Unseen(dist: seq<int>): set<int>
  {
    set v | 0 <= v < |dist| && dist[v] == NotSeen
  }

  /**
   * Every reached cell other than the start was reached through a door of `parent[v]`, a reached
   * cell one door closer to the start; only the start is at distance 0.
   */
  ghost predicate Parents(m: Maze, s: int, dist: seq<int>, parent: seq<int>)
    requires WellFormed(m)
  {
    && |dist| == |m.cells| && |parent| == |dist|
    && (forall v :: 0 <= v < |dist| && dist[v] == 0 ==> v == s)
    && (forall v {:trigger parent[v]} :: 0 <= v < |dist| && dist[v] > 0 ==>
          0 <= parent[v] < |dist| && dist[parent[v]] == dist[v] - 1 && v in Neighbors(m, parent[v]))
  }

  /** Following the recorded parents back from a reached cell gives a walk from the start with dist[v] doors. */
  lemma {:induction false} ParentWalk(m: Maze, s: int, dist: seq<int>, parent: seq<int>, v: int) returns (p: seq<int>)
    requires WellFormed(m) && Parents(m, s, dist, parent) && 0 <= v < |dist| && dist[v] >= 0
    ensures IsWalkFrom(m, s, p) && p[|p| - 1] == v && |p| == dist[v] + 1
    decreases dist[v]
  {
    if dist[v] == 0 {
      p := [v];
    } else {
      var q := ParentWalk(m, s, dist, parent, parent[v]);
      WalkExtend(m, q, v);
      p := q + [v];
    }
  }

  /**
   * The search's bookkeeping between two steps: every distance is NotSeen or reached, the start is
   * at distance 0, `qi` holds the indices of the queued positions, all reached, and the parents
   * lead every reached cell back to the start.
   */
  ghost predicate Frontier(m: Maze, s: int, dist: seq<int>, queue: seq<Position>, qi: seq<int>, parent: seq<int>)
    requires WellFormed(m)
  {
    && |dist| == |m.cells| && 0 <= s < |dist| && dist[s] == 0
    && (forall v :: 0 <= v < |dist| ==> dist[v] >= NotSeen)
    && |qi| == |queue|
    && (forall a :: 0 <= a < |queue| ==>
          InGrid(m.width, m.height, queue[a]) && qi[a] == Idx(m.width, queue[a].x, queue[a].y)
          && 0 <= qi[a] < |dist| && dist[qi[a]] >= 0)
    && Parents(m, s, dist, parent)
  }

  /** The queued cells are in order of distance, all at distance `d` or `d + 1`. */
  ghost predicate Band(dist: seq<int>, qi: seq<int>, d: int)
    requires forall a :: 0 <= a < |qi| ==> 0 <= qi[a] < |dist|
  {
    && (forall a :: 0 <= a < |qi| ==> d <= dist[qi[a]] <= d + 1)
    && (forall a, b :: 0 <= a <= b < |qi| ==> dist[qi[a]] <= dist[qi[b]])
  }

  /** Every reached cell is at distance at most `d + 1`. */
  ghost predicate ReachedWithin(dist: seq<int>, d: int)
  {
    forall v :: 0 <= v < |dist| && dist[v] >= 0 ==> dist[v] <= d + 1
  }

  /** Every reached cell is still waiting in `pending` or has all its doors explored. */
  ghost predicate ClosedUnlessPending(m: Maze, dist: seq<int>, pending: seq<int>)
    requires WellFormed(m) && |dist| == |m.cells|
  {
    forall v {:trigger Closed(m, dist, v)} :: 0 <= v < |dist| && dist[v] >= 0 ==> v in pending || Closed(m, dist, v)
  }

  /** Recording distance d + 1 for an unreached neighbour `ni` of cell `i` and queueing it keeps the bookkeeping. */
  lemma PushFrontier(m: Maze, s: int, dist: seq<int>, queue: seq<Position>, qi: seq<int>, parent: seq<int>,
                     i: int, ni: int, nb: Position)
    requires WellFormed(m) && Frontier(m, s, dist, queue, qi, parent)
    requires 0 <= i < |dist| && dist[i] >= 0
    requires InGrid(m.width, m.height, nb) && ni == Idx(m.width, nb.x, nb.y) && 0 <= ni < |dist|
    requires dist[ni] == NotSeen && ni in Neighbors(m, i)
    ensures Frontier(m, s, dist[ni := dist[i] + 1], queue + [nb], qi + [ni], parent[ni := i])
  {
  }

  /** The same step keeps every cell that was closed closed. */
  lemma PushClosed(m: Maze, dist: seq<int>, pending: seq<int>, ni: int, e: int)
    requires WellFormed(m) && |dist| == |m.cells| && 0 <= ni < |dist| && dist[ni] == NotSeen && e >= 0
    requires ClosedUnlessPending(m, dist, pending)
    ensures ClosedUnlessPending(m, dist[ni := e], pending + [ni])
  {
    var post := dist[ni := e];
    forall v | 0 <= v < |post| && post[v] >= 0 && v !in pending + [ni]
      ensures Closed(m, post, v)
    {
      ClosedStable(m, dist, post, v);
    }
  }

  /** All of the bookkeeping survives recording distance dist[i] + 1 for an unreached neighbour `ni` of `i`. */
  lemma PushStep(m: Maze, s: int, dist: seq<int>, queue: seq<Position>, qi: seq<int>, parent: seq<int>,
                 i: int, ni: int, nb: Position)
    requires WellFormed(m) && Frontier(m, s, dist, queue, qi, parent)
    requires 0 <= i < |dist| && dist[i] >= 0
    requires InGrid(m.width, m.height, nb) && ni == Idx(m.width, nb.x, nb.y) && 0 <= ni < |dist|
    requires dist[ni] == NotSeen && ni in Neighbors(m, i)
    requires Band(dist, qi, dist[i]) && ReachedWithin(dist, dist[i])
    requires ClosedUnlessPending(m, dist, [i] + qi)
    ensures var post := dist[ni := dist[i] + 1];
      && Frontier(m, s, post, queue + [nb], qi + [ni], parent[ni := i])
      && Band(post, qi + [ni], dist[i]) && ReachedWithin(post, dist[i])
      && ClosedUnlessPending(m, post, [i] + (qi + [ni]))
      && Unseen(post) == Unseen(dist) - {ni}
  {
    PushFrontier(m, s, dist, queue, qi, parent, i, ni, nb);
    PushClosed(m, dist, [i] + qi, ni, dist[i] + 1);
    assert [i] + (qi + [ni]) == ([i] + qi) + [ni];
  }

  /** Once every door of cell `i` has been followed, `i` no longer needs to be pending. */
  lemma CloseCell(m: Maze, dist: seq<int>, qi: seq<int>, i: int)
    requires WellFormed(m) && |dist| == |m.cells| && 0 <= i < |dist| && dist[i] >= 0
    requires ReachedWithin(dist, dist[i]) && ClosedUnlessPending(m, dist, [i] + qi)
    requires forall j :: 0 <= j < |Neighbors(m, i)| ==> dist[Neighbors(m, i)[j]] >= 0
    ensures ClosedUnlessPending(m, dist, qi)
  {
    assert Closed(m, dist, i);
  }

  /**
   * The distance table and the queue after following, in order, the doors to the positions `nbs`
   * of a cell at distance `d`: each position not reached yet gets distance d + 1 and joins the
   * back of the queue.
   */
  function AfterDoors(w: int, dist: seq<int>, queue: seq<Position>, d: int, nbs: seq<Position>): (r: (seq<int>, seq<Position>))
    ensures |r.0| == |dist|
    decreases |nbs|
  {
    if nbs == [] then (dist, queue)
    else
      var prev := AfterDoors(w, dist, queue, d, nbs[..|nbs| - 1]);
      AfterDoor(w, prev.0, prev.1, d, nbs[|nbs| - 1])
  }

  /** Following one door, to the position `nb`, from a cell at distance `d`. */
  function AfterDoor(w: int, dist: seq<int>, queue: seq<Position>, d: int, nb: Position): (r: (seq<int>, seq<Position>))
    ensures |r.0| == |dist|
  {
    var ni := Idx(w, nb.x, nb.y);
    if 0 <= ni < |dist| && dist[ni] == NotSeen then (dist[ni := d + 1], queue + [nb]) else (dist, queue)
  }

  /**
   * The body of the search's inner loop: following a door of cell `i` to the neighbour at `nb`,
   * which, when not reached yet, gets distance dist[i] + 1 and joins the back of the queue.
   */
  method FollowDoor(maze: Maze, dist0: seq<int>, i: int, nb: Position, queue0: seq<Position>,
                    ghost s: int, ghost qi0: seq<int>, ghost parent0: seq<int>)
    returns (dist: seq<int>, queue: seq<Position>, ghost qi: seq<int>, ghost parent: seq<int>)
    requires WellFormed(maze) && Frontier(maze, s, dist0, queue0, qi0, parent0)
    requires 0 <= i < |dist0| && dist0[i] >= 0
    requires InGrid(maze.width, maze.height, nb) && Idx(maze.width, nb.x, nb.y) in Neighbors(maze, i)
    requires Band(dist0, qi0, dist0[i]) && ReachedWithin(dist0, dist0[i])
    requires ClosedUnlessPending(maze, dist0, [i] + qi0)
    ensures |dist| == |dist0| && dist[i] == dist0[i]
    ensures forall v :: 0 <= v < |dist| && dist0[v] >= 0 ==> dist[v] == dist0[v]
    ensures 0 <= Idx(maze.width, nb.x, nb.y) < |dist| && dist[Idx(maze.width, nb.x, nb.y)] >= 0
    ensures Frontier(maze, s, dist, queue, qi, parent)
    ensures Band(dist, qi, dist[i]) && ReachedWithin(dist, dist[i])
    ensures ClosedUnlessPending(maze, dist, [i] + qi)
    ensures Unseen(dist) < Unseen(dist0) || (dist == dist0 && queue == queue0)
    ensures var ni := Idx(maze.width, nb.x, nb.y);
      if dist0[ni] == NotSeen then dist == dist0[ni := dist0[i] + 1] && queue == queue0 + [nb]
      else dist == dist0 && queue == queue0
    ensures (dist, queue) == AfterDoor(maze.width, dist0, queue0, dist0[i], nb)
  {
    var ni := Idx(maze.width, nb.x, nb.y);
    dist, queue, qi, parent := dist0, queue0, qi0, parent0;
    if dist[ni] == NotSeen {
      PushStep(maze, s, dist, queue, qi, parent, i, ni, nb);
      dist := dist[ni := dist[i] + 1];
      queue := queue + [nb];
      qi := qi + [ni];
      parent := parent[ni := i];
    }
  }

  /**
   * One turn of the search's outer loop, after `current` (cell `i`) has left the queue: every
   * door of the cell is followed in order, after which the cell is closed.
   */
  method ExpandCell(maze: Maze, dist0: seq<int>, current: Position, queue0: seq<Position>,
                    ghost s: int, ghost qi0: seq<int>, ghost parent0: seq<int>)
    returns (dist: seq<int>, queue: seq<Position>, ghost qi: seq<int>, ghost parent: seq<int>)
    requires WellFormed(maze) && InGrid(maze.width, maze.height, current)
    requires Frontier(maze, s, dist0, queue0, qi0, parent0)
    requires 0 <= Idx(maze.width, current.x, current.y) < |dist0|
    requires dist0[Idx(maze.width, current.x, current.y)] >= 0
    requires Band(dist0, qi0, dist0[Idx(maze.width, current.x, current.y)])
    requires ReachedWithin(dist0, dist0[Idx(maze.width, current.x, current.y)])
    requires ClosedUnlessPending(maze, dist0, [Idx(maze.width, current.x, current.y)] + qi0)
    ensures |dist| == |dist0|
    ensures dist[Idx(maze.width, current.x, current.y)] == dist0[Idx(maze.width, current.x, current.y)]
    ensures Frontier(maze, s, dist, queue, qi, parent)
    ensures Band(dist, qi, dist[Idx(maze.width, current.x, current.y)])
    ensures ReachedWithin(dist, dist[Idx(maze.width, current.x, current.y)])
    ensures ClosedUnlessPending(maze, dist, qi)
    ensures Unseen(dist) < Unseen(dist0) || (dist == dist0 && queue == queue0)
    ensures forall u :: u in Neighbors(maze, Idx(maze.width, current.x, current.y)) ==> 0 <= dist[u]
    ensures (dist, queue) == AfterDoors(maze.width, dist0, queue0, dist0[Idx(maze.width, current.x, current.y)],
      NeighborPositions(current, maze.cells[Idx(maze.width, current.x, current.y)].doors))
  {
    var w := maze.width;
    var i := Idx(w, current.x, current.y);
    PosOfIdx(w, current.x, current.y);
    var cell := maze.cells[i];
    var neighbors := NeighborPositions(current, cell.doors);
    ghost var d := dist0[i];
    ghost var ns := Neighbors(maze, i);
    dist, queue, qi, parent := dist0, queue0, qi0, parent0;
    for k := 0 to |neighbors|
      invariant |dist| == |maze.cells| && 0 <= i < |dist|
      invariant dist[i] == d
      invariant Unseen(dist) < Unseen(dist0) || (dist == dist0 && queue == queue0)
      invariant Frontier(maze, s, dist, queue, qi, parent)
      invariant Band(dist, qi, d)
      invariant ReachedWithin(dist, d)
      invariant forall j :: 0 <= j < k ==> dist[ns[j]] >= 0
      invariant ClosedUnlessPending(maze, dist, [i] + qi)
      invariant (dist, queue) == AfterDoors(w, dist0, queue0, d, neighbors[..k])
    {
      var nb := neighbors[k];
      NeighborAt(maze, i, current, k);
      assert Idx(w, nb.x, nb.y) == ns[k];
      assert neighbors[..k + 1][..k] == neighbors[..k];
      ghost var before := dist;
      dist, queue, qi, parent := FollowDoor(maze, dist, i, nb, queue, s, qi, parent);
      assert dist[ns[k]] >= 0;
      forall j | 0 <= j < k + 1
        ensures dist[ns[j]] >= 0
      {
        if j < k {
          assert before[ns[j]] >= 0;
        }
      }
    }
    assert neighbors[..|neighbors|] == neighbors;
    CloseCell(maze, dist, qi, i);
  }

  /**
   * The distance search of the maze view. Starting from `start`, it returns for every cell the
   * number of doors on a shortest walk from the start, or NotSeen when no walk reaches it.
   */
  method Bfs(maze: Maze, start: Position) returns (distances: seq<int>)
    requires WellFormed(maze) && InGrid(maze.width, maze.height, start)
    ensures ShortestDistances(maze, Idx(maze.width, start.x, start.y), distances)
  {
    var w := maze.width;
    var n := |maze.cells|;
    IdxInRange(w, maze.height, start.x, start.y);
    var s := Idx(w, start.x, start.y);
    var dist := seq(n, _ => NotSeen);
    dist := dist[s := 0];
    var queue := [start];
    ghost var qi := [s];
    ghost var parent: seq<int> := seq(n, _ => s);
    while |queue| > 0
      invariant |dist| == n
      invariant Frontier(maze, s, dist, queue, qi, parent)
      invariant forall a, b :: 0 <= a <= b < |qi| ==> dist[qi[a]] <= dist[qi[b]] <= dist[qi[a]] + 1
      invariant |qi| > 0 ==> ReachedWithin(dist, dist[qi[0]])
      invariant ClosedUnlessPending(maze, dist, qi)
      decreases Unseen(dist), |queue|
    {
      var current := queue[0];
      ghost var i := qi[0];
      assert qi == [i] + qi[1..];
      dist, queue, qi, parent := ExpandCell(maze, dist, current, queue[1..], s, qi[1..], parent);
    }
    distances := dist;
    forall v | 0 <= v < n && distances[v] != NotSeen
      ensures exists p :: IsWalkFrom(maze, s, p) && p[|p| - 1] == v && |p| == distances[v] + 1
    {
      var p := ParentWalk(maze, s, dist, parent, v);
    }
    forall p | IsWalkFrom(maze, s, p)
      ensures 0 <= distances[p[|p| - 1]] < |p|
    {
      WalkBound(maze, distances, s, p);
    }
  }
}
