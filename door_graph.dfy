/** The maze seen as a graph: cells are vertices (by index), doors are edges. */
module DoorGraph {
  import opened Grid

  /** The neighbour reached by walking through a door on side `d` (the `switch` of the distance search). */
  function Step(p: Position, d: Direction): (q: Position)
    ensures (q.x == p.x && (q.y == p.y - 1 || q.y == p.y + 1))
         || (q.y == p.y && (q.x == p.x - 1 || q.x == p.x + 1))
  {
    match d
    case East => Position(p.x + 1, p.y)
    case West => Position(p.x - 1, p.y)
    case North => Position(p.x, p.y - 1)
    case South => Position(p.x, p.y + 1)
  }

  /** The side of the neighbour that faces back through the same door. */
  function Opposite(d: Direction): (o: Direction)
    ensures o != d
    ensures forall p :: Step(Step(p, d), o) == p
  {
    match d
    case North => South
    case South => North
    case East => West
    case West => East
  }

  /** The positions behind each door of a cell at `p`, in door order. */
  function NeighborPositions(p: Position, doors: seq<Direction>): (ns: seq<Position>)
    ensures |ns| == |doors|
    ensures forall k :: 0 <= k < |ns| ==> ns[k] == Step(p, doors[k])
  {
    seq(|doors|, k requires 0 <= k < |doors| => Step(p, doors[k]))
  }

  /** A maze whose cell list covers the grid and whose every door leads to a cell of the grid. */
  ghost predicate WellFormed(m: Maze)
  {
    |m.cells| == m.width * m.height &&
    forall i, d :: 0 <= i < |m.cells| && d in m.cells[i].doors ==>
      m.width > 0 && InGrid(m.width, m.height, Step(PosOf(m.width, i), d))
  }

  lemma StepsInRange(m: Maze, i: int)
    requires WellFormed(m) && 0 <= i < |m.cells|
    ensures m.width > 0
    ensures forall q :: q in NeighborPositions(PosOf(m.width, i), m.cells[i].doors) ==>
      InGrid(m.width, m.height, q) && 0 <= Idx(m.width, q.x, q.y) < |m.cells|
  {
    var ps := NeighborPositions(PosOf(m.width, i), m.cells[i].doors);
    forall q | q in ps
      ensures InGrid(m.width, m.height, q) && 0 <= Idx(m.width, q.x, q.y) < |m.cells|
    {
      var k :| 0 <= k < |ps| && ps[k] == q;
      assert m.cells[i].doors[k] in m.cells[i].doors;
      IdxInRange(m.width, m.height, q.x, q.y);
    }
  }

  /** Indices of the cells behind the doors of cell `i`, in door order. */
  function Neighbors(m: Maze, i: int): (ns: seq<int>)
    requires WellFormed(m) && 0 <= i < |m.cells|
    ensures |ns| == |m.cells[i].doors|
    ensures forall k :: 0 <= k < |ns| ==> 0 <= ns[k] < |m.cells|
  {
    StepsInRange(m, i);
    var ps := NeighborPositions(PosOf(m.width, i), m.cells[i].doors);
    seq(|ps|, k requires 0 <= k < |ps| => Idx(m.width, ps[k].x, ps[k].y))
  }

  /** `p` is a walk through doors: a non-empty list of cells, each behind a door of the one before. */
  ghost predicate IsWalk(m: Maze, p: seq<int>)
    requires WellFormed(m)
  {
    |p| >= 1 &&
    (forall k :: 0 <= k < |p| ==> 0 <= p[k] < |m.cells|) &&
    (forall k :: 0 <= k < |p| - 1 ==> p[k + 1] in Neighbors(m, p[k]))
  }

  ghost predicate IsWalkFrom(m: Maze, s: int, p: seq<int>)
    requires WellFormed(m)
  {
    IsWalk(m, p) && p[0] == s
  }

  /** Some walk through doors leads from cell `s` to cell `v`. */
  ghost predicate Reaches(m: Maze, s: int, v: int)
    requires WellFormed(m)
  {
    exists p :: IsWalkFrom(m, s, p) && p[|p| - 1] == v
  }

  /** Every cell of the maze can be reached from every other one. */
  ghost predicate Connected(m: Maze)
    requires WellFormed(m)
  {
    forall s, v :: 0 <= s < |m.cells| && 0 <= v < |m.cells| ==> Reaches(m, s, v)
  }

  /** Extending a walk through a door of its last cell gives a walk. */
  lemma WalkExtend(m: Maze, p: seq<int>, j: int)
    requires WellFormed(m) && IsWalk(m, p)
    requires j in Neighbors(m, p[|p| - 1])
    ensures IsWalk(m, p + [j]) && (p + [j])[0] == p[0]
  {
    var q := p + [j];
    forall k | 0 <= k < |q| - 1
      ensures q[k + 1] in Neighbors(m, q[k])
    {
      if k < |p| - 1 {
        assert q[k + 1] == p[k + 1] && q[k] == p[k];
      }
    }
  }

  /** Joining a walk to `v` with a walk from `v` gives a walk. */
  lemma WalkConcat(m: Maze, p: seq<int>, q: seq<int>)
    requires WellFormed(m) && IsWalk(m, p) && IsWalk(m, q)
    requires p[|p| - 1] == q[0]
    ensures IsWalk(m, p + q[1..])
    ensures (p + q[1..])[0] == p[0] && (p + q[1..])[|p + q[1..]| - 1] == q[|q| - 1]
    ensures |p + q[1..]| == |p| + |q| - 1
  {
    var r := p + q[1..];
    forall k | 0 <= k < |r| - 1
      ensures r[k + 1] in Neighbors(m, r[k])
    {
      if k < |p| - 1 {
        assert r[k + 1] == p[k + 1] && r[k] == p[k];
      } else {
        var t := k - (|p| - 1);
        assert r[k] == q[t] && r[k + 1] == q[t + 1];
      }
    }
  }

  /** A walk with its last cell dropped is still a walk. */
  lemma WalkPrefix(m: Maze, p: seq<int>)
    requires WellFormed(m) && IsWalk(m, p) && |p| >= 2
    ensures IsWalk(m, p[..|p| - 1]) && p[..|p| - 1][0] == p[0]
    ensures p[|p| - 1] in Neighbors(m, p[|p| - 2])
  {
    var q := p[..|p| - 1];
    forall k | 0 <= k < |q| - 1
      ensures q[k + 1] in Neighbors(m, q[k])
    {
      assert q[k + 1] == p[k + 1] && q[k] == p[k];
    }
  }

  /** A walk can be started one door earlier. */
  lemma WalkPrepend(m: Maze, i: int, p: seq<int>)
    requires WellFormed(m) && IsWalk(m, p) && 0 <= i < |m.cells|
    requires p[0] in Neighbors(m, i)
    ensures IsWalk(m, [i] + p)
  {
    var q := [i] + p;
    forall k | 0 <= k < |q| - 1
      ensures q[k + 1] in Neighbors(m, q[k])
    {
      if k > 0 {
        assert q[k + 1] == p[k] && q[k] == p[k - 1];
      }
    }
  }

  /** A door of cell `i` makes the cell behind it a neighbour of `i`. */
  lemma DoorLeadsTo(m: Maze, i: int, d: Direction)
    requires WellFormed(m) && 0 <= i < |m.cells| && d in m.cells[i].doors
    ensures m.width > 0
    ensures Idx(m.width, Step(PosOf(m.width, i), d).x, Step(PosOf(m.width, i), d).y) in Neighbors(m, i)
  {
    StepsInRange(m, i);
    var doors := m.cells[i].doors;
    var k :| 0 <= k < |doors| && doors[k] == d;
    assert Neighbors(m, i)[k] == Idx(m.width, Step(PosOf(m.width, i), d).x, Step(PosOf(m.width, i), d).y);
  }

  /** The k-th neighbour of cell `i`, which sits at `p`, is the cell behind its k-th door. */
  lemma NeighborAt(m: Maze, i: int, p: Position, k: int)
    requires WellFormed(m) && 0 <= i < |m.cells| && m.width > 0 && PosOf(m.width, i) == p
    requires 0 <= k < |m.cells[i].doors|
    ensures InGrid(m.width, m.height, Step(p, m.cells[i].doors[k]))
    ensures Neighbors(m, i)[k] == Idx(m.width, Step(p, m.cells[i].doors[k]).x, Step(p, m.cells[i].doors[k]).y)
  {
    assert m.cells[i].doors[k] in m.cells[i].doors;
  }
}
