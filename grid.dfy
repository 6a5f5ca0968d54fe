/** The maze's data model and its row-major cell indexing. */
module Grid {

  /** The four sides of a cell through which a door may lead. */
  datatype Direction = North | South | East | West

  /** A grid coordinate; `x` grows eastwards, `y` grows southwards (row 0 is the top row). */
  datatype Position = Position(x: int, y: int)

  /** A cell of the maze with the list of sides that have a door, in the order they were opened. */
  datatype Cell = Cell(x: nat, y: nat, doors: seq<Direction>)

  /** A maze of `width` by `height` cells, stored row by row. */
  datatype Maze = Maze(height: nat, width: nat, cells: seq<Cell>)

  datatype Option<T> = None | Some(value: T)

  /** The doors of the cell at `p` (none when `p` has no cell in the list). */
  function DoorsAt(m: Maze, p: Position): seq<Direction>
  {
    var i := Idx(m.width, p.x, p.y);
    if 0 <= i < |m.cells| then m.cells[i].doors else []
  }

  /** Row-major index of the cell at (x, y) in a grid `w` cells wide. */
  function Idx(w: int, x: int, y: int): int
  {
    w * y + x
  }

  /** The coordinates of the cell stored at index `i` of a grid `w` cells wide. */
  function PosOf(w: nat, i: int): Position
    requires w > 0
  {
    Position(i % w, i / w)
  }

  predicate InGrid(w: int, h: int, p: Position)
  {
    0 <= p.x < w && 0 <= p.y < h
  }

  lemma MulMonotone(a: int, b: int, c: int)
    requires 0 <= a && b <= c
    ensures a * b <= a * c
  {
    assert a * c - a * b == a * (c - b);
  }

  /** Every cell of a `w` by `h` grid has an index in [0, w*h). */
  lemma IdxInRange(w: int, h: int, x: int, y: int)
    requires 0 <= x < w && 0 <= y < h
    ensures 0 <= Idx(w, x, y) < w * h
  {
    MulMonotone(w, 0, y);
    MulMonotone(w, y + 1, h);
  }

  /** Decoding the index of (x, y) gives back (x, y). */
  lemma PosOfIdx(w: nat, x: int, y: int)
    requires 0 <= x < w && 0 <= y
    ensures PosOf(w, Idx(w, x, y)) == Position(x, y)
  {
    var i := Idx(w, x, y);
    var q, r := i / w, i % w;
    assert i == w * q + r;
    if q < y {
      MulMonotone(w, q + 1, y);
      assert false;
    } else if q > y {
      MulMonotone(w, y + 1, q);
      assert false;
    }
  }

  /** Encoding the coordinates of index `i` gives back `i`. */
  lemma IdxOfPos(w: nat, i: int)
    requires w > 0
    ensures Idx(w, PosOf(w, i).x, PosOf(w, i).y) == i
  {
  }

  /** Distinct in-grid coordinates have distinct indices. */
  lemma IdxInjective(w: nat, x1: int, y1: int, x2: int, y2: int)
    requires 0 <= x1 < w && 0 <= y1 && 0 <= x2 < w && 0 <= y2
    requires Idx(w, x1, y1) == Idx(w, x2, y2)
    ensures x1 == x2 && y1 == y2
  {
    PosOfIdx(w, x1, y1);
    PosOfIdx(w, x2, y2);
  }

  /** An index inside a `w` by `h` grid decodes to a position inside the grid. */
  lemma PosOfInGrid(w: nat, h: nat, i: int)
    requires w > 0 && 0 <= i < w * h
    ensures InGrid(w, h, PosOf(w, i))
  {
    var p := PosOf(w, i);
    if p.y >= h {
      MulMonotone(w, h, p.y);
      assert false;
    }
  }

  /** The cell above (x, y) is `w` places earlier; the cell to its right is one place later. */
  lemma IdxNeighbours(w: int, x: int, y: int)
    ensures Idx(w, x, y - 1) == Idx(w, x, y) - w
    ensures Idx(w, x + 1, y) == Idx(w, x, y) + 1
    ensures Idx(w, x, y + 1) == Idx(w, x, y) + w
    ensures Idx(w, x - 1, y) == Idx(w, x, y) - 1
  {
  }
}
