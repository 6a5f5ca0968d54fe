/**
 * The binary-tree maze generator: every cell except the top-right one opens a passage
 * either to the north or to the east, and the neighbour gets the matching door.
 */
module BinaryTree {
  import opened Grid
  import opened DoorGraph

  // ---------------------------------------------------------------------------
  // The fresh grid
  // ---------------------------------------------------------------------------

  /** Row `y` of the fresh grid: cells (0, y) .. (w-1, y), none with a door. */
  function Row(w: nat, y: nat): seq<Cell>
  {
    seq(w, x requires 0 <= x < w => Cell(x, y, []))
  }

  /** The fresh grid, built row after row as the generator's `flatMap` does. */
  function InitialCells(w: nat, h: nat): seq<Cell>
  {
    if h == 0 then [] else InitialCells(w, h - 1) + Row(w, h - 1)
  }

  /** The fresh grid has `w*h` cells in row-major order, each at its own coordinates and without doors. */
  lemma {:induction false} InitialCellsLayout(w: nat, h: nat)
    ensures |InitialCells(w, h)| == w * h
    ensures forall x, y :: 0 <= x < w && 0 <= y < h ==>
      InitialCells(w, h)[Idx(w, x, y)] == Cell(x, y, [])
  {
    if h > 0 {
      InitialCellsLayout(w, h - 1);
      forall x, y | 0 <= x < w && 0 <= y < h
        ensures InitialCells(w, h)[Idx(w, x, y)] == Cell(x, y, [])
      {
        if y < h - 1 {
          IdxInRange(w, h - 1, x, y);
        }
      }
    }
  }

  /** The same layout, read by index. */
  lemma InitialCellAt(w: nat, h: nat, j: int)
    requires 0 <= j < w * h
    ensures w > 0 && |InitialCells(w, h)| == w * h
    ensures InitialCells(w, h)[j] == Cell(j % w, j / w, [])
  {
    InitialCellsLayout(w, h);
    PosOfInGrid(w, h, j);
    IdxOfPos(w, j);
  }

  // ---------------------------------------------------------------------------
  // The carving rule
  // ---------------------------------------------------------------------------

  /** The number of the coin drawn for interior cell (x, y): interior cells draw in row-major order. */
  function DrawIndex(w: nat, x: nat, y: nat): nat
    requires x < w && y >= 1
  {
    var rows: nat := y - 1;
    var cols: nat := w - 1;
    rows * cols + x
  }

  /**
   * The passage cell (x, y) carves, if any; `r(k)` is the outcome of the k-th coin
   * (true when the random number is below one half, which picks North).
   */
  function CarveOf(w: nat, r: nat -> bool, x: nat, y: nat): Option<Direction>
    requires x < w
  {
    if y == 0 && x == w - 1 then None
    else if y == 0 then Some(East)
    else if x == w - 1 then Some(North)
    else if r(DrawIndex(w, x, y)) then Some(North)
    else Some(East)
  }

  /** The carve of the cell stored at index `i`. */
  function CarveAt(w: nat, r: nat -> bool, i: nat): Option<Direction>
    requires w > 0
  {
    CarveOf(w, r, i % w, i / w)
  }

  /**
   * The doors of cell `j` once the generator has visited cells 0 .. k-1: a West door
   * pushed by its western neighbour, then its own carve, then a South door pushed by
   * its southern neighbour (cells are visited in that order).
   */
  function DoorsAfter(w: nat, r: nat -> bool, k: nat, j: nat): seq<Direction>
    requires w > 0
  {
    (if 0 < j <= k && CarveAt(w, r, j - 1) == Some(East) then [West] else [])
    + (if j < k && CarveAt(w, r, j).Some? then [CarveAt(w, r, j).value] else [])
    + (if j + w < k && CarveAt(w, r, j + w) == Some(North) then [South] else [])
  }

  /** The first `k` cells of the generated maze, whose door lists are those after visiting `n` cells. */
  function GeneratedCells(w: nat, r: nat -> bool, n: nat, k: nat): (cells: seq<Cell>)
    requires w > 0
    ensures |cells| == k
  {
    if k == 0 then []
    else GeneratedCells(w, r, n, k - 1) + [Cell((k - 1) % w, (k - 1) / w, DoorsAfter(w, r, n, k - 1))]
  }

  lemma {:induction false} GeneratedCellsAt(w: nat, r: nat -> bool, n: nat, k: nat, j: int)
    requires w > 0 && 0 <= j < k
    ensures GeneratedCells(w, r, n, k)[j] == Cell(j % w, j / w, DoorsAfter(w, r, n, j))
  {
    if j < k - 1 {
      GeneratedCellsAt(w, r, n, k - 1, j);
    }
  }

  /** The maze the generator builds from the coin stream `r`. */
  function BinaryTreeMaze(w: nat, h: nat, r: nat -> bool): Maze
  {
    if w == 0 then Maze(h, w, [])
    else Maze(h, w, GeneratedCells(w, r, w * h, w * h))
  }

  /** Interior cells (off the top row and off the right column) are those that draw a coin. */
  predicate IsInterior(w: nat, i: nat)
    requires w > 0
  {
    i / w > 0 && i % w < w - 1
  }

  /** How many coins have been drawn before the generator reaches cell `i`. */
  function InteriorBefore(w: nat, i: nat): nat
    requires w > 0
  {
    if i == 0 then 0 else InteriorBefore(w, i - 1) + (if IsInterior(w, i - 1) then 1 else 0)
  }

  /** The coin drawn at an interior cell (x, y) is coin number (y-1)*(w-1) + x. */
  lemma {:induction false} InteriorBeforeClosedForm(w: nat, x: nat, y: nat)
    requires x < w
    ensures InteriorBefore(w, Idx(w, x, y)) == if y == 0 then 0 else (y - 1) * (w - 1) + x
    decreases y, x
  {
    var i := Idx(w, x, y);
    if x > 0 {
      InteriorBeforeClosedForm(w, x - 1, y);
      PosOfIdx(w, x - 1, y);
      assert Idx(w, x - 1, y) == i - 1;
    } else if y > 0 {
      InteriorBeforeClosedForm(w, w - 1, y - 1);
      PosOfIdx(w, w - 1, y - 1);
      assert Idx(w, w - 1, y - 1) == i - 1;
      assert (y - 1) * (w - 1) == (if y - 1 == 0 then 0 else (y - 2) * (w - 1) + (w - 1));
    }
  }

  /** Each interior cell of a w-by-h grid draws its own coin, and the coins drawn are 0 .. (w-1)*(h-1)-1. */
  lemma DrawsOnePerInteriorCell(w: nat, h: nat, x1: nat, y1: nat, x2: nat, y2: nat)
    requires x1 < w - 1 && 1 <= y1 < h && x2 < w - 1 && 1 <= y2 < h
    ensures DrawIndex(w, x1, y1) < (w - 1) * (h - 1)
    ensures DrawIndex(w, x1, y1) == DrawIndex(w, x2, y2) ==> x1 == x2 && y1 == y2
  {
    IdxInRange(w - 1, h - 1, x1, y1 - 1);
    assert DrawIndex(w, x1, y1) == Idx(w - 1, x1, y1 - 1);
    assert DrawIndex(w, x2, y2) == Idx(w - 1, x2, y2 - 1);
    if DrawIndex(w, x1, y1) == DrawIndex(w, x2, y2) {
      IdxInjective(w - 1, x1, y1 - 1, x2, y2 - 1);
    }
  }

  // ---------------------------------------------------------------------------
  // The generator
  // ---------------------------------------------------------------------------

  /** Cell `c` with one more door, on side `d`. */
  function Open(c: Cell, d: Direction): Cell
  {
    c.(doors := c.doors + [d])
  }

  /** Opens a door North in cell `i` and the matching South door in the cell above it. */
  method PickNorth(cells: array<Cell>, width: nat, i: nat)
    requires i < cells.Length && cells[i].y >= 1
    requires 0 <= Idx(width, cells[i].x, cells[i].y - 1) < cells.Length
    requires Idx(width, cells[i].x, cells[i].y - 1) != i
    modifies cells
    ensures var n := Idx(width, old(cells[i].x), old(cells[i].y) - 1);
      cells[..] == old(cells[..])[i := Open(old(cells[i]), North)][n := Open(old(cells[n]), South)]
  {
    cells[i] := Open(cells[i], North);
    var n := Idx(width, cells[i].x, cells[i].y - 1);
    cells[n] := Open(cells[n], South);
  }

  /** Opens a door East in cell `i` and the matching West door in the cell to its right. */
  method PickEast(cells: array<Cell>, width: nat, i: nat)
    requires i < cells.Length
    requires 0 <= Idx(width, cells[i].x + 1, cells[i].y) < cells.Length
    requires Idx(width, cells[i].x + 1, cells[i].y) != i
    modifies cells
    ensures var n := Idx(width, old(cells[i].x) + 1, old(cells[i].y));
      cells[..] == old(cells[..])[i := Open(old(cells[i]), East)][n := Open(old(cells[n]), West)]
  {
    cells[i] := Open(cells[i], East);
    var n := Idx(width, cells[i].x + 1, cells[i].y);
    cells[n] := Open(cells[n], West);
  }

  /** The cells once cell `i` has carved `carve` (and its neighbour got the matching door). */
  ghost function AfterVisit(cells: seq<Cell>, w: nat, i: nat, carve: Option<Direction>): seq<Cell>
    requires i < |cells|
    requires carve == Some(East) ==> i + 1 < |cells|
    requires carve == Some(North) ==> i >= w
  {
    match carve
    case None => cells
    case Some(North) => cells[i := Open(cells[i], North)][i - w := Open(cells[i - w], South)]
    case Some(East) => cells[i := Open(cells[i], East)][i + 1 := Open(cells[i + 1], West)]
    case Some(_) => cells
  }

  /** The cells as the generator holds them after visiting cells 0 .. k-1. */
  ghost predicate VisitedUpTo(cells: seq<Cell>, w: nat, r: nat -> bool, k: nat)
  {
    forall j :: 0 <= j < |cells| ==> w > 0 && cells[j] == Cell(j % w, j / w, DoorsAfter(w, r, k, j))
  }

  /** Where cell `i` sits, which carve it makes, and the indices of the neighbours it may open to. */
  lemma VisitFacts(w: nat, h: nat, r: nat -> bool, i: nat)
    requires i < w * h
    ensures w > 0 && i / w < h
    ensures CarveAt(w, r, i) ==
      if i / w == 0 && i % w == w - 1 then None
      else if i / w == 0 then Some(East)
      else if i % w == w - 1 then Some(North)
      else if r(InteriorBefore(w, i)) then Some(North)
      else Some(East)
    ensures IsInterior(w, i) == (i / w != 0 && i % w != w - 1)
    ensures i / w >= 1 ==> Idx(w, i % w, i / w - 1) == i - w >= 0
    ensures i % w < w - 1 ==> Idx(w, i % w + 1, i / w) == i + 1 < w * h
  {
    PosOfInGrid(w, h, i);
    IdxOfPos(w, i);
    var x, y := i % w, i / w;
    assert i == Idx(w, x, y);
    IdxNeighbours(w, x, y);
    if y >= 1 && x < w - 1 {
      InteriorBeforeClosedForm(w, x, y);
    }
    if y >= 1 {
      IdxInRange(w, h, x, y - 1);
    }
    if x < w - 1 {
      IdxInRange(w, h, x + 1, y);
    }
  }

  /** Visiting cell `i` moves the cells from "visited up to `i`" to "visited up to `i + 1`". */
  lemma VisitStep(w: nat, r: nat -> bool, cells: seq<Cell>, i: nat)
    requires w > 0 && i < |cells| && VisitedUpTo(cells, w, r, i)
    requires CarveAt(w, r, i) == Some(East) ==> i + 1 < |cells|
    requires CarveAt(w, r, i) == Some(North) ==> i >= w
    ensures VisitedUpTo(AfterVisit(cells, w, i, CarveAt(w, r, i)), w, r, i + 1)
  {
    var carve := CarveAt(w, r, i);
    var after := AfterVisit(cells, w, i, carve);
    forall j | 0 <= j < |after|
      ensures after[j] == Cell(j % w, j / w, DoorsAfter(w, r, i + 1, j))
    {
      DoorsAfterStep(w, r, i, j);
      assert cells[j] == Cell(j % w, j / w, DoorsAfter(w, r, i, j));
      if j != i && !(carve == Some(East) && j == i + 1) && !(carve == Some(North) && j + w == i) {
        assert after[j] == cells[j];
      }
    }
  }

  /** How visiting cell `i` changes the door list of cell `j`. */
  lemma DoorsAfterStep(w: nat, r: nat -> bool, i: nat, j: nat)
    requires w > 0
    ensures DoorsAfter(w, r, i + 1, j) ==
      if j == i && CarveAt(w, r, i).Some? then DoorsAfter(w, r, i, j) + [CarveAt(w, r, i).value]
      else if j == i + 1 && CarveAt(w, r, i) == Some(East) then DoorsAfter(w, r, i, j) + [West]
      else if j + w == i && CarveAt(w, r, i) == Some(North) then DoorsAfter(w, r, i, j) + [South]
      else DoorsAfter(w, r, i, j)
  {
  }

  /** Once every cell has been visited the cells are those of `BinaryTreeMaze`. */
  lemma VisitedAll(w: nat, h: nat, r: nat -> bool, cells: seq<Cell>)
    requires |cells| == w * h && VisitedUpTo(cells, w, r, w * h)
    ensures Maze(h, w, cells) == BinaryTreeMaze(w, h, r)
  {
    if w == 0 {
      assert |cells| == 0;
    } else {
      forall j | 0 <= j < w * h
        ensures cells[j] == BinaryTreeMaze(w, h, r).cells[j]
      {
        GeneratedCellsAt(w, r, w * h, w * h, j);
      }
      assert cells == BinaryTreeMaze(w, h, r).cells;
    }
  }

  /**
   * The body of the generator's `forEach`: cell `i` carves its passage. `draws` coins
   * have been drawn so far; the result is the new count.
   */
  method VisitCell(cells: array<Cell>, width: nat, height: nat, r: nat -> bool, i: nat, draws: nat)
    returns (drawn: nat)
    requires cells.Length == width * height && i < cells.Length
    requires VisitedUpTo(cells[..], width, r, i)
    requires width > 0 && draws == InteriorBefore(width, i)
    modifies cells
    ensures drawn == InteriorBefore(width, i + 1)
    ensures VisitedUpTo(cells[..], width, r, i + 1)
  {
    ghost var before := cells[..];
    VisitFacts(width, height, r, i);
    VisitStep(width, r, before, i);
    var c := cells[i];
    assert c == before[i];
    ghost var carve := CarveAt(width, r, i);
    drawn := draws;
    if c.y == 0 && c.x == width - 1 {
      assert carve == None;
    } else if c.y == 0 {
      assert carve == Some(East);
      PickEast(cells, width, i);
    } else if c.x == width - 1 {
      assert carve == Some(North);
      PickNorth(cells, width, i);
    } else {
      var coin := r(drawn);
      drawn := drawn + 1;
      if coin {
        assert carve == Some(North);
        PickNorth(cells, width, i);
      } else {
        assert carve == Some(East);
        PickEast(cells, width, i);
      }
    }
    assert cells[..] == AfterVisit(before, width, i, carve);
  }

  /**
   * Builds a `width` by `height` binary-tree maze; `r(k)` is the k-th coin the generator
   * draws (one per interior cell, in row-major order).
   */
  method GenerateBinaryTreeMaze(width: nat, height: nat, r: nat -> bool) returns (maze: Maze)
    ensures maze == BinaryTreeMaze(width, height, r)
  {
    var init := InitialCells(width, height);
    InitialCellsLayout(width, height);
    var cells := new Cell[|init|](j requires 0 <= j < |init| => init[j]);
    forall j | 0 <= j < cells.Length
      ensures width > 0 && cells[j] == Cell(j % width, j / width, DoorsAfter(width, r, 0, j))
    {
      InitialCellAt(width, height, j);
    }
    var draws := 0;
    var i := 0;
    while i < cells.Length
      invariant 0 <= i <= cells.Length == width * height
      invariant cells.Length > 0 ==> width > 0
      invariant width > 0 ==> draws == InteriorBefore(width, i)
      invariant VisitedUpTo(cells[..], width, r, i)
    {
      draws := VisitCell(cells, width, height, r, i, draws);
      i := i + 1;
    }
    VisitedAll(width, height, r, cells[..]);
    maze := Maze(height, width, cells[..]);
  }

  // ---------------------------------------------------------------------------
  // What the generated maze looks like
  // ---------------------------------------------------------------------------

  /** The doors of cell (x, y) of the generated maze, by position. */
  function GeneratedDoors(w: nat, h: nat, r: nat -> bool, x: nat, y: nat): seq<Direction>
    requires x < w
  {
    (if x > 0 && CarveOf(w, r, x - 1, y) == Some(East) then [West] else [])
    + (if CarveOf(w, r, x, y).Some? then [CarveOf(w, r, x, y).value] else [])
    + (if y + 1 < h && CarveOf(w, r, x, y + 1) == Some(North) then [South] else [])
  }

  /**
   * Cell (x, y) of the generated maze sits at index `Idx(w, x, y)`, carries its own
   * coordinates, and has a West door exactly when its western neighbour carved East, its
   * own carve, and a South door exactly when its southern neighbour carved North.
   */
  lemma GeneratedCellAt(w: nat, h: nat, r: nat -> bool, x: nat, y: nat)
    requires x < w && y < h
    ensures 0 <= Idx(w, x, y) < |BinaryTreeMaze(w, h, r).cells| == w * h
    ensures BinaryTreeMaze(w, h, r).cells[Idx(w, x, y)] == Cell(x, y, GeneratedDoors(w, h, r, x, y))
    ensures DoorsAt(BinaryTreeMaze(w, h, r), Position(x, y)) == GeneratedDoors(w, h, r, x, y)
  {
    var i := Idx(w, x, y);
    var n := w * h;
    IdxInRange(w, h, x, y);
    GeneratedCellsAt(w, r, n, n, i);
    PosOfIdx(w, x, y);
    IdxNeighbours(w, x, y);
    assert CarveAt(w, r, i) == CarveOf(w, r, x, y);
    if x > 0 {
      PosOfIdx(w, x - 1, y);
      assert CarveAt(w, r, i - 1) == CarveOf(w, r, x - 1, y);
    } else if y > 0 {
      IdxNeighbours(w, w - 1, y - 1);
      PosOfIdx(w, w - 1, y - 1);
      assert i - 1 == Idx(w, w - 1, y - 1);
      assert CarveAt(w, r, i - 1) == CarveOf(w, r, w - 1, y - 1);
    }
    if y + 1 < h {
      PosOfIdx(w, x, y + 1);
      IdxInRange(w, h, x, y + 1);
      assert CarveAt(w, r, i + w) == CarveOf(w, r, x, y + 1);
    } else {
      MulMonotone(w, h, y + 1);
    }
  }

  /** The generated maze has `w*h` cells in row-major order, the cell at `Idx(w, x, y)` having coordinates (x, y). */
  lemma GeneratedLayout(w: nat, h: nat, r: nat -> bool)
    ensures BinaryTreeMaze(w, h, r).width == w && BinaryTreeMaze(w, h, r).height == h
    ensures |BinaryTreeMaze(w, h, r).cells| == w * h
    ensures forall x, y :: 0 <= x < w && 0 <= y < h ==>
      0 <= Idx(w, x, y) < w * h &&
      BinaryTreeMaze(w, h, r).cells[Idx(w, x, y)].x == x &&
      BinaryTreeMaze(w, h, r).cells[Idx(w, x, y)].y == y
  {
    forall x, y | 0 <= x < w && 0 <= y < h
      ensures 0 <= Idx(w, x, y) < w * h
      ensures BinaryTreeMaze(w, h, r).cells[Idx(w, x, y)].x == x
      ensures BinaryTreeMaze(w, h, r).cells[Idx(w, x, y)].y == y
    {
      GeneratedCellAt(w, h, r, x, y);
    }
  }

  /**
   * The carving rule, read off the maze: the top-right cell opens nothing to the north or
   * east, the rest of the top row opens East, the rest of the right column opens North, and
   * every other cell opens North when its coin is true and East otherwise.
   */
  lemma CarvingRule(w: nat, h: nat, r: nat -> bool, x: nat, y: nat)
    requires x < w && y < h
    ensures var doors := DoorsAt(BinaryTreeMaze(w, h, r), Position(x, y));
      && (y == 0 && x == w - 1 ==> North !in doors && East !in doors)
      && (y == 0 && x < w - 1 ==> East in doors && North !in doors)
      && (y > 0 && x == w - 1 ==> North in doors && East !in doors)
      && (y > 0 && x < w - 1 ==>
            (North in doors <==> r(DrawIndex(w, x, y))) &&
            (East in doors <==> !r(DrawIndex(w, x, y))))
  {
    GeneratedCellAt(w, h, r, x, y);
    var doors := GeneratedDoors(w, h, r, x, y);
    assert North in doors <==> CarveOf(w, r, x, y) == Some(North);
    assert East in doors <==> CarveOf(w, r, x, y) == Some(East);
  }

  /** Door symmetry for the door lists given by position. */
  lemma GeneratedDoorsContent(w: nat, h: nat, r: nat -> bool, x: nat, y: nat)
    requires x < w
    ensures North in GeneratedDoors(w, h, r, x, y) <==> CarveOf(w, r, x, y) == Some(North)
    ensures East in GeneratedDoors(w, h, r, x, y) <==> CarveOf(w, r, x, y) == Some(East)
    ensures West in GeneratedDoors(w, h, r, x, y) <==> x > 0 && CarveOf(w, r, x - 1, y) == Some(East)
    ensures South in GeneratedDoors(w, h, r, x, y) <==> y + 1 < h && CarveOf(w, r, x, y + 1) == Some(North)
  {
  }

  lemma GeneratedDoorsSymmetric(w: nat, h: nat, r: nat -> bool, x: nat, y: nat, d: Direction)
    requires x < w && y < h
    ensures var q := Step(Position(x, y), d);
      d in GeneratedDoors(w, h, r, x, y) <==>
        InGrid(w, h, q) && Opposite(d) in GeneratedDoors(w, h, r, q.x, q.y)
  {
    GeneratedDoorsContent(w, h, r, x, y);
    match d
    case North =>
      if y > 0 {
        GeneratedDoorsContent(w, h, r, x, y - 1);
      }
    case South =>
      if y + 1 < h {
        GeneratedDoorsContent(w, h, r, x, y + 1);
      }
    case East =>
      if x + 1 < w {
        GeneratedDoorsContent(w, h, r, x + 1, y);
      }
    case West =>
      if x > 0 {
        GeneratedDoorsContent(w, h, r, x - 1, y);
      }
  }


  /**
   * Doors come in pairs: cell (x, y) has a door on side `d` exactly when the neighbour on
   * that side lies in the grid and has the door facing back. In particular no door leads
   * off the grid.
   */
  lemma DoorSymmetric(w: nat, h: nat, r: nat -> bool, x: nat, y: nat, d: Direction)
    requires x < w && y < h
    ensures var m := BinaryTreeMaze(w, h, r);
      var q := Step(Position(x, y), d);
      d in DoorsAt(m, Position(x, y)) <==> InGrid(w, h, q) && Opposite(d) in DoorsAt(m, q)
  {
    var q := Step(Position(x, y), d);
    GeneratedCellAt(w, h, r, x, y);
    if InGrid(w, h, q) {
      GeneratedCellAt(w, h, r, q.x, q.y);
    }
    GeneratedDoorsSymmetric(w, h, r, x, y, d);
  }

  /** The generated maze is well formed: its every door leads to a cell of the grid. */
  lemma GeneratedWellFormed(w: nat, h: nat, r: nat -> bool)
    ensures WellFormed(BinaryTreeMaze(w, h, r))
  {
    var m := BinaryTreeMaze(w, h, r);
    GeneratedLayout(w, h, r);
    forall i, d | 0 <= i < |m.cells| && d in m.cells[i].doors
      ensures m.width > 0 && InGrid(m.width, m.height, Step(PosOf(m.width, i), d))
    {
      PosOfInGrid(w, h, i);
      IdxOfPos(w, i);
      var p := PosOf(w, i);
      DoorSymmetric(w, h, r, p.x, p.y, d);
    }
  }

  /** No cell of the generated maze lists the same side twice. */
  lemma DoorsDistinct(w: nat, h: nat, r: nat -> bool, x: nat, y: nat)
    requires x < w && y < h
    ensures var doors := DoorsAt(BinaryTreeMaze(w, h, r), Position(x, y));
      forall a, b :: 0 <= a < b < |doors| ==> doors[a] != doors[b]
  {
    GeneratedCellAt(w, h, r, x, y);
  }

  // ---------------------------------------------------------------------------
  // The passages form a spanning tree rooted at the top-right cell
  // ---------------------------------------------------------------------------

  /** The number of North and East doors in a door list: the passages the cell carved itself. */
  function OwnPassages(doors: seq<Direction>): nat
  {
    multiset(doors)[North] + multiset(doors)[East]
  }

  /** The number of passages in a list of cells, each counted once, at the cell that carved it. */
  function Passages(cells: seq<Cell>): nat
  {
    if cells == [] then 0 else Passages(cells[..|cells| - 1]) + OwnPassages(cells[|cells| - 1].doors)
  }

  /** Each cell carved exactly one passage, except the top-right cell, which carved none. */
  lemma CellPassages(w: nat, h: nat, r: nat -> bool, j: int)
    requires 0 <= j < w * h
    ensures j < |BinaryTreeMaze(w, h, r).cells|
    ensures OwnPassages(BinaryTreeMaze(w, h, r).cells[j].doors) == if j == w - 1 then 0 else 1
  {
    PosOfInGrid(w, h, j);
    IdxOfPos(w, j);
    var p := PosOf(w, j);
    GeneratedCellAt(w, h, r, p.x, p.y);
    PosOfIdx(w, w - 1, 0);
    var doors := GeneratedDoors(w, h, r, p.x, p.y);
    assert CarveOf(w, r, p.x, p.y) == None <==> j == w - 1;
    assert multiset(doors)[North] + multiset(doors)[East] == if CarveOf(w, r, p.x, p.y).Some? then 1 else 0;
  }

  lemma {:induction false} PassagesPrefix(w: nat, h: nat, r: nat -> bool, k: nat)
    requires w > 0 && k <= w * h
    ensures k <= |BinaryTreeMaze(w, h, r).cells|
    ensures Passages(BinaryTreeMaze(w, h, r).cells[..k]) == if k >= w then k - 1 else k
  {
    GeneratedLayout(w, h, r);
    if k > 0 {
      PassagesPrefix(w, h, r, k - 1);
      var cells := BinaryTreeMaze(w, h, r).cells;
      assert cells[..k][..k - 1] == cells[..k - 1];
      CellPassages(w, h, r, k - 1);
    }
  }

  /** A `w` by `h` maze (both at least 1) has exactly `w*h - 1` passages. */
  lemma PassageCount(w: nat, h: nat, r: nat -> bool)
    requires w > 0 && h > 0
    ensures Passages(BinaryTreeMaze(w, h, r).cells) == w * h - 1
  {
    PassagesPrefix(w, h, r, w * h);
    GeneratedLayout(w, h, r);
    MulMonotone(w, 1, h);
    assert BinaryTreeMaze(w, h, r).cells[..w * h] == BinaryTreeMaze(w, h, r).cells;
  }

  /** A door of a generated cell makes the cell behind it a neighbour in the door graph. */
  lemma GeneratedDoorLeads(w: nat, h: nat, r: nat -> bool, x: nat, y: nat, d: Direction)
    requires x < w && y < h && d in GeneratedDoors(w, h, r, x, y)
    ensures WellFormed(BinaryTreeMaze(w, h, r))
    ensures 0 <= Idx(w, x, y) < |BinaryTreeMaze(w, h, r).cells|
    ensures Idx(w, Step(Position(x, y), d).x, Step(Position(x, y), d).y) in Neighbors(BinaryTreeMaze(w, h, r), Idx(w, x, y))
  {
    var m := BinaryTreeMaze(w, h, r);
    GeneratedWellFormed(w, h, r);
    GeneratedCellAt(w, h, r, x, y);
    PosOfIdx(w, x, y);
    DoorLeadsTo(m, Idx(w, x, y), d);
  }

  /** The passage carved North from cell (x, y) joins it to the cell above, in both directions. */
  lemma CarvedNorth(w: nat, h: nat, r: nat -> bool, x: nat, y: nat)
    requires x < w && y < h && CarveOf(w, r, x, y) == Some(North)
    ensures WellFormed(BinaryTreeMaze(w, h, r))
    ensures 0 <= Idx(w, x, y) < |BinaryTreeMaze(w, h, r).cells|
    ensures y > 0 && 0 <= Idx(w, x, y) - w && Idx(w, x, y - 1) == Idx(w, x, y) - w
    ensures Idx(w, x, y) - w in Neighbors(BinaryTreeMaze(w, h, r), Idx(w, x, y))
    ensures Idx(w, x, y) in Neighbors(BinaryTreeMaze(w, h, r), Idx(w, x, y) - w)
  {
    var i := Idx(w, x, y);
    var above := Idx(w, x, y - 1);
    assert above == i - w by { IdxNeighbours(w, x, y); }
    assert North in GeneratedDoors(w, h, r, x, y);
    GeneratedDoorLeads(w, h, r, x, y, North);
    assert Step(Position(x, y), North) == Position(x, y - 1);
    assert South in GeneratedDoors(w, h, r, x, y - 1);
    GeneratedDoorLeads(w, h, r, x, y - 1, South);
    assert Step(Position(x, y - 1), South) == Position(x, y);
  }

  /** The passage carved East from cell (x, y) joins it to the cell on its right, in both directions. */
  lemma CarvedEast(w: nat, h: nat, r: nat -> bool, x: nat, y: nat)
    requires x < w && y < h && CarveOf(w, r, x, y) == Some(East)
    ensures WellFormed(BinaryTreeMaze(w, h, r))
    ensures 0 <= Idx(w, x, y) + 1 < |BinaryTreeMaze(w, h, r).cells|
    ensures x + 1 < w && Idx(w, x + 1, y) == Idx(w, x, y) + 1
    ensures Idx(w, x, y) + 1 in Neighbors(BinaryTreeMaze(w, h, r), Idx(w, x, y))
    ensures Idx(w, x, y) in Neighbors(BinaryTreeMaze(w, h, r), Idx(w, x, y) + 1)
  {
    var i := Idx(w, x, y);
    var right := Idx(w, x + 1, y);
    assert right == i + 1 by { IdxNeighbours(w, x, y); }
    assert East in GeneratedDoors(w, h, r, x, y);
    GeneratedDoorLeads(w, h, r, x, y, East);
    assert Step(Position(x, y), East) == Position(x + 1, y);
    assert West in GeneratedDoors(w, h, r, x + 1, y);
    GeneratedDoorLeads(w, h, r, x + 1, y, West);
    assert Step(Position(x + 1, y), West) == Position(x, y);
  }

  /**
   * Following the carved passages from cell (x, y) reaches the top-right cell (index w-1);
   * each step goes one cell North or one cell East, so the walk visits y + (w-1-x) + 1 cells.
   */
  lemma {:induction false} ExitWalk(w: nat, h: nat, r: nat -> bool, x: nat, y: nat) returns (p: seq<int>)
    requires x < w && y < h
    ensures WellFormed(BinaryTreeMaze(w, h, r))
    ensures IsWalk(BinaryTreeMaze(w, h, r), p)
    ensures p[0] == Idx(w, x, y) && p[|p| - 1] == w - 1
    ensures |p| == y + (w - 1 - x) + 1
    decreases y + (w - 1 - x)
  {
    var m := BinaryTreeMaze(w, h, r);
    GeneratedWellFormed(w, h, r);
    var i := Idx(w, x, y);
    var c := CarveOf(w, r, x, y);
    if c == None {
      assert x == w - 1 && y == 0;
      GeneratedCellAt(w, h, r, x, y);
      p := [i];
    } else {
      var rest;
      if c == Some(North) {
        CarvedNorth(w, h, r, x, y);
        rest := ExitWalk(w, h, r, x, y - 1);
      } else {
        CarvedEast(w, h, r, x, y);
        rest := ExitWalk(w, h, r, x + 1, y);
      }
      WalkPrepend(m, i, rest);
      p := [i] + rest;
    }
  }

  /** The passages also lead back from the top-right cell to every cell (x, y). */
  lemma {:induction false} EntryWalk(w: nat, h: nat, r: nat -> bool, x: nat, y: nat) returns (p: seq<int>)
    requires x < w && y < h
    ensures WellFormed(BinaryTreeMaze(w, h, r))
    ensures IsWalk(BinaryTreeMaze(w, h, r), p)
    ensures p[0] == w - 1 && p[|p| - 1] == Idx(w, x, y)
    ensures |p| == y + (w - 1 - x) + 1
    decreases y + (w - 1 - x)
  {
    var m := BinaryTreeMaze(w, h, r);
    GeneratedWellFormed(w, h, r);
    var i := Idx(w, x, y);
    var c := CarveOf(w, r, x, y);
    if c == None {
      assert x == w - 1 && y == 0;
      GeneratedCellAt(w, h, r, x, y);
      p := [i];
    } else {
      var rest;
      if c == Some(North) {
        CarvedNorth(w, h, r, x, y);
        rest := EntryWalk(w, h, r, x, y - 1);
      } else {
        CarvedEast(w, h, r, x, y);
        rest := EntryWalk(w, h, r, x + 1, y);
      }
      WalkExtend(m, rest, i);
      p := rest + [i];
    }
  }

  /**
   * Any two cells of the generated maze are joined by a walk through doors: up to the top-right
   * cell and back down, so the walk visits fewer than 2 * (w + h) cells.
   */
  lemma GeneratedConnected(w: nat, h: nat, r: nat -> bool, s: int, v: int) returns (p: seq<int>)
    requires 0 <= s < w * h && 0 <= v < w * h
    ensures WellFormed(BinaryTreeMaze(w, h, r))
    ensures IsWalkFrom(BinaryTreeMaze(w, h, r), s, p) && p[|p| - 1] == v
    ensures |p| <= 2 * (w + h) - 3
  {
    var m := BinaryTreeMaze(w, h, r);
    PosOfInGrid(w, h, s);
    IdxOfPos(w, s);
    PosOfInGrid(w, h, v);
    IdxOfPos(w, v);
    var a := ExitWalk(w, h, r, PosOf(w, s).x, PosOf(w, s).y);
    var b := EntryWalk(w, h, r, PosOf(w, v).x, PosOf(w, v).y);
    WalkConcat(m, a, b);
    p := a + b[1..];
  }

  /** The generated maze is connected: its passages form a spanning tree together with the passage count. */
  lemma GeneratedIsConnected(w: nat, h: nat, r: nat -> bool)
    ensures WellFormed(BinaryTreeMaze(w, h, r)) && Connected(BinaryTreeMaze(w, h, r))
  {
    var m := BinaryTreeMaze(w, h, r);
    GeneratedWellFormed(w, h, r);
    GeneratedLayout(w, h, r);
    forall s, v | 0 <= s < |m.cells| && 0 <= v < |m.cells|
      ensures Reaches(m, s, v)
    {
      var p := GeneratedConnected(w, h, r, s, v);
    }
  }

}
