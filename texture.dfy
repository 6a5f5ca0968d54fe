/**
 * The arithmetic of the maze view's two pictures: the size of a cell on the canvas, the cell under
 * the pointer, the distance shading and the wall strips drawn around each cell.
 */
module Texture {
  import opened Grid
  import opened DoorGraph
  import opened BinaryTree
  import opened Distances

  /** The brightest value of the shaded colour component. */
  const MaxIntensity: int := 255

  /** Size of the maze of the view, in cells, and of its canvas, in pixels. */
  const ViewCells: nat := 50
  const CanvasPixels: nat := 1000

  function Min(a: int, b: int): int
  {
    if a <= b then a else b
  }

  function Max(a: int, b: int): int
  {
    if a >= b then a else b
  }

  /** Pixel side of one cell: the canvas's smaller side over the maze's larger side, rounded down. */
  function CellSize(canvasWidth: nat, canvasHeight: nat, mazeWidth: nat, mazeHeight: nat): (size: nat)
    requires mazeWidth > 0 || mazeHeight > 0
    ensures size * Max(mazeWidth, mazeHeight) <= Min(canvasWidth, canvasHeight)
    ensures Min(canvasWidth, canvasHeight) < (size + 1) * Max(mazeWidth, mazeHeight)
  {
    Min(canvasWidth, canvasHeight) / Max(mazeWidth, mazeHeight)
  }

  /** With that cell size the whole maze fits on the canvas. */
  lemma MazeFitsCanvas(canvasWidth: nat, canvasHeight: nat, mazeWidth: nat, mazeHeight: nat)
    requires mazeWidth > 0 || mazeHeight > 0
    ensures mazeWidth * CellSize(canvasWidth, canvasHeight, mazeWidth, mazeHeight) <= canvasWidth
    ensures mazeHeight * CellSize(canvasWidth, canvasHeight, mazeWidth, mazeHeight) <= canvasHeight
  {
    var size := CellSize(canvasWidth, canvasHeight, mazeWidth, mazeHeight);
    MulMonotone(size, mazeWidth, Max(mazeWidth, mazeHeight));
    MulMonotone(size, mazeHeight, Max(mazeWidth, mazeHeight));
  }

  /** The cell under the pointer: its pixel offsets divided by the cell size, rounded down. */
  function PointerCell(px: nat, py: nat, size: nat): (c: Position)
    requires size > 0
    ensures 0 <= c.x && c.x * size <= px < (c.x + 1) * size
    ensures 0 <= c.y && c.y * size <= py < (c.y + 1) * size
  {
    Position(px / size, py / size)
  }

  /** A pixel lies beyond `bound` cells exactly when its cell coordinate is at least `bound`. */
  lemma PointerGuard(p: nat, size: nat, bound: nat, c: int)
    requires size > 0 && 0 <= c && c * size <= p < (c + 1) * size
    ensures c >= bound <==> p >= bound * size
  {
    if c >= bound {
      MulMonotone(size, bound, c);
    } else {
      MulMonotone(size, c + 1, bound);
    }
  }

  /**
   * The guard of the texture drawing: the cell under the pointer, or None when the pointer lies
   * to the right of or below the maze.
   */
  function TextureStart(px: nat, py: nat, size: nat, width: nat, height: nat): (start: Option<Position>)
    requires size > 0
    ensures start.Some? <==> px < width * size && py < height * size
    ensures start.Some? ==> start.value == PointerCell(px, py, size) && InGrid(width, height, start.value)
  {
    var c := PointerCell(px, py, size);
    PointerGuard(px, size, width, c.x);
    PointerGuard(py, size, height, c.y);
    if c.x >= width || c.y >= height then None else Some(c)
  }

  /** The largest distance, starting from 0 as the view does. */
  method MaxDistance(distances: seq<int>) returns (max: int)
    ensures max >= 0
    ensures forall v :: 0 <= v < |distances| ==> distances[v] <= max
    ensures max == 0 || max in distances
  {
    max := 0;
    for k := 0 to |distances|
      invariant max >= 0
      invariant forall v :: 0 <= v < k ==> distances[v] <= max
      invariant max == 0 || max in distances[..k]
    {
      max := Max(max, distances[k]);
    }
  }

  /** The shaded colour component of a cell at distance `d` when the farthest cell is at distance `max`. */
  /** Reached cells, at distances 0 .. max, get a shade between 0 and MaxIntensity, the start the brightest one. */
  function Intensity(max: int, d: int): (shade: int)
    requires max > 0
    ensures 0 <= d <= max ==> 0 <= shade <= MaxIntensity
    ensures d == 0 ==> shade == MaxIntensity
  {
    var step := MaxIntensity / max;
    assert 0 <= d <= max ==> 0 <= step * d <= MaxIntensity by {
      if 0 <= d <= max {
        assert step * max <= MaxIntensity;
        MulMonotone(step, d, max);
        MulMonotone(step, 0, d);
      }
    }
    MaxIntensity - step * d
  }

  /**
   * Farther cells are never brighter; when the farthest distance is at most MaxIntensity the
   * step is at least 1, so farther cells are strictly darker.
   */
  lemma IntensityMonotone(max: int, d1: int, d2: int)
    requires max > 0 && d1 <= d2
    ensures Intensity(max, d2) <= Intensity(max, d1)
    ensures max <= MaxIntensity && d1 < d2 ==> Intensity(max, d2) < Intensity(max, d1)
  {
    var step := MaxIntensity / max;
    MulMonotone(step, d1, d2);
    if max <= MaxIntensity && d1 < d2 {
      assert step >= 1;
      MulMonotone(step, d1 + 1, d2);
    }
  }

  /** The shade of every cell, by cell index. */
  function Shades(distances: seq<int>, max: int): (shades: seq<int>)
    requires max > 0
    ensures |shades| == |distances|
  {
    seq(|distances|, v requires 0 <= v < |distances| => Intensity(max, distances[v]))
  }

  /** What the texture drawing computes for one pointer position. */
  datatype Texture =
    | PointerOutside
      /** every distance is 0 or NotSeen: the view's shade step would divide by zero */
    | Flat(distances: seq<int>)
    | Shaded(distances: seq<int>, max: int, shades: seq<int>)

  /**
   * The texture drawing: from the cell under the pointer, the distance search gives each cell its
   * distance, and each cell is shaded by it (the painting itself is canvas output).
   */
  method DrawTexture(maze: Maze, canvasWidth: nat, canvasHeight: nat, px: nat, py: nat) returns (t: Texture)
    requires WellFormed(maze) && (maze.width > 0 || maze.height > 0)
    requires CellSize(canvasWidth, canvasHeight, maze.width, maze.height) > 0
    ensures t.PointerOutside? <==>
      px >= maze.width * CellSize(canvasWidth, canvasHeight, maze.width, maze.height) ||
      py >= maze.height * CellSize(canvasWidth, canvasHeight, maze.width, maze.height)
    ensures !t.PointerOutside? ==>
      var start := PointerCell(px, py, CellSize(canvasWidth, canvasHeight, maze.width, maze.height));
      ShortestDistances(maze, Idx(maze.width, start.x, start.y), t.distances)
    ensures t.Flat? ==> forall v :: 0 <= v < |t.distances| ==> t.distances[v] <= 0
    ensures t.Shaded? ==> && t.max > 0 && t.max in t.distances
                          && (forall v :: 0 <= v < |t.distances| ==> t.distances[v] <= t.max)
                          && t.shades == Shades(t.distances, t.max)
    ensures t.Shaded? ==> |t.shades| == |t.distances|
    ensures t.Shaded? ==> forall v :: 0 <= v < |t.shades| && t.distances[v] == 0 ==> t.shades[v] == MaxIntensity
    ensures t.Shaded? ==> forall v :: 0 <= v < |t.shades| && t.distances[v] != NotSeen ==>
      0 <= t.shades[v] <= MaxIntensity
    ensures t.Shaded? ==> forall u, v :: 0 <= u < |t.shades| && 0 <= v < |t.shades| && t.distances[u] <= t.distances[v] ==>
      t.shades[v] <= t.shades[u]
    ensures t.Shaded? && (forall v :: 0 <= v < |t.distances| ==> t.distances[v] <= MaxIntensity) ==>
      forall u, v :: 0 <= u < |t.shades| && 0 <= v < |t.shades| && t.distances[u] < t.distances[v] ==>
        t.shades[v] < t.shades[u]
  {
    var size := CellSize(canvasWidth, canvasHeight, maze.width, maze.height);
    var start := TextureStart(px, py, size, maze.width, maze.height);
    if start == None {
      return PointerOutside;
    }
    var distances := Bfs(maze, start.value);
    var max := MaxDistance(distances);
    if max == 0 {
      return Flat(distances);
    }
    var shades := Shades(distances, max);
    forall u, v | 0 <= u < |shades| && 0 <= v < |shades| && distances[u] <= distances[v]
      ensures shades[v] <= shades[u]
      ensures max <= MaxIntensity && distances[u] < distances[v] ==> shades[v] < shades[u]
    {
      IntensityMonotone(max, distances[u], distances[v]);
    }
    t := Shaded(distances, max, shades);
  }

  /**
   * In a generated maze every cell is reached from any start, through fewer than 2 * (w + h) - 3
   * doors, and with two or more cells some cell is at least one door away.
   */
  lemma GeneratedDistances(w: nat, h: nat, r: nat -> bool, s: int, dist: seq<int>)
    requires WellFormed(BinaryTreeMaze(w, h, r)) && ShortestDistances(BinaryTreeMaze(w, h, r), s, dist)
    ensures forall v :: 0 <= v < |dist| ==> 0 <= dist[v] <= 2 * (w + h) - 4
    ensures w * h >= 2 ==> exists v :: 0 <= v < |dist| && dist[v] > 0
  {
    var m := BinaryTreeMaze(w, h, r);
    GeneratedLayout(w, h, r);
    forall v | 0 <= v < |dist|
      ensures 0 <= dist[v] <= 2 * (w + h) - 4
    {
      var p := GeneratedConnected(w, h, r, s, v);
    }
    if w * h >= 2 {
      var v := if s == 0 then 1 else 0;
      var p :| IsWalkFrom(m, s, p) && p[|p| - 1] == v && |p| == dist[v] + 1;
      assert dist[v] > 0;
    }
  }

  /**
   * The maze view: a 50 by 50 generated maze on a 1000 by 1000 canvas. The texture is drawn
   * unless the pointer is off the maze, every cell gets a shade between 0 and MaxIntensity, and
   * a farther cell always gets a strictly darker shade.
   */
  method MazeView(r: nat -> bool, px: nat, py: nat) returns (t: Texture)
    ensures t.PointerOutside? <==> px >= CanvasPixels || py >= CanvasPixels
    ensures !t.Flat?
    ensures t.Shaded? ==> |t.shades| == |t.distances|
    ensures t.Shaded? ==> forall v :: 0 <= v < |t.shades| ==> 0 <= t.shades[v] <= MaxIntensity
    ensures t.Shaded? ==> forall u, v :: 0 <= u < |t.shades| && 0 <= v < |t.shades| && t.distances[u] < t.distances[v] ==>
      t.shades[v] < t.shades[u]
  {
    var maze := GenerateBinaryTreeMaze(ViewCells, ViewCells, r);
    GeneratedWellFormed(ViewCells, ViewCells, r);
    GeneratedLayout(ViewCells, ViewCells, r);
    assert CellSize(CanvasPixels, CanvasPixels, ViewCells, ViewCells) == 20;
    t := DrawTexture(maze, CanvasPixels, CanvasPixels, px, py);
    if !t.PointerOutside? {
      var start := PointerCell(px, py, 20);
      GeneratedDistances(ViewCells, ViewCells, r, Idx(ViewCells, start.x, start.y), t.distances);
    }
  }

  /** A one-pixel strip of a cell's square: the x and y of its top-left pixel, then its width and height. */
  datatype Rect = Rect(left: int, top: int, width: int, height: int)

  /** The wall strip drawn along side `d` of the cell at (x, y). */
  function WallRect(x: nat, y: nat, size: nat, d: Direction): (rect: Rect)
    requires size > 0
    ensures rect.width >= 1 && rect.height >= 1 && (rect.width == 1 || rect.height == 1)
    ensures x * size <= rect.left && rect.left + rect.width <= (x + 1) * size
    ensures y * size <= rect.top && rect.top + rect.height <= (y + 1) * size
  {
    match d
    case North => Rect(x * size, y * size, size, 1)
    case South => Rect(x * size, (y + 1) * size - 1, size, 1)
    case West => Rect(x * size, y * size, 1, size)
    case East => Rect((x + 1) * size - 1, y * size, 1, size)
  }

  /** The sides of a cell that get a wall strip, in drawing order: each side without a door. */
  function WallSides(doors: seq<Direction>): (sides: seq<Direction>)
    ensures North in sides <==> North !in doors
    ensures South in sides <==> South !in doors
    ensures West in sides <==> West !in doors
    ensures East in sides <==> East !in doors
    ensures forall a, b :: 0 <= a < b < |sides| ==> sides[a] != sides[b]
  {
    (if North !in doors then [North] else [])
    + (if South !in doors then [South] else [])
    + (if West !in doors then [West] else [])
    + (if East !in doors then [East] else [])
  }

  /**
   * In a generated maze the two cells on either side of a wall agree about it, and every side on
   * the border of the grid has a wall.
   */
  lemma WallsAgree(w: nat, h: nat, r: nat -> bool, x: nat, y: nat, d: Direction)
    requires x < w && y < h
    ensures var m := BinaryTreeMaze(w, h, r);
      var q := Step(Position(x, y), d);
      d in WallSides(DoorsAt(m, Position(x, y))) <==> !InGrid(w, h, q) || Opposite(d) in WallSides(DoorsAt(m, q))
  {
    var m := BinaryTreeMaze(w, h, r);
    var q := Step(Position(x, y), d);
    DoorSymmetric(w, h, r, x, y, d);
    match d
    case North =>
    case South =>
    case West =>
    case East =>
  }

  /** When the maze has two or more cells, no cell of a generated maze is walled in on all four sides. */
  lemma NoWalledInCell(w: nat, h: nat, r: nat -> bool, x: nat, y: nat)
    requires x < w && y < h && w * h >= 2
    ensures |WallSides(DoorsAt(BinaryTreeMaze(w, h, r), Position(x, y)))| < 4
  {
    var doors := DoorsAt(BinaryTreeMaze(w, h, r), Position(x, y));
    GeneratedCellAt(w, h, r, x, y);
    GeneratedDoorsContent(w, h, r, x, y);
    if x == w - 1 && y == 0 {
      if w >= 2 {
        assert West in doors;
      } else {
        assert South in doors;
      }
    } else {
      assert CarveOf(w, r, x, y).value in doors;
    }
  }
}
