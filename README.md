# Binary-tree maze with distance shading — a Dafny model

This project models the core of the maze page of the `datastructures` site
(`src/features/maze/BinaryMaze.tsx`):

- the row-major cell index `idx`;
- the binary-tree maze generator. Every cell except the top-right one carves a passage
  north or east. The neighbour behind it gets the matching door. A coin decides between
  the two for the cells off the top row and off the right column;
- the breadth-first distance search `bfs` over the doors;
- the arithmetic of the two pictures drawn on the canvas: the cell size, the cell under
  the pointer and the guard that skips the texture off the maze, the largest distance
  and the shade of every cell, and the one-pixel wall strips along every side without a door.

Modules, one per file, follow the structure of the program:

- `Grid` (`grid.dfy`): the data model (`Direction`, `Position`, `Cell`, `Maze`) and `Idx`.
- `DoorGraph` (`door_graph.dfy`): the maze as a graph whose vertices are cell indices
  and whose edges are doors. It holds the `switch` that turns a door into a neighbour
  position, walks, reachability and connectivity.
- `BinaryTree` (`generator.dfy`): the generator, an imperative method over an `array<Cell>`
  (the source mutates the cells' door lists in place). It is proved equal to the function
  `BinaryTreeMaze`, and the maze's properties are proved about that function. These are:
  - the layout;
  - the carving rule;
  - symmetric doors, with no duplicates;
  - exactly `w*h - 1` passages;
  - connectivity.
- `Distances` (`bfs.dfy`): the search as a method with the source's queue and its
  distance table. It is proved to return the table of shortest door distances from the
  start, with `NotSeen` (-1) exactly for the cells no walk reaches.
- `Texture` (`texture.dfy`): the drawing arithmetic. It also holds the maze view as the
  component sets it up: a 50 by 50 maze on a 1000 by 1000 canvas.

The random number generator is a parameter. `r: nat -> bool` is the outcome of the
generator's k-th draw of `r() < 0.5`; true picks North.

## Model

| member | source | states |
|---|---|---|
| Grid.Idx | src/features/maze/BinaryMaze.tsx:31-33 | the row-major index w*y + x of cell (x, y); its meaning is proved by the lemmas below |
| Grid.IdxInRange | src/features/maze/BinaryMaze.tsx:31-33 | every cell (x, y) of a w by h grid has a row-major index in [0, w*h) |
| Grid.PosOfIdx | src/features/maze/BinaryMaze.tsx:31-33 | the index of (x, y) decodes back to (x, y) by remainder and quotient |
| Grid.IdxOfPos | src/features/maze/BinaryMaze.tsx:31-33 | decoding an index and encoding the coordinates again gives the index back |
| Grid.IdxInjective | src/features/maze/BinaryMaze.tsx:31-33 | distinct cells of a grid have distinct indices |
| Grid.PosOfInGrid | src/features/maze/BinaryMaze.tsx:31-33 | an index below w*h decodes to a cell inside the grid |
| DoorGraph.Step | src/features/maze/BinaryMaze.tsx:139-147 | the position behind a door is one of the four orthogonal neighbours |
| DoorGraph.Opposite | src/features/maze/BinaryMaze.tsx:48-58 | the door pushed on the neighbour faces back: stepping through d and then its opposite returns to the cell |
| DoorGraph.Neighbors | src/features/maze/BinaryMaze.tsx:148-149 | in a well-formed maze the neighbour indices are one per door and all index a cell |
| DoorGraph.DoorLeadsTo | src/features/maze/BinaryMaze.tsx:139-149 | every door of a cell makes the cell behind it one of its neighbours |
| DoorGraph.NeighborAt | src/features/maze/BinaryMaze.tsx:148-149 | the k-th neighbour index is the index of the cell behind the k-th door, which lies in the grid |
| BinaryTree.InitialCells | src/features/maze/BinaryMaze.tsx:36-46 | the fresh grid, built row after row as the flatMap does; its layout is proved by InitialCellsLayout |
| BinaryTree.InitialCellsLayout | src/features/maze/BinaryMaze.tsx:36-46 | the fresh grid has w*h cells, the cell at Idx(w, x, y) being (x, y) with no doors |
| BinaryTree.InitialCellAt | src/features/maze/BinaryMaze.tsx:36-46 | cell j of the fresh grid sits at (j mod w, j div w) and has no doors |
| BinaryTree.CarveOf | src/features/maze/BinaryMaze.tsx:61-74 | the branch chain of the forEach: the passage cell (x, y) carves, if any; CarvingRule states it about the generated maze |
| BinaryTree.InteriorBeforeClosedForm | src/features/maze/BinaryMaze.tsx:60-75 | the generator has drawn (y-1)*(w-1)+x coins when it reaches interior cell (x, y) and none on the top row |
| BinaryTree.DrawsOnePerInteriorCell | src/features/maze/BinaryMaze.tsx:60-75 | interior cells draw distinct coins, numbered below (w-1)*(h-1) |
| BinaryTree.PickNorth | src/features/maze/BinaryMaze.tsx:48-52 | cell i gains a North door and the cell above it a South door; no other cell changes |
| BinaryTree.PickEast | src/features/maze/BinaryMaze.tsx:54-58 | cell i gains an East door and the cell to its right a West door; no other cell changes |
| BinaryTree.VisitStep | src/features/maze/BinaryMaze.tsx:60-75 | the carve of cell i turns the door lists after visiting cells before i into those after visiting cell i |
| BinaryTree.VisitCell | src/features/maze/BinaryMaze.tsx:61-74 | one turn of the forEach keeps the cells equal to the door lists after visiting cells 0..i, and draws one coin exactly at an interior cell |
| BinaryTree.GenerateBinaryTreeMaze | src/features/maze/BinaryMaze.tsx:35-78 | the generator returns exactly the maze BinaryTreeMaze(width, height, r) |
| BinaryTree.VisitedAll | src/features/maze/BinaryMaze.tsx:60-77 | after visiting every cell the cells are those of BinaryTreeMaze |
| BinaryTree.GeneratedCellAt | src/features/maze/BinaryMaze.tsx:35-78 | cell (x, y) of the result sits at Idx(w, x, y) with its own coordinates and doors West (left neighbour carved East), its own carve, South (cell below carved North), in that order |
| BinaryTree.GeneratedLayout | src/features/maze/BinaryMaze.tsx:36-46 | the result has the given width and height and w*h cells in row-major order |
| BinaryTree.CarvingRule | src/features/maze/BinaryMaze.tsx:60-75 | the top-right cell opens neither North nor East, the top row opens East, the right column North, and every other cell North exactly when its coin is true and East exactly when it is false |
| BinaryTree.GeneratedDoorsContent | src/features/maze/BinaryMaze.tsx:48-75 | each of the four doors of a cell is present exactly when the cell itself or the neighbour on that side carved toward it |
| BinaryTree.DoorSymmetric | src/features/maze/BinaryMaze.tsx:48-58 | cell (x, y) has a door on side d exactly when the neighbour on that side exists and has the opposite door; no door leads off the grid |
| BinaryTree.GeneratedWellFormed | src/features/maze/BinaryMaze.tsx:48-58 | the generated maze has w*h cells and every door leads to a cell of the grid |
| BinaryTree.DoorsDistinct | src/features/maze/BinaryMaze.tsx:48-75 | no cell lists the same side twice |
| BinaryTree.CellPassages | src/features/maze/BinaryMaze.tsx:60-75 | every cell carves exactly one passage except the top-right cell, which carves none |
| BinaryTree.PassagesPrefix | src/features/maze/BinaryMaze.tsx:60-75 | the first k cells carve k passages before the top-right cell and k-1 from it on |
| BinaryTree.PassageCount | src/features/maze/BinaryMaze.tsx:60-75 | a w by h maze with w, h at least 1 has exactly w*h - 1 passages |
| BinaryTree.GeneratedDoorLeads | src/features/maze/BinaryMaze.tsx:48-58 | a door of a generated cell makes the cell behind it a neighbour in the door graph |
| BinaryTree.CarvedNorth | src/features/maze/BinaryMaze.tsx:48-52 | a North carve joins the cell and the cell above it, w places earlier, in both directions |
| BinaryTree.CarvedEast | src/features/maze/BinaryMaze.tsx:54-58 | an East carve joins the cell and the cell to its right, one place later, in both directions |
| BinaryTree.ExitWalk | src/features/maze/BinaryMaze.tsx:60-75 | following the carved passages leads from every cell to the top-right cell in y + (w-1-x) doors |
| BinaryTree.EntryWalk | src/features/maze/BinaryMaze.tsx:60-75 | the same passages walked backwards lead from the top-right cell to every cell |
| BinaryTree.GeneratedConnected | src/features/maze/BinaryMaze.tsx:35-78 | a walk through doors joins any two cells, of at most 2*(w+h)-3 cells |
| BinaryTree.GeneratedIsConnected | src/features/maze/BinaryMaze.tsx:35-78 | the generated maze is connected; with its w*h - 1 passages it is a spanning tree |
| Distances.NotSeenIffUnreachable | src/features/maze/BinaryMaze.tsx:130-131 | in a table of shortest distances a cell is NotSeen exactly when no walk from the start reaches it |
| Distances.ShortestUnique | src/features/maze/BinaryMaze.tsx:129-159 | two tables of shortest distances from the same start are equal |
| Distances.DoorAddsAtMostOne | src/features/maze/BinaryMaze.tsx:148-153 | a door from a reached cell leads to a reached cell at most one farther from the start |
| Distances.ClosedStable | src/features/maze/BinaryMaze.tsx:150-151 | recording a distance only for unreached cells keeps every closed cell closed |
| Distances.WalkBound | src/features/maze/BinaryMaze.tsx:135-155 | once every reached cell is closed, no walk from the start is shorter than the distance of its last cell |
| Distances.ParentWalk | src/features/maze/BinaryMaze.tsx:150-152 | following the cells through which each cell was reached gives a walk from the start with dist[v] doors |
| Distances.FollowDoor | src/features/maze/BinaryMaze.tsx:149-153 | a neighbour not reached yet gets dist[i] + 1 and is appended to the queue, and nothing else changes; a reached neighbour leaves table and queue unchanged; the search bookkeeping is kept |
| Distances.ExpandCell | src/features/maze/BinaryMaze.tsx:136-154 | the new table and queue are those of following the cell's doors in order, afterwards every neighbour of the cell is reached, and the queue stays ordered by distance |
| Distances.Bfs | src/features/maze/BinaryMaze.tsx:129-159 | the start is at distance 0, every reached cell's distance is the length of a shortest walk through doors, and a cell is NotSeen only when no walk reaches it |
| Texture.CellSize | src/features/maze/BinaryMaze.tsx:164-167 | the cell size is the largest size at which the maze's larger side fits in the canvas's smaller side |
| Texture.MazeFitsCanvas | src/features/maze/BinaryMaze.tsx:81-91 | with that size the maze's width and height fit on the canvas |
| Texture.PointerCell | src/features/maze/BinaryMaze.tsx:170 | the pointer's pixel lies inside the square of the cell it selects |
| Texture.PointerGuard | src/features/maze/BinaryMaze.tsx:170-172 | the cell coordinate is at least the bound exactly when the pixel is at least bound * cellSize |
| Texture.TextureStart | src/features/maze/BinaryMaze.tsx:170-172 | a start cell is given exactly when the pointer lies over the maze, and then it is the cell under the pointer and inside the grid |
| Texture.MaxDistance | src/features/maze/BinaryMaze.tsx:175-176 | the result is at least 0 and every distance, and it is 0 or one of the distances |
| Texture.Intensity | src/features/maze/BinaryMaze.tsx:178-182 | the shade 255 - floor(255/max)*d; for 0 <= d <= max it lies in [0, 255], and the start (d = 0) gets 255 |
| Texture.IntensityMonotone | src/features/maze/BinaryMaze.tsx:178-182 | a farther cell is never brighter, and it is strictly darker when the largest distance is at most 255 |
| Texture.DrawTexture | src/features/maze/BinaryMaze.tsx:163-186 | the texture is skipped exactly when the pointer is off the maze; otherwise the distances are the shortest ones from the cell under the pointer, max is the largest of them (and 0), and when max > 0 each shade is Intensity(max, distance): in [0, 255] for reached cells, 255 at the start, darker farther away |
| Texture.GeneratedDistances | src/features/maze/BinaryMaze.tsx:174-178 | in a generated maze every cell is reached within 2*(w+h)-4 doors, and with two or more cells some distance is positive, so the shade step never divides by zero |
| Texture.MazeView | src/features/maze/BinaryMaze.tsx:212-254 | on the 50 by 50 maze and 1000 by 1000 canvas, the texture is drawn exactly when the pointer is on the canvas, every shade lies in [0, 255], and a farther cell is strictly darker |
| Texture.WallRect | src/features/maze/BinaryMaze.tsx:192-203 | each wall strip is one pixel thick and lies inside its cell's square |
| Texture.WallSides | src/features/maze/BinaryMaze.tsx:192-203 | a side gets a wall strip exactly when the cell has no door on it, each side at most once |
| Texture.WallsAgree | src/features/maze/BinaryMaze.tsx:93-110 | in a generated maze the cells on either side of a wall both draw it, and every border side is walled |
| Texture.NoWalledInCell | src/features/maze/BinaryMaze.tsx:93-110 | with two or more cells no cell of a generated maze is walled in on all four sides |

## Left out

- The React component, the second-pass wrapper (`asSecondPassComponent`), the mouse event listeners and every canvas call are not modelled. `Texture.MazeView` covers only what the component computes from the pointer position.
- The pseudo-random generator (`sfc32` seeded by `cyrb128('2022')`) and the floating-point comparison `r() < 0.5` are replaced by the coin stream `r: nat -> bool`. The proved properties hold for every coin stream.
- The `ceil` import is unused by the source and is not modelled.
- src/features/animation/withAnimatedProps.tsx and src/common/types are not part of this model.
- Texture.DrawTexture: when every distance is 0 or NotSeen, the source's step `floor(255 / 0)` is an infinity and the shades are not numbers. The model returns `Flat` with the distances and no shades. `Texture.GeneratedDistances` shows this never happens in a generated maze of two or more cells.
- Texture.DrawTexture: the shades of NotSeen cells (255 plus the step, above 255) get no range claim. In a generated maze there are none.
- Texture.DrawTexture: requires a cell size of at least 1. With a canvas smaller than the maze the cell size is 0, and the source's pointer division gives an infinity or not-a-number; that case is not modelled.
- Texture.PointerCell: the pointer offsets are natural numbers. Negative or fractional offsets are not modelled.
- Distances.Bfs: requires a well-formed maze, one whose doors all lead to cells of the grid. Other mazes are not modelled. In the source, a door off the top or bottom edge reads outside the table, gets `undefined` (which is not -1) and is skipped. A West door in column 0 or an East door in the last column wraps to a cell of the row above or below, inside the table except at the first and last cell, and the search goes on from a position outside the grid.
- The `default: throw` branch of the direction switch cannot be taken, because `Direction` has exactly four values.
- In the generator, the source's cell object `c` and `maze.cells[i]` are the same object. The model updates the array slot by index instead.
- The distance table and the queue of the search are sequence values that the method reassigns, not a mutated JavaScript array.
- The order in which the drawing loops paint cells and walls is not modelled: the model computes what is painted, not when.
- That the passages contain no cycle is not proved separately. It follows from the maze being connected with exactly w*h - 1 passages.
