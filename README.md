# Randomised depth-first maze carving, in Dafny

This project models the maze engine of a small Java maze generator. A
`Maze` is a `rows x cols` grid of `Cell` objects. A new cell has all four
walls standing (top, bottom, left, right) and is not visited.
`generate` runs a recursive depth-first search from the corner (0, 0).
On entering a cell, the search:

- marks it in a local `boolean[][]` table and sets its `visited` flag;
- notifies the panel and pauses;
- shuffles the four directions;
- for each in-bounds neighbour not yet marked, takes down the wall between
  the two cells on both sides (`removeWall`) and recurses into it.

`reset` makes every cell walled and unvisited again, in place.

Modules:

- `Cells` (`cell.dfy`): the `Cell` class, with `const` coordinates and
  mutable wall and visited fields. `CellState` holds the five flags as a value.
- `Geometry` (`geometry.dfy`): coordinates, the four directions, walls
  between neighbouring cells (`Edge`), and the shuffle of the direction list.
  It also proves that the grid graph is connected and has `rows * cols` cells.
- `CarveTree` (`carvetree.dfy`): the call tree of the recursive search, and
  the proof that the walls it takes down form a spanning tree of the cells
  it enters.
- `Boards` (`board.dfy`): the whole grid's flags as a value (`Board`) and
  `Carve`, which describes what a run does to those flags. It also holds
  the two-sided-wall and walled-boundary invariants.
- `MazeGrid` (`maze.dfy`): the `Maze` class and its methods, with the
  recursion `Dfs`. `Dfs` is proved against the call tree: the grid after a
  call is the grid before it, with the tree's cells entered and the tree's
  walls taken down.

## Model

| member | source | states |
|---|---|---|
| Cells.Cell.constructor | Cell.java:2-9 | a new cell has the given row and column, all four walls standing and is not visited |
| Cells.Cell.SetVisited | Cell.java:11-13 | the visited flag becomes the argument and the four walls are unchanged (row and column are constants) |
| Cells.Cell.IsVisited | Cell.java:15-17 | returns the visited flag, so after `SetVisited(v)` it returns v |
| MazeGrid.Maze.constructor | src/Maze.java:7-14 | the grid holds exactly one fresh cell per (r, c) with 0 <= r < rows and 0 <= c < cols, and that cell has coordinate (r, c); every cell is walled and unvisited |
| MazeGrid.Maze.GetRows | src/Maze.java:16 | the row count the maze was built with, which is the number of rows of the grid |
| MazeGrid.Maze.GetCols | src/Maze.java:17 | the column count the maze was built with, also on a grid without rows, and the length of every row of the grid |
| MazeGrid.Maze.GetCell | src/Maze.java:18 | the cell at (r, c) belongs to the grid and has row r and column c |
| MazeGrid.Maze.IsInBounds | src/Maze.java:70-72 | true exactly when (r, c) is a coordinate of the grid |
| MazeGrid.Maze.RemoveWall | src/Maze.java:61-68 | each wall flag of the two cells after the call, in terms of the coordinate difference; visited flags unchanged |
| Boards.KnockedCarve | src/Maze.java:61-68 | for adjacent cells, what removeWall does to each of the two is taking down exactly the one wall between them |
| MazeGrid.Maze.CarveWall | src/Maze.java:43 | removeWall on two neighbouring grid cells takes down exactly the wall between them, on both sides, and changes no other flag of any cell |
| Boards.CarveTwoSided | src/Maze.java:61-68 | taking walls down in pairs keeps every wall two-sided: a cell's right (bottom) flag equals the left (top) flag of its neighbour |
| Boards.CarveSealed | src/Maze.java:42-43 | taking down walls between in-bounds cells only leaves the outer boundary walled |
| Boards.ClearedWalls | Cell.java:3-4 | a grid of new cells is two-sided and sealed, has no passage and no visited cell |
| MazeGrid.Maze.Enter | src/Maze.java:26-28 | marks (r, c) in the table and sets the visited flag of exactly that cell |
| Geometry.Shuffled | src/Maze.java:32-38 | the shuffled direction list holds each of the four directions exactly once |
| Geometry.ShuffleSurrounds | src/Maze.java:38-42 | if every in-bounds neighbour in the directions of a shuffled list is marked, every in-bounds neighbour is marked |
| MazeGrid.Maze.Explore | src/Maze.java:40-46 | one loop turn recurses exactly when the neighbour is in bounds and unmarked; afterwards every in-bounds neighbour in the directions tried so far is marked, and the carving so far is extended by the child's call tree |
| MazeGrid.Maze.Descend | src/Maze.java:43-44 | taking down the wall to an unmarked neighbour and recursing into it appends the recursion's call tree to the caller's, marks the neighbour and keeps every earlier mark |
| MazeGrid.Maze.Dfs | src/Maze.java:25-47 | the call enters only unmarked in-bounds cells, each once, and marks exactly those; it takes down exactly the walls of its call tree; it makes one notification per cell entered; a completed call leaves every neighbour of its cells marked; an interrupted one stopped at the cancelled pause |
| MazeGrid.Extend | src/Maze.java:43-44 | appending a recursion's call tree, made after the wall to the child came down, extends what the parent carved |
| MazeGrid.Finished | src/Maze.java:40-46 | once all four directions are tried, every neighbour of every cell the call entered is marked |
| MazeGrid.Maze.NewTable | src/Maze.java:21 | the traversal table is rows x cols and all false |
| MazeGrid.Maze.Generate | src/Maze.java:20-23 | on an empty grid the run fails and changes nothing; otherwise its call tree is rooted at (0, 0), with one cell per notification; the grid is the old one carved by that tree; a completed run entered all rows * cols cells; an interrupted one entered exactly `stopAt` cells |
| MazeGrid.CoversGrid | src/Maze.java:20-22 | a call tree from (0, 0) whose cells hold all their in-bounds neighbours covers the whole grid: every cell is reachable from the corner |
| Geometry.ClosedCoversGrid | src/Maze.java:41-42 | the grid graph is connected: a closed set of cells that holds (0, 0) holds every cell |
| Geometry.PositionsCount | src/Maze.java:10-13 | a rows x cols grid has rows * cols cells |
| CarveTree.NodeCount | src/Maze.java:26-28 | no cell is entered twice: a call tree enters as many distinct cells as it makes calls |
| CarveTree.EdgeCount | src/Maze.java:42-44 | a call tree takes down one wall fewer than the cells it enters |
| CarveTree.TreeSpans | src/Maze.java:42-44 | the walls taken down form a spanning tree of the entered cells: one fewer than the cells, each between two entered cells, every cell reachable from the root |
| Boards.CarveCleared | src/Maze.java:26-28 | carving a new grid: the passages are exactly the walls taken down and the visited cells exactly the cells entered |
| MazeGrid.FreshRun | src/Maze.java:25-47 | on a new or reset grid, a run with k calls leaves k visited cells and k - 1 passages, spanning the visited cells; walls stay two-sided and the boundary walled. This also covers an interrupted run |
| MazeGrid.PerfectMaze | src/Maze.java:20-23 | a completed run on a new grid visits every cell and leaves rows * cols - 1 passages, a spanning tree of the grid rooted at (0, 0): none for 1 x 1, three for 2 x 2 |
| MazeGrid.RunSize | src/Maze.java:20-28 | a run makes at least one call and at most one per grid cell |
| MazeGrid.NewMaze | src/Maze.java:7-23 | a new maze generated without cancellation is, on the object itself, a perfect maze: every cell visited, rows * cols - 1 passages forming a spanning tree of the grid rooted at (0, 0); a grid without cells fails; the maze and its cells are new, so the caller may reset and regenerate it |
| MazeGrid.Regenerate | src/Maze.java:20-59 | reset then generate, whatever the maze held: exactly `count` visited cells and count - 1 passages joining them to the corner, walls two-sided and boundary walled; a cancellation at one of the rows * cols pauses stops the run there with `stopAt` cells, any other `stopAt` completes over the whole grid |
| MazeGrid.Maze.Reset | src/Maze.java:49-59 | afterwards every cell has all walls standing and is unvisited, whatever the state before, so a second reset changes nothing; the grid and its dimensions are constants |

## Left out

- The Swing user interface, the drawing panel and the program entry point
  are not part of this model. Neither are the worker thread and the
  cross-thread visibility of the cell fields.
- `panel.repaint()` is modelled only as a count: `Dfs` and `Generate`
  return `count`, the number of notifications, one per cell entered.
- `Thread.sleep(30)` is modelled only as a cancellation point. The caller
  passes `stopAt`: the pause after the `stopAt`-th cell entered throws
  `InterruptedException` (`Interrupted`); 0 means the run is never
  cancelled. The delay itself is not modelled.
- `Collections.shuffle` randomness: the random source is the parameter
  `pick`, which maps each cell to the three draws for the shuffle made
  there. A cell is entered at most once per run, so this covers every
  sequence of draws. The shuffle itself (the swap of entry i - 1 with draw
  i, for i = 4, 3, 2) is modelled. Its distribution is not.
- Java's `Cell[][] grid` is modelled as a constant `seq<seq<Cell>>`. The
  source never replaces the array or its rows, so aliasing of rows is not
  modelled. The local `boolean[][] visited` table is an `array2<bool>`.
- Java `int` is 32 bits and the model's integers are unbounded. The code
  only computes coordinates in [-1, rows] x [-1, cols] and coordinate
  differences of -1, 0 or 1, so no wrap-around can occur and none is
  modelled.
- The recursion depth of `dfs` is up to rows * cols calls, so the Java
  program can run out of stack on large grids. The model does not capture
  the `StackOverflowError`.
- MazeGrid.Maze.constructor: requires rows >= 0 and cols >= 0. For
  negative dimensions the Java constructor throws
  `NegativeArraySizeException`; that error path is not modelled.
- MazeGrid.Maze.GetCell: requires in-bounds coordinates. The
  `ArrayIndexOutOfBoundsException` the Java code throws otherwise is not
  modelled.
- MazeGrid.Maze.Generate: on a grid with no rows or no columns, the Java
  code throws `ArrayIndexOutOfBoundsException` from the first step of
  `dfs(0, 0)`. The model reports this as the outcome `Failed` and does not
  model the exception type.
- MazeGrid.Maze.Dfs: `dfs` is split into `Enter` (lines 26-28), the
  direction loop, `Explore` (one loop turn, lines 41-45), `Descend` (the
  body of its `if`, lines 43-44) and `CarveWall` (removeWall on grid
  cells). Each is proved separately.
