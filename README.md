# Maze generation and A* path finding, in Dafny

This project models the two algorithmic cores of a small maze game.

- **snake.py** carves a 50 x 50 maze with a randomised depth-first search and places coloured dots on open cells.
  - The script's module-level state is the state of one `Snake.Game` object: the grid `maze`, the list `DIRECTIONS` that every `dfs` call shuffles in place, the list `dots` and the random generator.
  - The grid is an `array2<int>` indexed `maze[y, x]`. The value 0 is a wall and 1 is a path.
  - `dfs` and the body of its loop (`Game.Dfs`, `Game.TryStep`) are mutually recursive methods. Their termination measure is the set of grid cells not yet carved.
- **astar.py** finds a path through a grid with the A* algorithm (class `MazeSolver`).
  - `Astar.MazeSolver.AStar` keeps the source's loop.
    - The heap `open_set` is a multiset of (priority, cell) entries.
    - `g_score`, `f_score` and `came_from` are maps.
  - Its grid is indexed `maze[x][y]`, with x a row.

The randomness in snake.py comes from an oracle `rng: nat -> nat` together with a count of draws made so far.
- `random.randrange(n)` is the next draw modulo n.
- `random.randint(a, b)` is `a` plus `randrange(b - a + 1)`.
- `random.shuffle` is Fisher-Yates over i = 3, 2, 1, with one draw for each i.

Every contract below holds for every oracle.

## Model

| member | source | states |
|---|---|---|
| Snake.InBoundsIsGridCell | snake.py:29-33 | The predicate `Snake.IsInBounds` is `is_in_bounds` as written; this lemma shows that `is_in_bounds(x, y)` holds exactly for the cells of the 50 x 50 grid. |
| Snake.Game.constructor | snake.py:23-26 | The script's initial state: every cell of the 50 x 50 maze is a wall, DIRECTIONS is the list as written, `dots` (line 59) is empty, and no random draw has been made. |
| Snake.Game.RandBelow | snake.py:79 | One draw from the random source, reduced below n: the value is in 0..n-1 and exactly one draw is used. |
| Snake.Game.RandInt | snake.py:79 | `random.randint(a, b)` gives a value in a..b determined by the next draw, and uses exactly one draw. |
| Snake.Game.Shuffle | snake.py:48 | Shuffling DIRECTIONS permutes it (the multiset of entries is unchanged) and uses three draws. |
| Snake.Game.Carve | snake.py:47 | Opening a cell sets it to 1 and leaves every other cell unchanged. The set of open cells grows by exactly that cell, and the grid stays consistent. |
| Snake.Game.Dfs | snake.py:35-55 | After `dfs(x, y)`: the cell is open; no cell was closed (cells only turn from wall to path); the open cells reached earlier are still open; from a cell with both coordinates even, no newly opened cell has both coordinates odd; `dots` is unchanged. Every open cell keeps a parent link to an adjacent open cell. |
| Snake.Game.TryStep | snake.py:50-55 | One iteration of dfs's loop. If the cell two steps away was an in-bounds wall, both the midpoint and that cell are open afterwards. Otherwise nothing changes: the open cells, the draws and DIRECTIONS are as before. Either way no cell is closed, the grid stays consistent and the parity property holds. |
| Snake.StepOfTwo | snake.py:51-54 | The midpoint of a step of two stays in bounds and is a 4-neighbour of both ends. From a cell with both coordinates even, the far end also has both coordinates even and the midpoint has at least one even coordinate. |
| Snake.LinkedReachesStart | snake.py:35-57 | Each carved cell has a parent it was carved from, and parents have strictly smaller ranks. Under that linkage, every open cell has a walk through open cells back to (0, 0). |
| Snake.Game.GenerateMaze | snake.py:57 | After `dfs(0, 0)` on the all-wall grid: (0, 0) is open; every open cell is joined to (0, 0) through open 4-neighbours; every cell with both coordinates odd is still a wall, including the exit (49, 49). |
| Snake.SquaredDistance | snake.py:84 | The squared distance is a natural number and is zero exactly on the dot's own cell. |
| Snake.SqrtTest | snake.py:84-85 | For every minimum distance, `sqrt(d) < min_distance` agrees with the integer test `Closer`: positive and `d < min_distance^2`. |
| Snake.Game.CheckDistance | snake.py:82-87 | The scan of `dots` reports "too close" exactly when some dot lies closer than `min_distance`. |
| Snake.NotTooCloseIsFree | snake.py:80-88 | With a positive minimum distance, a cell that passes the distance test carries no dot. This is what the always-true pair test on line 80 was meant to ensure. |
| Snake.SpreadAppend | snake.py:82-90 | Adding a dot that passed the distance test keeps every two dots at least `min_distance` apart. |
| Snake.Window | snake.py:74-75 | The sampling window ends at `min(49, progress)` for both x and y: each end is at most `progress` and at most 49, and equals one of the two. |
| Snake.Game.GenerateDot | snake.py:69-92 | At most one dot is appended, and the old dots are kept. The new dot is at the first drawn candidate that is an open cell not too close to an old dot, and its colour components are in 0..255. The number of draws is 2 per attempt plus 3 for the colour. Without a new dot, every one of the `max_attempts` candidates was rejected and exactly 2 x `max_attempts` draws were made. |
| Astar.MazeSolver.constructor | astar.py:7-16 | `rows` and `cols` are the grid's dimensions. |
| Astar.MazeSolver.ValidCellInGrid | astar.py:18-25 | The predicate `Astar.MazeSolver.IsValid` is `is_valid` as written; this lemma shows that `is_valid(x, y)` holds exactly when (x, y) is in the grid and its cell is 1. |
| Astar.MazeSolver.Heuristic | astar.py:27-36 | The Manhattan distance is zero exactly when the two cells are equal. |
| Astar.MazeSolver.HeuristicSymmetric | astar.py:27-36 | The Manhattan distance is symmetric. |
| Astar.MazeSolver.HeuristicStep | astar.py:27-36 | One step to a 4-neighbour changes the distance to any target by exactly one, so the heuristic is consistent. |
| Astar.MazeSolver.HeuristicAdmissible | astar.py:27-36 | Every chain of 4-neighbours is at least as long as the Manhattan distance between its ends, so the heuristic never overestimates. |
| Astar.MinimalExists | astar.py:59 | A non-empty heap has an entry of minimal priority, which is what `heappop` returns. |
| Astar.StepTo | astar.py:68-70 | Each 4-neighbour of a cell is reached by one of the four offsets a_star tries. |
| Astar.MazeSolver.NoRouteToInvalid | astar.py:73 | No route ends at a cell other than the start that `is_valid` rejects. |
| Astar.MazeSolver.ReconstructPath | astar.py:88-104 | The path ends at `current` and starts at a cell with no `came_from` entry. Each cell is the `came_from` of the next. Its length is bounded by the g-score difference. |
| Astar.Reverse | astar.py:103 | The reversed list has the same length and the elements in the opposite order. |
| Astar.MazeSolver.FoundRouteIsShortest | astar.py:62-63 | When `end` is popped, the path rebuilt from `came_from` is a route from start to end, and no route is shorter. |
| Astar.MazeSolver.ExhaustedMeansNoRoute | astar.py:57-86 | With the heap exhausted, no route leads from start to end. |
| Astar.MazeSolver.RoundDecreases | astar.py:57-84 | Each pop-and-expand round strictly decreases a measure. The measure is, in order: the grid cells not yet scored, the sum of g-scores, and the heap size. So the search ends. |
| Astar.MazeSolver.AStar | astar.py:38-86 | The result is a route from start to end in which every cell after the start is valid, and a shortest one. `None` means no route exists. For `start == end` the result is `[start]`. For an invalid end other than start, the result is `None`. |
| Astar.SolveCommentedExample | astar.py:106-118 | On the usage example in the comments, the end (9, 9) is a wall, so the result is `None`. |

## Left out

- Drawing, the event loop and timing in snake.py (pygame), and the settings in settings.py, are not part of this model.
- `random` is an oracle of draws. The contracts hold for every oracle, but nothing is said about the distribution.
- Snake.Game.GenerateDot: `max_dots`, `dot_interval` and `dot_progression` live in the game loop. The model takes `progress` as a parameter and requires it to be a natural number, because the game only ever increments it from 0.
- Snake.Game.GenerateDot: the test `(x_local, y_local) not in dots` compares a pair against (x, y, colour) triples, so it is always true. The model leaves it out; Snake.NotTooCloseIsFree shows that a positive `min_distance` excludes occupied cells anyway.
- Snake.Game.GenerateMaze: the exit (49, 49) has both coordinates odd, so the carving never opens it. The code has no later step that opens it, and the model proves the exit stays a wall.
- Snake.Game.Dfs: does not promise that every cell with both coordinates even is carved. Each iteration rereads the shared DIRECTIONS list at its index, and the recursive calls reshuffle that list in between. So one call of dfs can try one direction twice and never try another, which differs from "every direction" in the function's description.
- Astar.MazeSolver.AStar: which of several entries of equal priority `heapq` pops is left open (any minimal entry). So the contract states which route lengths are possible, not which route is returned.
- Astar.MazeSolver.AStar: the start cell is pushed with priority 0, as in the code, not with its f-score. There is no closed set and no stale-entry check: a popped cell is expanded again, as in the code.
- Astar.MazeSolver.constructor: requires a non-empty rectangular grid. `len(maze[0])` fails on an empty grid, and `is_valid` assumes every row has `cols` entries. There are no `InvalidDimensions` or `OutOfBounds` errors: the code raises none, and an out-of-grid end other than the start simply gives `None`.
- Astar.MazeSolver.ReconstructPath: takes a ghost `rank` (a_star passes `g_score`) that strictly decreases along `came_from`. Without it, the loop would not terminate on a cyclic `came_from`, which a_star never builds.
- Integers are unbounded, as in Python.
