# maze_runner — a verified model of the maze explorer

The program reads a maze of single-character cells:
- `x` open
- `e` entrance
- `s` exit
- anything else is a wall

It finds the entrance and explores the maze depth-first from it. It overwrites every cell it enters with `.`. It keeps the positions still to explore on one global stack. It reports whether the exit was found.

This project models three parts of the program:
- the entrance scan of the loader;
- the bounds-and-open test for a neighbour;
- the recursive walk, which rewrites the global maze in place and drains the global stack.

It also models the program's main sequence: scan, give up with status 1 when there is no entrance, otherwise walk.

Modules:
- `Grid`: positions, the cell markers, the four directions and the grid.
  - `Mark` is the update a visit makes.
  - `Candidates` is what one visit pushes.
- `Frontier`: the invariants of the shared stack, and the lemmas showing each step of the walk keeps them.
- `Explorer`: the class `MazeRunner`. Its fields are the program's globals: the maze, its dimensions and the stack. Its methods are the walk.
- `Loader`: the entrance scan.
- `Flood`: open paths, the set of cells connected to a start, and what a finished walk means for them.
- `Runner`: the program's main sequence.

A Dafny sequence has value semantics, like `std::vector`. So the maze is a `seq<seq<char>>` field that the walk reassigns. The stack is a `seq<Position>` field, and its top is the last element.

Main results:
- The walk never reports the exit as found. The cell is overwritten with `.` before it is compared with `s`, so the success branch cannot be taken.
- The walk always terminates.
- The stack is empty when any walk returns.
- From the entrance, the walk marks exactly the cells connected to the entrance through open cells, the entrance included. Every other cell keeps its marker, and the dimensions do not change (`Runner.Run`).
- Neighbours are pushed up, down, left, right. So the neighbour taken first is the right one when it is open (`Grid.LastCandidate`).

Termination has an argument of its own. A cell can be pushed twice, once by each of two visited neighbours, so the walk can revisit a cell that is already `.`. Such a revisit pushes nothing. The stack invariant `Frontier.OpenNeighboursAbove` guarantees this: every visited entry has its open neighbours above it on the stack. The walk therefore decreases the pair (set of cells not yet `.`, stack height).

## Model

| member | source | states |
|---|---|---|
| Grid.Mark | maze_runner.cpp:66 | Marking overwrites exactly the cell at `pos` with the visited marker; every other cell and the grid's shape are unchanged. |
| Grid.Candidates | maze_runner.cpp:78-86 | What one visit pushes: only in-grid open neighbours of `pos`, and every open neighbour among the directions tried. |
| Grid.CandidatesInOrder | maze_runner.cpp:78-86 | The pushed neighbours come in direction order, up before down before left before right, each at most once. |
| Grid.LastCandidate | maze_runner.cpp:84-91 | The top of the stack after a visit is the open neighbour in the highest direction: the right one whenever it is open, so it is walked first. |
| Grid.NoCandidates | maze_runner.cpp:78-86 | A cell with no open neighbour pushes nothing. |
| Grid.MarkShrinks | maze_runner.cpp:66 | Marking a cell not yet visited strictly shrinks the set of unvisited cells; re-marking a visited cell leaves the maze unchanged. |
| Frontier.OnlyMarksShrinks | maze_runner.cpp:64-100 | A walk that only writes the visited marker never enlarges the set of unvisited cells. |
| Frontier.OnlyMarksTrans | maze_runner.cpp:88-97 | The cells written by a nested walk, added to those of the enclosing visit, are still only visited markers on open cells or on the start. |
| Frontier.RevisitPushesNothing | maze_runner.cpp:78-86 | Under the stack invariant, a walk of an already visited cell pushes nothing: its open neighbours were already above it. |
| Frontier.PushKeepsCells | maze_runner.cpp:78-86 | After marking and pushing, every stack entry is in the grid and is open or visited. |
| Frontier.PushKeepsOrder | maze_runner.cpp:78-86 | Marking and pushing keep the stack invariant: every visited entry has its open neighbours above it. |
| Frontier.StartVisit | maze_runner.cpp:66-86 | The start of a visit keeps the old stack at the bottom and establishes the drain invariant. The unvisited set shrinks, or the stack does not grow. |
| Frontier.PopVisit | maze_runner.cpp:89-91 | Popping the top of a non-empty stack gives an in-grid position and a remaining stack that meet the walk's precondition. |
| Frontier.StepVisit | maze_runner.cpp:94-97 | Once the walk of the popped position returns, the stack is drained and every cell entered so far has no open neighbour left. |
| Frontier.VisitDone | maze_runner.cpp:89-99 | A drained visit has marked `pos` and every entry of the stack it started on, and changed only open cells. It left no entered cell with an open neighbour. |
| Frontier.ClosedRegionKept | maze_runner.cpp:66 | A set of cells closed under stepping to an open neighbour stays closed once cells are only marked. |
| Explorer.MazeRunner.constructor | maze_runner.cpp:32-33 | The loaded state: a `rows` by `cols` maze and an empty stack. |
| Explorer.MazeRunner.IsValidPosition | maze_runner.cpp:60-62 | True exactly when (row, col) is inside the grid and the cell is open, so entrance, exit and visited cells are never entered. |
| Explorer.MazeRunner.PushValidNeighbours | maze_runner.cpp:78-86 | The stack grows by exactly the candidates of `pos`, in direction order, and nothing else changes. |
| Explorer.MazeRunner.Walk | maze_runner.cpp:64-100 | Never returns true and leaves the stack empty. It marks `pos` and every entry of the stack it was given. It writes only the visited marker on open cells or `pos`, and leaves no entered cell with an open neighbour. It stays inside any closed region that holds `pos` and the stack. The dimensions are unchanged, and it terminates. |
| Explorer.MazeRunner.WalkNext | maze_runner.cpp:89-97 | One turn of the walk's loop: pops the top and walks it, which drains the stack, keeps the visit's invariant and never reports success. |
| Loader.FindStart | maze_runner.cpp:35-43 | Returns (-1, -1) exactly when the maze has no entrance. Otherwise it returns an entrance cell with no entrance after it in row-major order, so the last one wins. |
| Flood.FloodFillComplete | maze_runner.cpp:64-100 | After a walk from `pos`, every cell on an open path from `pos` is visited. |
| Flood.ReachClosed | maze_runner.cpp:64-100 | The cells connected to the start through open cells contain the start and are closed under stepping to an open neighbour. |
| Flood.FloodFillExact | maze_runner.cpp:64-100 | A walk confined to the cells connected to `pos` marks exactly those cells and leaves every other cell as it was. |
| Runner.Run | maze_runner.cpp:109-123 | Status 1, with the maze untouched, exactly when there is no entrance. Otherwise status 0, and the exit is never reported found. The final maze has the same shape and has `.` on exactly the cells connected to the entrance through open cells; every other cell is unchanged. |

## Where the code and its design description differ

The model follows the code in each of these cases:
- **Concurrency.** The design describes explorers that may run concurrently and share a "found" flag. The code is sequential: one recursion and one global stack.
- **Exit cells.** The design says exit cells are enterable. The code's neighbour test admits only open (`x`) cells, so an exit is never pushed.
- **Success is never reported.** The design says reaching the exit reports success. In the code, the walk overwrites its cell with `.` before comparing it with `s`, so the walk always reports that the exit was not found.
- **Several entrances.** The design says the first entrance wins. The code's scan overwrites its result at every `e`, so the last one in row-major order wins.

## Left out

- File input is not modelled: opening the file, reading the two dimensions, tokenising the cells, and the (-1, -1) return when the file cannot be opened. `Loader.FindStart` and `Runner.Run` take the parsed `rows` by `cols` maze as a parameter.
- Negative dimensions and short input are not modelled; the maze is taken to be a well-formed rectangle.
- Printing the maze after each mark, the 100 ms sleep, and the messages written by `main` are output and timing only, so they are not modelled.
- The argument-count check of `main` is command-line handling only, so it is not modelled.
- Explorer.MazeRunner.Walk: its preconditions are not demanded by the source. They are the stack invariant (entries in the grid, open or visited, and every visited entry with its open neighbours above it) and a ghost region. The program's only call is on the entrance with an empty stack, which meets them (`Runner.Run`). A call on an arbitrary stack is not covered.
- Explorer.MazeRunner.WalkNext: this is the body of the walk's loop as its own method, so that the loop body is verified separately from the rest of the walk.
- `int` overflow of positions is not modelled. Neighbour coordinates stay within one step of a cell in the grid.
