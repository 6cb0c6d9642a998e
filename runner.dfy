/** The program's sequence: scan for the entrance, give up with status 1
    when there is none, otherwise walk from it and finish with status 0. */
module Runner {
  import opened Grid
  import opened Frontier
  import opened Loader
  import opened Explorer
  import opened Flood

  /** Runs the search on a loaded `numRows` by `numCols` maze; `final` is
      the maze when the walk is over. */
  method Run(grid: Maze, numRows: int, numCols: int)
    returns (start: Position, status: int, exitFound: bool, final: Maze)
    requires Rectangular(grid, numRows, numCols)
    ensures status == 1 <==> forall q :: InGrid(grid, q) ==> At(grid, q) != Entrance
    ensures status == 0 || status == 1
    ensures !exitFound
    ensures status == 1 ==> final == grid
    ensures status == 0 ==> InGrid(grid, start) && At(grid, start) == Entrance
    ensures status == 0 ==> SameShape(grid, final)
    ensures status == 0 ==> forall q :: InGrid(grid, q) ==>
      At(final, q) == if Reachable(grid, start, q) then Visited else At(grid, q)
  {
    start := FindStart(grid, numRows, numCols);
    if start.row == -1 || start.col == -1 {
      return start, 1, false, grid;
    }
    var runner := new MazeRunner(grid, numRows, numCols);
    assert [] + [start] == [start];
    ReachClosed(grid, start);
    exitFound := runner.Walk(start, Reach(grid, start));
    status, final := 0, runner.maze;
    FloodFillExact(grid, final, start);
  }
}
