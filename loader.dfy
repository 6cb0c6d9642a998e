/** The entrance scan of the loader: a row-major pass over the parsed maze
    that remembers the entrance cell. */
module Loader {
  import opened Grid

  /** What the scan reports when the maze has no entrance. */
  const NotFound: Position := Position(-1, -1)

  /** `q` comes strictly after `p` in row-major order. */
  predicate RowMajorAfter(p: Position, q: Position) {
    q.row > p.row || (q.row == p.row && q.col > p.col)
  }

  /** The scan has already looked at `q` when it stands at (row, col). */
  predicate Scanned(q: Position, row: int, col: int) {
    q.row < row || (q.row == row && q.col < col)
  }

  /** Scans a `numRows` by `numCols` maze row by row. Every entrance marker
      overwrites the result, so the last entrance in row-major order wins;
      (-1, -1) means there is none. */
  method FindStart(maze: Maze, numRows: int, numCols: int) returns (start: Position)
    requires Rectangular(maze, numRows, numCols)
    ensures start == NotFound <==> forall q :: InGrid(maze, q) ==> At(maze, q) != Entrance
    ensures start != NotFound ==> InGrid(maze, start) && At(maze, start) == Entrance
    ensures start != NotFound ==>
      forall q :: InGrid(maze, q) && RowMajorAfter(start, q) ==> At(maze, q) != Entrance
  {
    start := NotFound;
    for row := 0 to numRows
      invariant start == NotFound <==>
        forall q :: InGrid(maze, q) && Scanned(q, row, 0) ==> At(maze, q) != Entrance
      invariant start != NotFound ==>
        InGrid(maze, start) && Scanned(start, row, 0) && At(maze, start) == Entrance
      invariant start != NotFound ==>
        forall q :: InGrid(maze, q) && Scanned(q, row, 0) && RowMajorAfter(start, q) ==>
          At(maze, q) != Entrance
    {
      for col := 0 to numCols
        invariant start == NotFound <==>
          forall q :: InGrid(maze, q) && Scanned(q, row, col) ==> At(maze, q) != Entrance
        invariant start != NotFound ==>
          InGrid(maze, start) && Scanned(start, row, col) && At(maze, start) == Entrance
        invariant start != NotFound ==>
          forall q :: InGrid(maze, q) && Scanned(q, row, col) && RowMajorAfter(start, q) ==>
            At(maze, q) != Entrance
      {
        if maze[row][col] == Entrance {
          start := Position(row, col);
        }
        assert At(maze, Position(row, col)) == maze[row][col];
      }
    }
  }
}
