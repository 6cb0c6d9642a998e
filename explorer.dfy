/** The explorer: the maze and the stack of positions still to walk, kept
    as the state of one object, and the recursive depth-first walk that
    rewrites the maze in place. */
module Explorer {
  import opened Grid
  import opened Frontier

  class MazeRunner {
    /** The maze, rewritten in place as cells are visited. */
    var maze: Maze
    var numRows: int
    var numCols: int
    /** The one stack shared by every level of the walk; its top is the last
        element. */
    var validPositions: seq<Position>

    ghost predicate Valid()
      reads this
    {
      Rectangular(maze, numRows, numCols)
    }

    /** The state once a maze has been loaded: nothing on the stack yet. */
    constructor (grid: Maze, rows: int, cols: int)
      requires Rectangular(grid, rows, cols)
      ensures Valid()
      ensures maze == grid && numRows == rows && numCols == cols && validPositions == []
    {
      maze, numRows, numCols := grid, rows, cols;
      validPositions := [];
    }

    /** Whether the walk may step into (row, col): the bounds are checked
        against the declared dimensions, and only open cells qualify, so
        entrance, exit, visited and wall cells never do. */
    function IsValidPosition(row: int, col: int): (ok: bool)
      reads this
      requires Valid()
      ensures ok <==> Enterable(maze, Position(row, col))
      ensures ok ==> maze[row][col] !in {Entrance, Exit, Visited}
    {
      row >= 0 && row < numRows && col >= 0 && col < numCols && maze[row][col] == Open
    }

    /** Pushes the enterable neighbours of `pos` onto the shared stack, in
        the order up, down, left, right. */
    method PushValidNeighbours(pos: Position)
      requires Valid()
      modifies this`validPositions
      ensures validPositions == old(validPositions) + Candidates(maze, pos, 4)
    {
      for d := 0 to 4
        invariant validPositions == old(validPositions) + Candidates(maze, pos, d)
      {
        var newRow := pos.row + Directions[d].row;
        var newCol := pos.col + Directions[d].col;
        if IsValidPosition(newRow, newCol) {
          validPositions := validPositions + [Position(newRow, newCol)];
        }
      }
    }

    /** Walks from `pos`: marks it visited, pushes its enterable neighbours
        (up, down, left, right), then pops and walks until the shared stack
        is empty. The exit test reads the cell after it has been marked, so
        it never succeeds, and the walk never reports the exit as found.
        `region` is any set of cells closed under stepping to an open
        neighbour that holds `pos` and the stack: the walk never leaves it. */
    method Walk(pos: Position, ghost region: set<Position>) returns (found: bool)
      requires Valid() && InGrid(maze, pos)
      requires StackCells(maze, validPositions)
      requires OpenNeighboursAbove(maze, validPositions + [pos])
      requires ClosedRegion(maze, region) && pos in region
      requires forall i :: 0 <= i < |validPositions| ==> validPositions[i] in region
      modifies this
      decreases Unvisited(maze), |validPositions|, 1
      ensures Valid() && numRows == old(numRows) && numCols == old(numCols)
      ensures !found
      ensures validPositions == []
      ensures OnlyMarks(old(maze), maze, pos)
      ensures ClosedAfter(old(maze), maze, pos)
      ensures InGrid(maze, pos) && At(maze, pos) == Visited
      ensures forall i :: 0 <= i < |old(validPositions)| ==>
        InGrid(maze, old(validPositions)[i]) && At(maze, old(validPositions)[i]) == Visited
      ensures forall q :: InGrid(old(maze), q) && Touched(old(maze), maze, pos, q) ==> q in region
    {
      maze := Mark(maze, pos);
      if maze[pos.row][pos.col] == Exit {
        // unreachable: the cell was overwritten just above
        assert false;
        return true;
      }

      PushValidNeighbours(pos);
      ghost var pushed := validPositions;
      StartVisit(old(maze), old(validPositions), pos, region);

      while validPositions != []
        invariant Valid() && numRows == old(numRows) && numCols == old(numCols)
        invariant Visiting(old(maze), maze, pos, pushed, validPositions, region)
        invariant old(validPositions) <= pushed
        invariant || Unvisited(maze) < Unvisited(old(maze))
                  || (Unvisited(maze) == Unvisited(old(maze)) && |validPositions| <= |old(validPositions)|)
        decreases |validPositions|
      {
        var exitFound := WalkNext(old(maze), pos, pushed, region);
        if exitFound {
          // unreachable: no walk ever reports the exit
          assert false;
          return true;
        }
      }
      VisitDone(old(maze), maze, pos, pushed, old(validPositions), region);
      return false;
    }

    /** One turn of the loop of the visit of `pos`: pops the top of the
        shared stack and walks from it, which drains the rest of the stack. */
    method WalkNext(ghost g0: Maze, ghost pos: Position, ghost pushed: seq<Position>,
                    ghost region: set<Position>) returns (found: bool)
      requires Valid() && validPositions != []
      requires Visiting(g0, maze, pos, pushed, validPositions, region)
      modifies this
      decreases Unvisited(maze), |validPositions|, 0
      ensures Valid() && numRows == old(numRows) && numCols == old(numCols)
      ensures !found
      ensures validPositions == []
      ensures Visiting(g0, maze, pos, pushed, [], region)
      ensures Unvisited(maze) <= Unvisited(old(maze))
    {
      PopVisit(g0, maze, pos, pushed, validPositions, region);
      var nextPos := validPositions[|validPositions| - 1];
      validPositions := validPositions[..|validPositions| - 1];
      found := Walk(nextPos, region);
      StepVisit(g0, old(maze), maze, pos, pushed, old(validPositions), region);
    }
  }
}
