/** What a finished walk means for the maze: a complete flood fill of the
    open cells connected to where it started. */
module Flood {
  import opened Grid
  import opened Frontier

  /** `path` starts at `start` and then moves between orthogonal neighbours
      through cells that are open in `g`. */
  ghost predicate OpenPath(g: Maze, start: Position, path: seq<Position>) {
    && |path| > 0 && path[0] == start
    && forall i :: 0 < i < |path| ==> Adjacent(path[i - 1], path[i]) && Enterable(g, path[i])
  }

  /** Once the walk from `pos` has rewritten `g0` into `g1`, every cell on an
      open path from `pos` is visited: no open cell connected to `pos` is
      left behind. */
  lemma {:induction false} FloodFillComplete(g0: Maze, g1: Maze, pos: Position, path: seq<Position>)
    requires InGrid(g0, pos) && OnlyMarks(g0, g1, pos) && ClosedAfter(g0, g1, pos)
    requires At(g1, pos) == Visited
    requires OpenPath(g0, pos, path)
    ensures forall i :: 0 <= i < |path| ==> InGrid(g1, path[i]) && At(g1, path[i]) == Visited
  {
    if |path| > 1 {
      var n := |path| - 1;
      var prefix := path[..n];
      assert OpenPath(g0, pos, prefix) by {
        forall i | 0 < i < n ensures Adjacent(prefix[i - 1], prefix[i]) && Enterable(g0, prefix[i]) {
          assert prefix[i - 1] == path[i - 1] && prefix[i] == path[i];
        }
      }
      FloodFillComplete(g0, g1, pos, prefix);
      var prev, last := path[n - 1], path[n];
      assert prefix[n - 1] == prev;
      assert Touched(g0, g1, pos, prev);
      assert !Enterable(g1, Step(prev, Direction(prev, last)));
      forall i | 0 <= i < |path| ensures InGrid(g1, path[i]) && At(g1, path[i]) == Visited {
        if i < n {
          assert prefix[i] == path[i];
        }
      }
    }
  }

  /** `q` is the end of an open path from `start` in `g`. */
  ghost predicate Reachable(g: Maze, start: Position, q: Position) {
    exists path :: OpenPath(g, start, path) && path[|path| - 1] == q
  }

  /** The cells of `g` connected to `start` through open cells. */
  ghost function Reach(g: Maze, start: Position): set<Position> {
    set r, c | 0 <= r < |g| && 0 <= c < |g[r]| && Reachable(g, start, Position(r, c)) :: Position(r, c)
  }

  lemma ReachMember(g: Maze, start: Position, q: Position)
    ensures q in Reach(g, start) <==> InGrid(g, q) && Reachable(g, start, q)
  {
    if InGrid(g, q) && Reachable(g, start, q) {
      assert Position(q.row, q.col) in Reach(g, start);
    }
  }

  /** The connected cells hold `start` and are closed under stepping to an
      open neighbour, so the walk from `start` may be confined to them. */
  lemma ReachClosed(g: Maze, start: Position)
    requires InGrid(g, start)
    ensures start in Reach(g, start) && ClosedRegion(g, Reach(g, start))
  {
    assert OpenPath(g, start, [start]);
    ReachMember(g, start, start);
    forall q, d | q in Reach(g, start) && 0 <= d < 4 && Enterable(g, Step(q, d))
      ensures Step(q, d) in Reach(g, start)
    {
      ReachMember(g, start, q);
      var path :| OpenPath(g, start, path) && path[|path| - 1] == q;
      var longer := path + [Step(q, d)];
      assert OpenPath(g, start, longer) by {
        forall i | 0 < i < |longer| ensures Adjacent(longer[i - 1], longer[i]) && Enterable(g, longer[i]) {
          if i < |path| {
            assert longer[i - 1] == path[i - 1] && longer[i] == path[i];
          }
        }
      }
      ReachMember(g, start, Step(q, d));
    }
  }

  /** A walk from `pos` that stayed inside the cells connected to `pos`
      marks exactly those cells and leaves every other cell as it was. */
  lemma FloodFillExact(g0: Maze, g1: Maze, pos: Position)
    requires InGrid(g0, pos) && OnlyMarks(g0, g1, pos) && ClosedAfter(g0, g1, pos)
    requires At(g1, pos) == Visited
    requires forall q :: InGrid(g0, q) && Touched(g0, g1, pos, q) ==> q in Reach(g0, pos)
    ensures SameShape(g0, g1)
    ensures forall q :: InGrid(g0, q) ==>
      At(g1, q) == if Reachable(g0, pos, q) then Visited else At(g0, q)
  {
    forall q | InGrid(g0, q)
      ensures At(g1, q) == if Reachable(g0, pos, q) then Visited else At(g0, q)
    {
      ReachMember(g0, pos, q);
      if Reachable(g0, pos, q) {
        var path :| OpenPath(g0, pos, path) && path[|path| - 1] == q;
        FloodFillComplete(g0, g1, pos, path);
      }
    }
  }
}
