/** The maze grid: cell markers, positions, the four exploration directions,
    and the predicates over a grid (and over the explorer's stack) that the
    explorer's contracts are written in. */
module Grid {

  /** A cell coordinate (row, column); may lie outside the grid. */
  datatype Position = Position(row: int, col: int)

  /** The maze, row-major: `g[row][col]` is the marker of one cell. */
  type Maze = seq<seq<char>>

  const Open: char := 'x'
  const Entrance: char := 'e'
  const Exit: char := 's'
  const Visited: char := '.'

  /** Offsets in the order the explorer tries them: up, down, left, right. */
  const Directions: seq<Position> :=
    [Position(-1, 0), Position(1, 0), Position(0, -1), Position(0, 1)]

  /** Orthogonal neighbours. */
  predicate Adjacent(a: Position, b: Position) {
    || (a.row == b.row && (a.col + 1 == b.col || b.col + 1 == a.col))
    || (a.col == b.col && (a.row + 1 == b.row || b.row + 1 == a.row))
  }

  /** The neighbour of `p` in direction `d`. */
  function Step(p: Position, d: nat): (q: Position)
    requires d < 4
    ensures Adjacent(p, q) && q != p
  {
    Position(p.row + Directions[d].row, p.col + Directions[d].col)
  }

  /** The direction index that leads from `p` to its neighbour `q`. */
  function Direction(p: Position, q: Position): (d: nat)
    requires Adjacent(p, q)
    ensures d < 4 && Step(p, d) == q
  {
    if q.row + 1 == p.row then 0
    else if q.row == p.row + 1 then 1
    else if q.col + 1 == p.col then 2
    else 3
  }

  /** `g` has `rows` rows of `cols` cells each. */
  predicate Rectangular(g: Maze, rows: int, cols: int) {
    |g| == rows && 0 <= cols && forall r :: 0 <= r < |g| ==> |g[r]| == cols
  }

  predicate SameShape(g0: Maze, g1: Maze) {
    |g0| == |g1| && forall r :: 0 <= r < |g0| ==> |g0[r]| == |g1[r]|
  }

  predicate InGrid(g: Maze, p: Position) {
    0 <= p.row < |g| && 0 <= p.col < |g[p.row]|
  }

  function At(g: Maze, p: Position): char
    requires InGrid(g, p)
  {
    g[p.row][p.col]
  }

  /** A cell the explorer may step into: inside the grid and still open. */
  predicate Enterable(g: Maze, p: Position) {
    InGrid(g, p) && At(g, p) == Open
  }

  /** The grid after cell `p` is overwritten with the visited marker. */
  function Mark(g: Maze, p: Position): (g': Maze)
    requires InGrid(g, p)
    ensures SameShape(g, g') && InGrid(g', p) && At(g', p) == Visited
    ensures forall q :: InGrid(g, q) && q != p ==> At(g', q) == At(g, q)
  {
    g[p.row := g[p.row][p.col := Visited]]
  }

  /** The enterable neighbours of `p` among the first `k` directions, in
      direction order: what one visit of `p` pushes on the stack. */
  function Candidates(g: Maze, p: Position, k: nat): (s: seq<Position>)
    requires k <= 4
    ensures forall i :: 0 <= i < |s| ==> Enterable(g, s[i]) && Adjacent(p, s[i])
    ensures forall d :: 0 <= d < k && Enterable(g, Step(p, d)) ==> Step(p, d) in s
  {
    if k == 0 then []
    else
      var q := Step(p, k - 1);
      Candidates(g, p, k - 1) + (if Enterable(g, q) then [q] else [])
  }

  /** Candidates are pushed in direction order: up before down before left
      before right. */
  lemma {:induction false} CandidatesInOrder(g: Maze, p: Position, k: nat)
    requires k <= 4
    ensures forall i :: 0 <= i < |Candidates(g, p, k)| ==> Direction(p, Candidates(g, p, k)[i]) < k
    ensures forall i, j :: 0 <= i < j < |Candidates(g, p, k)| ==>
      Direction(p, Candidates(g, p, k)[i]) < Direction(p, Candidates(g, p, k)[j])
  {
    if k > 0 {
      CandidatesInOrder(g, p, k - 1);
      var prev, q := Candidates(g, p, k - 1), Step(p, k - 1);
      var s := Candidates(g, p, k);
      assert Direction(p, q) == k - 1;
      assert s == prev || s == prev + [q];
      forall i | 0 <= i < |s| ensures Direction(p, s[i]) < k && (i < |prev| ==> Direction(p, s[i]) < k - 1) {
        if i < |prev| {
          assert s[i] == prev[i];
          assert Direction(p, prev[i]) < k - 1;
        } else {
          assert s == prev + [q] && s[i] == q;
        }
      }
    }
  }

  /** The last candidate, the one popped first, is the enterable neighbour
      in the highest direction: the right neighbour whenever it is open. */
  lemma {:induction false} LastCandidate(g: Maze, p: Position, k: nat)
    requires k <= 4 && Candidates(g, p, k) != []
    ensures var top := Candidates(g, p, k)[|Candidates(g, p, k)| - 1];
      Direction(p, top) < k && forall e :: Direction(p, top) < e < k ==> !Enterable(g, Step(p, e))
  {
    var q := Step(p, k - 1);
    assert Direction(p, q) == k - 1;
    if !Enterable(g, q) {
      assert Candidates(g, p, k) == Candidates(g, p, k - 1);
      LastCandidate(g, p, k - 1);
    }
  }

  /** Cells whose marker is not yet the visited marker. */
  ghost function Unvisited(g: Maze): set<Position> {
    set r, c | 0 <= r < |g| && 0 <= c < |g[r]| && g[r][c] != Visited :: Position(r, c)
  }

  lemma UnvisitedMember(g: Maze, p: Position)
    ensures p in Unvisited(g) <==> InGrid(g, p) && At(g, p) != Visited
  {
    if InGrid(g, p) && At(g, p) != Visited {
      assert Position(p.row, p.col) in Unvisited(g);
    }
  }

  /** Marking an unvisited cell removes it from the unvisited set, and
      marking a visited one changes nothing. */
  lemma MarkShrinks(g: Maze, p: Position)
    requires InGrid(g, p)
    ensures At(g, p) != Visited ==> Unvisited(Mark(g, p)) < Unvisited(g)
    ensures At(g, p) == Visited ==> Mark(g, p) == g
  {
    var g' := Mark(g, p);
    forall q ensures q in Unvisited(g') <==> q in Unvisited(g) && q != p {
      UnvisitedMember(g, q);
      UnvisitedMember(g', q);
    }
    UnvisitedMember(g, p);
    if At(g, p) == Visited {
      assert g[p.row][p.col := Visited] == g[p.row];
    }
  }

  /** With no enterable neighbour among the first `k` directions there is
      nothing to push. */
  lemma {:induction false} NoCandidates(g: Maze, p: Position, k: nat)
    requires k <= 4
    requires forall d :: 0 <= d < k ==> !Enterable(g, Step(p, d))
    ensures Candidates(g, p, k) == []
  {
    if k > 0 {
      NoCandidates(g, p, k - 1);
    }
  }

}
