/** The explorer's stack and the grid it rewrites: the invariants that keep
    the search finite and make it a complete flood fill, and the lemmas that
    show each step of the search keeps them. */
module Frontier {
  import opened Grid

  /** `g1` differs from `g0` only by cells overwritten with the visited
      marker, each of which was open or is `pos` itself. */
  ghost predicate OnlyMarks(g0: Maze, g1: Maze, pos: Position) {
    && SameShape(g0, g1)
    && forall q :: InGrid(g0, q) ==>
         || At(g1, q) == At(g0, q)
         || (At(g1, q) == Visited && (At(g0, q) == Open || q == pos))
  }

  /** Cell `q` was entered on the way from `g0` to `g1`: `pos`, or a cell
      whose marker changed. */
  ghost predicate Touched(g0: Maze, g1: Maze, pos: Position, q: Position)
    requires SameShape(g0, g1) && InGrid(g0, q)
  {
    q == pos || At(g1, q) != At(g0, q)
  }

  /** Every open neighbour of a cell entered on the way from `g0` to `g`
      is still waiting on the stack `s`. */
  ghost predicate NeighboursPending(g0: Maze, g: Maze, pos: Position, s: seq<Position>) {
    && SameShape(g0, g)
    && forall q, d ::
         InGrid(g0, q) && Touched(g0, g, pos, q) && 0 <= d < 4 && Enterable(g, Step(q, d)) ==>
           Step(q, d) in s
  }

  /** No entered cell has an open neighbour left in `g1`. */
  ghost predicate ClosedAfter(g0: Maze, g1: Maze, pos: Position) {
    NeighboursPending(g0, g1, pos, [])
  }

  /** Every stack entry lies in the grid and is open or visited. */
  ghost predicate StackCells(g: Maze, s: seq<Position>) {
    forall i :: 0 <= i < |s| ==>
      InGrid(g, s[i]) && (At(g, s[i]) == Open || At(g, s[i]) == Visited)
  }

  /** Every stack entry that is already visited has its open neighbours
      above it on the stack (the top is the last element). */
  ghost predicate OpenNeighboursAbove(g: Maze, s: seq<Position>) {
    forall i, d :: 0 <= i < |s| && InGrid(g, s[i]) && At(g, s[i]) == Visited &&
                   0 <= d < 4 && Enterable(g, Step(s[i], d)) ==>
      Step(s[i], d) in s[i + 1..]
  }
  /** The unvisited set never grows under `OnlyMarks`. */
  lemma OnlyMarksShrinks(g0: Maze, g1: Maze, pos: Position)
    requires OnlyMarks(g0, g1, pos)
    ensures Unvisited(g1) <= Unvisited(g0)
  {
    forall q | q in Unvisited(g1) ensures q in Unvisited(g0) {
      UnvisitedMember(g1, q);
      UnvisitedMember(g0, q);
    }
  }

  lemma OnlyMarksTrans(g0: Maze, g1: Maze, g2: Maze, p: Position, q: Position)
    requires OnlyMarks(g0, g1, p) && InGrid(g0, p) && At(g1, p) == Visited
    requires OnlyMarks(g1, g2, q) && InGrid(g1, q) && (At(g1, q) == Open || At(g1, q) == Visited)
    ensures OnlyMarks(g0, g2, p)
  {
  }

  /** A revisit of an already visited cell pushes nothing: the stack
      invariant put its open neighbours above it, and there is nothing above. */
  lemma RevisitPushesNothing(g: Maze, s: seq<Position>, p: Position)
    requires InGrid(g, p) && At(g, p) == Visited && OpenNeighboursAbove(g, s + [p])
    ensures Candidates(Mark(g, p), p, 4) == []
  {
    MarkShrinks(g, p);
    assert (s + [p])[|s|] == p;
    assert (s + [p])[|s| + 1..] == [];
    forall d | 0 <= d < 4 ensures !Enterable(g, Step(p, d)) { }
    NoCandidates(g, p, 4);
  }

  /** Visiting `p` and pushing its candidates keeps every entry in the grid
      and open or visited. */
  lemma PushKeepsCells(g: Maze, s: seq<Position>, p: Position)
    requires InGrid(g, p) && StackCells(g, s)
    ensures StackCells(Mark(g, p), s + Candidates(Mark(g, p), p, 4))
  {
    var g' := Mark(g, p);
    var c := Candidates(g', p, 4);
    forall i | 0 <= i < |s + c|
      ensures InGrid(g', (s + c)[i]) && (At(g', (s + c)[i]) == Open || At(g', (s + c)[i]) == Visited)
    {
      if i < |s| {
        assert (s + c)[i] == s[i];
      } else {
        assert (s + c)[i] == c[i - |s|];
      }
    }
  }

  /** Visiting `p` and pushing its candidates keeps the open neighbours of
      every visited entry above it. */
  lemma PushKeepsOrder(g: Maze, s: seq<Position>, p: Position)
    requires InGrid(g, p) && StackCells(g, s) && OpenNeighboursAbove(g, s + [p])
    ensures OpenNeighboursAbove(Mark(g, p), s + Candidates(Mark(g, p), p, 4))
  {
    var g' := Mark(g, p);
    var c := Candidates(g', p, 4);
    var s' := s + c;
    forall i, d | 0 <= i < |s'| && InGrid(g', s'[i]) && At(g', s'[i]) == Visited &&
                  0 <= d < 4 && Enterable(g', Step(s'[i], d))
      ensures Step(s'[i], d) in s'[i + 1..]
    {
      if i < |s| {
        assert s'[i] == s[i];
        assert s'[i + 1..] == s[i + 1..] + c;
        StepAbove(g, s, p, i, d);
      }
    }
  }

  /** The open neighbour `Step(s[i], d)` of a visited entry lies above it
      once `p` is visited and its candidates are pushed. */
  lemma StepAbove(g: Maze, s: seq<Position>, p: Position, i: nat, d: nat)
    requires InGrid(g, p) && OpenNeighboursAbove(g, s + [p])
    requires i < |s| && d < 4 && InGrid(g, s[i])
    requires At(Mark(g, p), s[i]) == Visited && Enterable(Mark(g, p), Step(s[i], d))
    ensures Step(s[i], d) in s[i + 1..] + Candidates(Mark(g, p), p, 4)
  {
    var q := Step(s[i], d);
    if s[i] == p {
      assert q in Candidates(Mark(g, p), p, 4);
    } else {
      assert (s + [p])[i] == s[i];
      assert (s + [p])[i + 1..] == s[i + 1..] + [p];
      assert q in s[i + 1..] + [p];
    }
  }

  /** The state of a visit of `pos` while it drains the stack: `g0` is the
      grid before the visit, `pushed` the stack right after the visit pushed
      its candidates, and `s` the stack now, a prefix of `pushed` whose
      popped entries have all been visited. */
  ghost predicate Draining(g0: Maze, g: Maze, pos: Position, pushed: seq<Position>, s: seq<Position>) {
    && InGrid(g0, pos)
    && StackCells(g, s) && OpenNeighboursAbove(g, s)
    && OnlyMarks(g0, g, pos) && At(g, pos) == Visited
    && |s| <= |pushed| && s == pushed[..|s|]
    && (forall i :: |s| <= i < |pushed| ==> InGrid(g, pushed[i]) && At(g, pushed[i]) == Visited)
    && NeighboursPending(g0, g, pos, s)
  }

  /** Marking `pos` and pushing its candidates starts the drain; the set of
      unvisited cells shrinks, or else nothing was pushed. */
  lemma StartDrain(g: Maze, s: seq<Position>, pos: Position)
    requires InGrid(g, pos) && StackCells(g, s) && OpenNeighboursAbove(g, s + [pos])
    ensures Draining(g, Mark(g, pos), pos,
                     s + Candidates(Mark(g, pos), pos, 4), s + Candidates(Mark(g, pos), pos, 4))
    ensures || Unvisited(Mark(g, pos)) < Unvisited(g)
            || (Unvisited(Mark(g, pos)) == Unvisited(g) && Candidates(Mark(g, pos), pos, 4) == [])
  {
    var s' := s + Candidates(Mark(g, pos), pos, 4);
    PushKeepsCells(g, s, pos);
    PushKeepsOrder(g, s, pos);
    MarkPending(g, s, pos);
    MarkShrinks(g, pos);
    if At(g, pos) == Visited {
      RevisitPushesNothing(g, s, pos);
    }
    assert s' == s'[..|s'|];
  }

  /** Popping the top entry leaves a stack on which the top may be walked. */
  lemma Pop(g: Maze, s: seq<Position>)
    requires s != [] && StackCells(g, s) && OpenNeighboursAbove(g, s)
    ensures s[..|s| - 1] + [s[|s| - 1]] == s
    ensures StackCells(g, s[..|s| - 1]) && InGrid(g, s[|s| - 1])
    ensures OpenNeighboursAbove(g, s[..|s| - 1] + [s[|s| - 1]])
  {
    assert s[..|s| - 1] + [s[|s| - 1]] == s;
  }

  /** Once the walk of the top entry `s[|s| - 1]` has returned, having
      drained the rest of the stack, the drain is complete. */
  lemma StepDrain(g0: Maze, gb: Maze, ga: Maze, pos: Position, pushed: seq<Position>, s: seq<Position>)
    requires Draining(g0, gb, pos, pushed, s) && s != []
    requires OnlyMarks(gb, ga, s[|s| - 1]) && ClosedAfter(gb, ga, s[|s| - 1])
    requires InGrid(ga, s[|s| - 1]) && At(ga, s[|s| - 1]) == Visited
    requires forall i :: 0 <= i < |s| - 1 ==> InGrid(ga, s[i]) && At(ga, s[i]) == Visited
    ensures Draining(g0, ga, pos, pushed, [])
    ensures Unvisited(ga) <= Unvisited(gb)
  {
    AfterDrain(g0, gb, ga, pos, pushed, |s|);
    OnlyMarksShrinks(gb, ga, s[|s| - 1]);
  }

  /** `region` is closed under stepping to an open neighbour in `g`. */
  ghost predicate ClosedRegion(g: Maze, region: set<Position>) {
    forall q, d :: q in region && 0 <= d < 4 && Enterable(g, Step(q, d)) ==> Step(q, d) in region
  }

  /** A region closed in `g0` stays closed once cells have only been marked. */
  lemma ClosedRegionKept(g0: Maze, g1: Maze, pos: Position, region: set<Position>)
    requires OnlyMarks(g0, g1, pos) && ClosedRegion(g0, region)
    ensures ClosedRegion(g1, region)
  {
    forall q, d | q in region && 0 <= d < 4 && Enterable(g1, Step(q, d))
      ensures Step(q, d) in region
    {
      assert Enterable(g0, Step(q, d));
    }
  }

  /** The visit of `pos` stays inside `region`: every pushed entry and every
      entered cell lies in it. */
  ghost predicate Confined(g0: Maze, g: Maze, pos: Position, pushed: seq<Position>, region: set<Position>) {
    && SameShape(g0, g)
    && ClosedRegion(g, region)
    && (forall i :: 0 <= i < |pushed| ==> pushed[i] in region)
    && (forall q :: InGrid(g0, q) && Touched(g0, g, pos, q) ==> q in region)
  }

  /** Marking `pos` and pushing its candidates stays inside a closed region
      that holds `pos` and the stack. */
  lemma StartConfined(g: Maze, s: seq<Position>, pos: Position, region: set<Position>)
    requires InGrid(g, pos) && ClosedRegion(g, region) && pos in region
    requires forall i :: 0 <= i < |s| ==> s[i] in region
    ensures Confined(g, Mark(g, pos), pos, s + Candidates(Mark(g, pos), pos, 4), region)
  {
    var g' := Mark(g, pos);
    var c := Candidates(g', pos, 4);
    MarkPending(g, s, pos);
    ClosedRegionKept(g, g', pos, region);
    forall i | 0 <= i < |s + c| ensures (s + c)[i] in region {
      if i >= |s| {
        var q := c[i - |s|];
        assert Enterable(g, Step(pos, Direction(pos, q)));
      }
    }
  }

  /** The stack the walk of the top entry starts from lies inside the region. */
  lemma PopConfined(g0: Maze, g: Maze, pos: Position, pushed: seq<Position>, s: seq<Position>,
                    region: set<Position>)
    requires Confined(g0, g, pos, pushed, region)
    requires s != [] && |s| <= |pushed| && s == pushed[..|s|]
    ensures s[|s| - 1] in region
    ensures var rest := s[..|s| - 1]; forall i :: 0 <= i < |rest| ==> rest[i] in region
  {
  }

  /** Once the walk of the top entry has returned, the visit is still inside
      the region. */
  lemma StepConfined(g0: Maze, gb: Maze, ga: Maze, pos: Position, next: Position,
                     pushed: seq<Position>, region: set<Position>)
    requires Confined(g0, gb, pos, pushed, region) && next in region
    requires InGrid(g0, pos) && OnlyMarks(gb, ga, next)
    requires forall q :: InGrid(gb, q) && Touched(gb, ga, next, q) ==> q in region
    ensures Confined(g0, ga, pos, pushed, region)
  {
    ClosedRegionKept(gb, ga, next, region);
    forall q | InGrid(g0, q) && Touched(g0, ga, pos, q) ensures q in region {
      if !Touched(gb, ga, next, q) {
        assert Touched(g0, gb, pos, q);
      }
    }
  }

  /** Right after `p` is marked and its candidates pushed, the only entered
      cell is `p` and its open neighbours are on the stack. */
  lemma MarkPending(g: Maze, s: seq<Position>, p: Position)
    requires InGrid(g, p)
    ensures OnlyMarks(g, Mark(g, p), p)
    ensures NeighboursPending(g, Mark(g, p), p, s + Candidates(Mark(g, p), p, 4))
  {
    var g' := Mark(g, p);
    var c := Candidates(g', p, 4);
    forall q, d | InGrid(g, q) && Touched(g, g', p, q) && 0 <= d < 4 && Enterable(g', Step(q, d))
      ensures Step(q, d) in s + c
    {
      assert q == p;
      assert Step(q, d) in c;
    }
  }

  /** What the loop of a visit knows once the recursive walk of the top entry
      `pushed[k - 1]` has returned: every pushed entry is now visited, and
      every cell entered so far has no open neighbour left. */
  lemma AfterDrain(g0: Maze, gb: Maze, ga: Maze, pos: Position, pushed: seq<Position>, k: nat)
    requires InGrid(g0, pos) && OnlyMarks(g0, gb, pos) && At(gb, pos) == Visited
    requires 0 < k <= |pushed| && StackCells(gb, pushed[..k])
    requires forall i :: k <= i < |pushed| ==> InGrid(gb, pushed[i]) && At(gb, pushed[i]) == Visited
    requires NeighboursPending(g0, gb, pos, pushed[..k])
    requires OnlyMarks(gb, ga, pushed[k - 1]) && ClosedAfter(gb, ga, pushed[k - 1])
    requires At(ga, pushed[k - 1]) == Visited
    requires forall i :: 0 <= i < k - 1 ==> At(ga, pushed[i]) == Visited
    ensures OnlyMarks(g0, ga, pos) && At(ga, pos) == Visited
    ensures forall i :: 0 <= i < |pushed| ==> InGrid(ga, pushed[i]) && At(ga, pushed[i]) == Visited
    ensures ClosedAfter(g0, ga, pos)
  {
    var next := pushed[k - 1];
    assert InGrid(gb, next);
    OnlyMarksTrans(g0, gb, ga, pos, next);
    forall i | 0 <= i < |pushed| ensures InGrid(ga, pushed[i]) && At(ga, pushed[i]) == Visited {
      if i < k {
        assert pushed[..k][i] == pushed[i];
      }
    }
    forall q, d | InGrid(g0, q) && Touched(g0, ga, pos, q) && 0 <= d < 4
      ensures !Enterable(ga, Step(q, d))
    {
      var n := Step(q, d);
      if !Touched(gb, ga, next, q) {
        assert Touched(g0, gb, pos, q);
      }
    }
  }

  /** The whole state of a visit of `pos` while it drains the stack: the
      drain invariant and the region it stays in. */
  ghost predicate Visiting(g0: Maze, g: Maze, pos: Position, pushed: seq<Position>, s: seq<Position>,
                           region: set<Position>) {
    Draining(g0, g, pos, pushed, s) && Confined(g0, g, pos, pushed, region)
  }

  /** Marking `pos` and pushing its candidates starts a visit that keeps the
      old stack at the bottom; the unvisited set shrinks, or else nothing was
      pushed. */
  lemma StartVisit(g: Maze, s: seq<Position>, pos: Position, region: set<Position>)
    requires InGrid(g, pos) && StackCells(g, s) && OpenNeighboursAbove(g, s + [pos])
    requires ClosedRegion(g, region) && pos in region
    requires forall i :: 0 <= i < |s| ==> s[i] in region
    ensures var g', s' := Mark(g, pos), s + Candidates(Mark(g, pos), pos, 4);
      && Visiting(g, g', pos, s', s', region) && s <= s'
      && (Unvisited(g') < Unvisited(g) || (Unvisited(g') == Unvisited(g) && |s'| == |s|))
  {
    StartDrain(g, s, pos);
    StartConfined(g, s, pos, region);
  }

  /** Popping the top entry of a visit's stack leaves a stack on which the
      top may be walked inside the region. */
  lemma PopVisit(g0: Maze, g: Maze, pos: Position, pushed: seq<Position>, s: seq<Position>,
                 region: set<Position>)
    requires Visiting(g0, g, pos, pushed, s, region) && s != []
    ensures s[..|s| - 1] + [s[|s| - 1]] == s
    ensures StackCells(g, s[..|s| - 1]) && InGrid(g, s[|s| - 1])
    ensures OpenNeighboursAbove(g, s[..|s| - 1] + [s[|s| - 1]])
    ensures ClosedRegion(g, region) && s[|s| - 1] in region
    ensures var rest := s[..|s| - 1]; forall i :: 0 <= i < |rest| ==> rest[i] in region
  {
    Pop(g, s);
    PopConfined(g0, g, pos, pushed, s, region);
  }

  /** Once the walk of the top entry has returned, having drained the rest
      of the stack inside the region, the visit is complete. */
  lemma StepVisit(g0: Maze, gb: Maze, ga: Maze, pos: Position, pushed: seq<Position>, s: seq<Position>,
                  region: set<Position>)
    requires Visiting(g0, gb, pos, pushed, s, region) && s != []
    requires OnlyMarks(gb, ga, s[|s| - 1]) && ClosedAfter(gb, ga, s[|s| - 1])
    requires InGrid(ga, s[|s| - 1]) && At(ga, s[|s| - 1]) == Visited
    requires forall i :: 0 <= i < |s| - 1 ==> InGrid(ga, s[i]) && At(ga, s[i]) == Visited
    requires forall q :: InGrid(gb, q) && Touched(gb, ga, s[|s| - 1], q) ==> q in region
    ensures Visiting(g0, ga, pos, pushed, [], region)
    ensures Unvisited(ga) <= Unvisited(gb)
  {
    StepDrain(g0, gb, ga, pos, pushed, s);
    PopConfined(g0, gb, pos, pushed, s, region);
    StepConfined(g0, gb, ga, pos, s[|s| - 1], pushed, region);
  }

  /** A visit whose stack is drained has marked `pos` and every entry of the
      stack it started on, entered only open cells inside the region, and
      left no entered cell with an open neighbour. */
  lemma VisitDone(g0: Maze, g: Maze, pos: Position, pushed: seq<Position>, s0: seq<Position>,
                  region: set<Position>)
    requires Visiting(g0, g, pos, pushed, [], region) && s0 <= pushed
    ensures OnlyMarks(g0, g, pos) && ClosedAfter(g0, g, pos)
    ensures InGrid(g, pos) && At(g, pos) == Visited
    ensures forall i :: 0 <= i < |s0| ==> InGrid(g, s0[i]) && At(g, s0[i]) == Visited
    ensures forall q :: InGrid(g0, q) && Touched(g0, g, pos, q) ==> q in region
  {
    assert forall i :: 0 <= i < |s0| ==> s0[i] == pushed[i];
  }
}
