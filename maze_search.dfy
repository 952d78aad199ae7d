/** The search engine on generated mazes: the carved walk guarantees that a
    search run to completion finds the target, except in the 3-by-3 maze,
    where the target overwrites the start. */
module MazeSearch {
  import opened GridModel
  import BFSSearch
  import opened Engine
  import opened MazeGenerator

  /** On a maze larger than 3 by 3, `findNode` finds the start at (1, 1)
      and the target at (rows - 2, cols - 2). */
  lemma MazeEndpoints(rows: nat, cols: nat, walls: seq<seq<bool>>, moves: seq<bool>)
    requires rows >= 3 && cols >= 3 && WallOracle(rows, cols, walls) && !(rows == 3 && cols == 3)
    ensures var m := Maze(rows, cols, walls, moves);
      && IsRect(m) && Contains(m, START) && Contains(m, TARGET)
      && IsFirstOccurrence(m, START, Some(StartCell()))
      && IsFirstOccurrence(m, TARGET, Some(TargetCell(rows, cols)))
  {
    var m := Maze(rows, cols, walls, moves);
    assert m[1][1] == START;
    assert m[rows - 2][cols - 2] == TARGET;
  }

  /** The 3-by-3 maze holds no start, so the engine starts with an empty
      queue and its first step reports false without finding anything. */
  lemma Maze3x3(walls: seq<seq<bool>>, moves: seq<bool>)
    requires WallOracle(3, 3, walls)
    ensures var m := Maze(3, 3, walls, moves);
      && IsRect(m) && !Contains(m, START) && IsFirstOccurrence(m, START, None)
      && BFSSearch.Step(m, Some(TargetCell(3, 3)), BFSSearch.Initial(None)) == (BFSSearch.Initial(None).(finished := true), false)
  {
  }

  /** On a maze larger than 3 by 3, every finished search has found the
      target: the walker's route is a walk from start to target, and an
      exhausted search leaves no such walk. */
  lemma MazeAlwaysFound(rows: nat, cols: nat, walls: seq<seq<bool>>, moves: seq<bool>, s: BFSSearch.SearchState)
    requires rows >= 3 && cols >= 3 && WallOracle(rows, cols, walls) && !(rows == 3 && cols == 3)
    requires CountMoves(moves, true) >= rows - 3 && CountMoves(moves, false) >= cols - 3
    requires BFSSearch.Inv(Maze(rows, cols, walls, moves), Some(StartCell()), Some(TargetCell(rows, cols)), s)
    requires s.finished
    ensures s.found
  {
    var m := Maze(rows, cols, walls, moves);
    if !s.found {
      MazeCarved(rows, cols, walls, moves);
      BFSSearch.ExhaustedMeansUnreachable(m, Some(StartCell()), Some(TargetCell(rows, cols)), s);
    }
  }

  /** The state reached by calling `step()` until it reports false. Every
      state it passes through keeps the invariant, and it ends finished. */
  ghost function Run(g: Grid, st: Option<Coord>, tg: Option<Coord>, s: BFSSearch.SearchState): (r: BFSSearch.SearchState)
    requires BFSSearch.Inv(g, st, tg, s)
    ensures BFSSearch.Inv(g, st, tg, r) && r.finished
    decreases BFSSearch.Measure(g, s)
  {
    BFSSearch.InvShape(g, st, tg, s);
    BFSSearch.StepPreservesInv(g, st, tg, s);
    BFSSearch.StepDecreases(g, tg, s);
    var next := BFSSearch.Step(g, tg, s);
    if next.1 then Run(g, st, tg, next.0) else next.0
  }

  /** The app's search loop: call `step()` until it reports false. It
      always terminates, in the state Run reaches from the old
      one, which is finished. */
  method RunToCompletion(e: BFSEngine)
    requires e.Valid()
    modifies e, e.visited
    ensures e.Valid() && e.finished
    ensures e.State() == Run(e.grid, e.start, e.target, old(e.State()))
  {
    ghost var s0 := e.State();
    var more := true;
    while more
      invariant e.Valid() && (!more ==> e.finished)
      invariant more ==> Run(e.grid, e.start, e.target, e.State()) == Run(e.grid, e.start, e.target, s0)
      invariant !more ==> e.State() == Run(e.grid, e.start, e.target, s0)
      decreases if more then BFSSearch.Measure(e.grid, e.State()) + 1 else 0
    {
      ghost var s := e.State();
      BFSSearch.InvShape(e.grid, e.start, e.target, s);
      BFSSearch.StepDecreases(e.grid, e.target, s);
      more := e.Step();
    }
  }

  /** A new maze, a new engine on it, the search run to completion and the
      shortest path read off: the target is always found, and the path is a
      shortest walk from the start to the target. */
  method SolveMaze(rows: nat, cols: nat, walls: seq<seq<bool>>, moves: seq<bool>) returns (grid: Grid, found: bool, path: seq<Coord>)
    requires rows >= 3 && cols >= 3 && WallOracle(rows, cols, walls) && !(rows == 3 && cols == 3)
    requires CountMoves(moves, true) >= rows - 3 && CountMoves(moves, false) >= cols - 3
    ensures grid == Maze(rows, cols, walls, moves)
    ensures found
    ensures WalkBetween(grid, path, StartCell(), TargetCell(rows, cols))
    ensures forall p :: WalkBetween(grid, p, StartCell(), TargetCell(rows, cols)) ==> |path| <= |p|
  {
    grid := GenerateRandomMaze(rows, cols, walls, moves);
    MazeEndpoints(rows, cols, walls, moves);
    var e := new BFSEngine(grid);
    FirstOccurrenceUnique(grid, START, e.start, Some(StartCell()));
    FirstOccurrenceUnique(grid, TARGET, e.target, Some(TargetCell(rows, cols)));
    RunToCompletion(e);
    MazeAlwaysFound(rows, cols, walls, moves, e.State());
    found := e.found;
    path := e.GetShortestPath();
  }
}
