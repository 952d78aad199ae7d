/** `generateRandomMaze`: a rows-by-cols grid with a wall border, random
    interior walls, the start at (1, 1), the target at (rows - 2, cols - 2),
    and a walk from start to target carved free. The two sources of
    randomness are inputs: `walls[r][c]` says whether the interior cell
    (r, c) starts as a wall, and `moves[k]` whether the walker's k-th move
    is a row move (otherwise a column move). */
module MazeGenerator {
  import opened GridModel

  function StartCell(): Coord {
    Coord(1, 1)
  }

  function TargetCell(rows: int, cols: int): Coord {
    Coord(rows - 2, cols - 2)
  }

  predicate OnBorder(rows: int, cols: int, r: int, c: int) {
    r == 0 || r == rows - 1 || c == 0 || c == cols - 1
  }

  function Abs(x: int): nat {
    if x < 0 then -x else x
  }

  /** Manhattan distance. */
  function Dist(p: Coord, q: Coord): nat {
    Abs(p.r - q.r) + Abs(p.c - q.c)
  }

  /** One move of the walker towards tg: a row move steps the row one
      closer to tg's row, a column move the column; an axis that is already
      aligned does not move. */
  function Advance(p: Coord, tg: Coord, rowMove: bool): (q: Coord)
    ensures q == p || Adjacent(p, q)
    ensures Dist(q, tg) <= Dist(p, tg)
    ensures (rowMove && p.r != tg.r) || (!rowMove && p.c != tg.c) ==> Dist(q, tg) + 1 == Dist(p, tg)
    ensures (rowMove && p.r == tg.r) || (!rowMove && p.c == tg.c) ==> q == p
    ensures rowMove ==> q.c == p.c
    ensures !rowMove ==> q.r == p.r
    ensures p.r <= tg.r && p.c <= tg.c ==> p.r <= q.r <= tg.r && p.c <= q.c <= tg.c
  {
    if rowMove then
      if p.r < tg.r then p.(r := p.r + 1) else if p.r > tg.r then p.(r := p.r - 1) else p
    else
      if p.c < tg.c then p.(c := p.c + 1) else if p.c > tg.c then p.(c := p.c - 1) else p
  }

  /** The walker, started at p and driven by ms, stands on tg before the
      moves run out. */
  predicate Reaches(p: Coord, tg: Coord, ms: seq<bool>)
    decreases |ms|
  {
    p == tg || (|ms| > 0 && Reaches(Advance(p, tg, ms[0]), tg, ms[1..]))
  }

  /** The cells the walker stands on before reaching tg, one per iteration
      of the walk loop (a move along an aligned axis repeats a cell). */
  function Trail(p: Coord, tg: Coord, ms: seq<bool>): (t: seq<Coord>)
    ensures |t| <= |ms|
    ensures forall i :: 0 <= i < |t| ==> t[i] != tg
    ensures p != tg && |ms| > 0 ==> |t| > 0 && t[0] == p
    ensures p.r <= tg.r && p.c <= tg.c ==>
      forall i :: 0 <= i < |t| ==> p.r <= t[i].r <= tg.r && p.c <= t[i].c <= tg.c
    decreases |ms|
  {
    if p == tg || |ms| == 0 then [] else [p] + Trail(Advance(p, tg, ms[0]), tg, ms[1..])
  }

  /** How many of the moves are row moves (b) or column moves (!b). */
  function CountMoves(ms: seq<bool>, b: bool): (n: nat)
    ensures n <= |ms|
  {
    if |ms| == 0 then 0 else (if ms[0] == b then 1 else 0) + CountMoves(ms[1..], b)
  }

  /** The walk reaches its target exactly when the oracle supplies enough
      row moves for the row distance and enough column moves for the column
      distance; the order does not matter. */
  lemma {:induction false} ReachesIff(p: Coord, tg: Coord, ms: seq<bool>)
    ensures Reaches(p, tg, ms) <==> CountMoves(ms, true) >= Abs(tg.r - p.r) && CountMoves(ms, false) >= Abs(tg.c - p.c)
    decreases |ms|
  {
    if p != tg && |ms| > 0 {
      ReachesIff(Advance(p, tg, ms[0]), tg, ms[1..]);
    }
  }

  /** The trail with repeated cells dropped, ending where the walker stops:
      consecutive cells are adjacent, and every cell is on the trail or is
      the last. When the walk reaches tg, this is a walk from p to tg. */
  function Route(p: Coord, tg: Coord, ms: seq<bool>): (w: seq<Coord>)
    ensures |w| > 0 && w[0] == p
    ensures forall i :: 0 <= i < |w| - 1 ==> Adjacent(w[i], w[i + 1])
    ensures forall i :: 0 <= i < |w| - 1 ==> w[i] in Trail(p, tg, ms)
    ensures Reaches(p, tg, ms) ==> w[|w| - 1] == tg
    decreases |ms|
  {
    if p == tg || |ms| == 0 then [p]
    else
      var q := Advance(p, tg, ms[0]);
      var w' := Route(q, tg, ms[1..]);
      if q == p then w' else [p] + w'
  }

  /** The value the fill loop gives to (r, c): a wall on the border, else a
      wall exactly when the oracle says so. */
  function FillCell(rows: int, cols: int, walls: seq<seq<bool>>, r: int, c: int): (v: int)
    requires 0 <= r < |walls| && 0 <= c < |walls[r]|
    ensures v == WALL || v == FREE
    ensures v == FREE <==> !OnBorder(rows, cols, r, c) && !walls[r][c]
  {
    if OnBorder(rows, cols, r, c) then WALL else if walls[r][c] then WALL else FREE
  }

  /** The value of (r, c) once the cells of `trail` have been carved: the
      target, the start, a carved cell, or what the fill loop left. */
  function MazeCell(rows: int, cols: int, walls: seq<seq<bool>>, trail: seq<Coord>, r: int, c: int): (v: int)
    requires 0 <= r < |walls| && 0 <= c < |walls[r]|
    ensures FREE <= v <= TARGET
    ensures v == TARGET <==> Coord(r, c) == TargetCell(rows, cols)
    ensures v == START <==> Coord(r, c) == StartCell() && Coord(r, c) != TargetCell(rows, cols)
    ensures Coord(r, c) in trail && Coord(r, c) != StartCell() && Coord(r, c) != TargetCell(rows, cols) ==> v == FREE
  {
    if Coord(r, c) == TargetCell(rows, cols) then TARGET
    else if Coord(r, c) == StartCell() then START
    else if Coord(r, c) in trail then FREE
    else FillCell(rows, cols, walls, r, c)
  }

  /** The oracle for the interior walls has a flag for every cell. */
  predicate WallOracle(rows: int, cols: int, walls: seq<seq<bool>>) {
    |walls| == rows && forall r :: 0 <= r < rows ==> |walls[r]| == cols
  }

  /** The grid `generateRandomMaze` returns for the given oracles: rows by
      cols, walls all round the border, only cell values 0 to 3, the target
      at (rows - 2, cols - 2) and nowhere else, the start at (1, 1) and
      nowhere else unless the target overwrote it (3 by 3), and every
      interior cell the walk did not touch as the wall oracle left it. */
  function Maze(rows: nat, cols: nat, walls: seq<seq<bool>>, moves: seq<bool>): (m: Grid)
    requires rows >= 3 && cols >= 3 && WallOracle(rows, cols, walls)
    ensures |m| == rows && forall r :: 0 <= r < rows ==> |m[r]| == cols
    ensures forall r, c :: 0 <= r < rows && 0 <= c < cols ==> FREE <= m[r][c] <= TARGET
    ensures forall r, c :: 0 <= r < rows && 0 <= c < cols && OnBorder(rows, cols, r, c) ==> m[r][c] == WALL
    ensures m[rows - 2][cols - 2] == TARGET
    ensures m[1][1] == if rows == 3 && cols == 3 then TARGET else START
    ensures forall r, c :: 0 <= r < rows && 0 <= c < cols ==> (m[r][c] == TARGET <==> Coord(r, c) == TargetCell(rows, cols))
    ensures forall r, c :: 0 <= r < rows && 0 <= c < cols ==>
      (m[r][c] == START <==> Coord(r, c) == StartCell() && !(rows == 3 && cols == 3))
    ensures var t := Trail(StartCell(), TargetCell(rows, cols), moves);
      forall r, c :: 0 < r < rows - 1 && 0 < c < cols - 1 && Coord(r, c) !in t
                     && Coord(r, c) != StartCell() && Coord(r, c) != TargetCell(rows, cols) ==>
        m[r][c] == if walls[r][c] then WALL else FREE
  {
    var trail := Trail(StartCell(), TargetCell(rows, cols), moves);
    var m := seq(rows, r requires 0 <= r < rows => seq(cols, c requires 0 <= c < cols => MazeCell(rows, cols, walls, trail, r, c)));
    CarvedShape(rows, cols, walls, trail, m);
    m
  }

  /** Any grid carved along an interior trail that avoids the target has
      the shape Maze promises. */
  lemma CarvedShape(rows: nat, cols: nat, walls: seq<seq<bool>>, t: seq<Coord>, m: Grid)
    requires rows >= 3 && cols >= 3 && WallOracle(rows, cols, walls)
    requires Carved(rows, cols, walls, t, m)
    requires forall i :: 0 <= i < |t| ==> t[i] != TargetCell(rows, cols) && 1 <= t[i].r <= rows - 2 && 1 <= t[i].c <= cols - 2
    ensures |m| == rows && forall r :: 0 <= r < rows ==> |m[r]| == cols
    ensures forall r, c :: 0 <= r < rows && 0 <= c < cols ==> FREE <= m[r][c] <= TARGET
    ensures forall r, c :: 0 <= r < rows && 0 <= c < cols && OnBorder(rows, cols, r, c) ==> m[r][c] == WALL
    ensures m[rows - 2][cols - 2] == TARGET
    ensures m[1][1] == if rows == 3 && cols == 3 then TARGET else START
    ensures forall r, c :: 0 <= r < rows && 0 <= c < cols ==> (m[r][c] == TARGET <==> Coord(r, c) == TargetCell(rows, cols))
    ensures forall r, c :: 0 <= r < rows && 0 <= c < cols ==>
      (m[r][c] == START <==> Coord(r, c) == StartCell() && !(rows == 3 && cols == 3))
    ensures forall r, c ::
      (0 < r < rows - 1 && 0 < c < cols - 1 && Coord(r, c) !in t && Coord(r, c) != StartCell() && Coord(r, c) != TargetCell(rows, cols)) ==>
        m[r][c] == if walls[r][c] then WALL else FREE
  {
  }

  /** A cell the walker stands on lies inside the border and ends free,
      or as the start. */
  lemma MazeTrailCell(rows: nat, cols: nat, walls: seq<seq<bool>>, moves: seq<bool>, x: Coord)
    requires rows >= 3 && cols >= 3 && WallOracle(rows, cols, walls)
    requires x in Trail(StartCell(), TargetCell(rows, cols), moves)
    ensures 1 <= x.r <= rows - 2 && 1 <= x.c <= cols - 2
    ensures Maze(rows, cols, walls, moves)[x.r][x.c] in {FREE, START}
  {
    var t := Trail(StartCell(), TargetCell(rows, cols), moves);
    var i :| 0 <= i < |t| && t[i] == x;
    assert Maze(rows, cols, walls, moves)[x.r][x.c] == MazeCell(rows, cols, walls, t, x.r, x.c);
  }

  /** A sequence of adjacent cells from a to b whose cells before the last
      are all open cells of t, and whose last cell is open, is a walk. */
  lemma WalkThrough(g: Grid, w: seq<Coord>, t: seq<Coord>, a: Coord, b: Coord)
    requires IsRect(g) && |w| > 0 && w[0] == a && w[|w| - 1] == b && Open(g, b)
    requires forall i :: 0 <= i < |w| - 1 ==> Adjacent(w[i], w[i + 1])
    requires forall i :: 0 <= i < |w| - 1 ==> w[i] in t
    requires forall i :: 0 <= i < |t| ==> Open(g, t[i])
    ensures WalkBetween(g, w, a, b)
  {
    forall i | 0 <= i < |w| ensures Open(g, w[i]) {
      if i < |w| - 1 {
        var j :| 0 <= j < |t| && t[j] == w[i];
      }
    }
  }

  /** The carving: every cell the walker stands on ends free (or as the
      start), so the walker's route is a walk of non-wall cells from the
      start to the target. */
  lemma MazeCarved(rows: nat, cols: nat, walls: seq<seq<bool>>, moves: seq<bool>)
    requires rows >= 3 && cols >= 3 && WallOracle(rows, cols, walls)
    requires CountMoves(moves, true) >= rows - 3 && CountMoves(moves, false) >= cols - 3
    ensures var m, t := Maze(rows, cols, walls, moves), Trail(StartCell(), TargetCell(rows, cols), moves);
      forall i :: 0 <= i < |t| ==> 0 <= t[i].r < rows && 0 <= t[i].c < cols && m[t[i].r][t[i].c] in {FREE, START}
    ensures WalkBetween(Maze(rows, cols, walls, moves), Route(StartCell(), TargetCell(rows, cols), moves), StartCell(), TargetCell(rows, cols))
  {
    var m, a, tg := Maze(rows, cols, walls, moves), StartCell(), TargetCell(rows, cols);
    var t := Trail(a, tg, moves);
    forall i | 0 <= i < |t| ensures 0 <= t[i].r < rows && 0 <= t[i].c < cols && m[t[i].r][t[i].c] in {FREE, START} {
      MazeTrailCell(rows, cols, walls, moves, t[i]);
    }
    ReachesIff(a, tg, moves);
    WalkThrough(m, Route(a, tg, moves), t, a, tg);
  }

  /** The fill loop, the placement of start and target, and the carving
      walk. The walk loop only ends when the walker reaches the target, so
      the move oracle must hold enough row and column moves. */
  method GenerateRandomMaze(rows: nat, cols: nat, walls: seq<seq<bool>>, moves: seq<bool>) returns (grid: Grid)
    requires rows >= 3 && cols >= 3
    requires WallOracle(rows, cols, walls)
    requires CountMoves(moves, true) >= rows - 3 && CountMoves(moves, false) >= cols - 3
    ensures grid == Maze(rows, cols, walls, moves)
  {
    grid := [];
    for r := 0 to rows
      invariant |grid| == r
      invariant forall i :: 0 <= i < r ==> |grid[i]| == cols
      invariant forall i, j :: 0 <= i < r && 0 <= j < cols ==> grid[i][j] == FillCell(rows, cols, walls, i, j)
    {
      var row: seq<int> := [];
      for c := 0 to cols
        invariant |row| == c
        invariant forall j :: 0 <= j < c ==> row[j] == FillCell(rows, cols, walls, r, j)
      {
        if r == 0 || r == rows - 1 || c == 0 || c == cols - 1 {
          row := row + [WALL];
        } else {
          row := row + [if walls[r][c] then WALL else FREE];
        }
      }
      grid := grid + [row];
    }
    var start := Coord(1, 1);
    grid := grid[start.r := grid[start.r][start.c := START]];
    var target := Coord(rows - 2, cols - 2);
    grid := grid[target.r := grid[target.r][target.c := TARGET]];
    assert Carved(rows, cols, walls, [], grid);
    grid := CarveWalk(rows, cols, walls, moves, grid);
    grid := grid[target.r := grid[target.r][target.c := TARGET]];
    assert forall r | 0 <= r < rows :: grid[r] == Maze(rows, cols, walls, moves)[r];
  }

  /** g is rows by cols and holds the maze carved along `done`. */
  ghost predicate Carved(rows: nat, cols: nat, walls: seq<seq<bool>>, done: seq<Coord>, g: Grid)
    requires WallOracle(rows, cols, walls)
  {
    && |g| == rows && (forall i :: 0 <= i < rows ==> |g[i]| == cols)
    && forall i, j :: 0 <= i < rows && 0 <= j < cols ==> g[i][j] == MazeCell(rows, cols, walls, done, i, j)
  }

  /** The state of the walk loop after k iterations, with the walker on
      `curr` and the cells `done` carved: the walker is inside the border,
      can still reach the target with the moves left, and `done` followed
      by the rest of its walk is the whole trail. */
  ghost predicate Walking(rows: nat, cols: nat, walls: seq<seq<bool>>, moves: seq<bool>, k: int, curr: Coord,
                          done: seq<Coord>, g: Grid)
    requires rows >= 3 && cols >= 3 && WallOracle(rows, cols, walls)
  {
    && 0 <= k <= |moves|
    && 1 <= curr.r <= rows - 2 && 1 <= curr.c <= cols - 2
    && Reaches(curr, TargetCell(rows, cols), moves[k..])
    && Trail(StartCell(), TargetCell(rows, cols), moves) == done + Trail(curr, TargetCell(rows, cols), moves[k..])
    && Carved(rows, cols, walls, done, g)
  }

  /** The walk loop: from the start, carve the walker's cell free (the start
      keeps its mark) and move it one step towards the target, until it
      stands on the target. */
  method CarveWalk(rows: nat, cols: nat, walls: seq<seq<bool>>, moves: seq<bool>, grid0: Grid) returns (grid: Grid)
    requires rows >= 3 && cols >= 3
    requires WallOracle(rows, cols, walls)
    requires CountMoves(moves, true) >= rows - 3 && CountMoves(moves, false) >= cols - 3
    requires Carved(rows, cols, walls, [], grid0)
    ensures Carved(rows, cols, walls, Trail(StartCell(), TargetCell(rows, cols), moves), grid)
  {
    var start, target := Coord(1, 1), Coord(rows - 2, cols - 2);
    ReachesIff(start, target, moves);
    grid := grid0;
    var curr := start;
    var k := 0;
    ghost var done: seq<Coord> := [];
    while curr.r != target.r || curr.c != target.c
      invariant Walking(rows, cols, walls, moves, k, curr, done, grid)
      decreases |moves| - k
    {
      WalkStep(rows, cols, walls, moves, k, curr, done, grid);
      grid := grid[curr.r := grid[curr.r][curr.c := if grid[curr.r][curr.c] == START then START else FREE]];
      done := done + [curr];
      curr := MoveTowards(curr, target, moves[k]);
      k := k + 1;
    }
    assert Trail(curr, target, moves[k..]) == [];
    assert done == Trail(start, target, moves);
  }

  /** The move of the walk loop: a row move or a column move, one step
      towards the target, or none along an aligned axis. */
  method MoveTowards(curr: Coord, target: Coord, rowMove: bool) returns (next: Coord)
    ensures next == Advance(curr, target, rowMove)
  {
    next := curr;
    if rowMove {
      if next.r < target.r {
        next := next.(r := next.r + 1);
      } else if next.r > target.r {
        next := next.(r := next.r - 1);
      }
    } else {
      if next.c < target.c {
        next := next.(c := next.c + 1);
      } else if next.c > target.c {
        next := next.(c := next.c - 1);
      }
    }
  }

  /** One iteration of the walk loop keeps its state. */
  lemma WalkStep(rows: nat, cols: nat, walls: seq<seq<bool>>, moves: seq<bool>, k: int, curr: Coord,
                 done: seq<Coord>, g: Grid)
    requires rows >= 3 && cols >= 3 && WallOracle(rows, cols, walls)
    requires Walking(rows, cols, walls, moves, k, curr, done, g) && curr != TargetCell(rows, cols)
    ensures k < |moves| && 0 <= curr.r < |g| && 0 <= curr.c < |g[curr.r]|
    ensures Walking(rows, cols, walls, moves, k + 1, Advance(curr, TargetCell(rows, cols), moves[k]), done + [curr],
                    g[curr.r := g[curr.r][curr.c := if g[curr.r][curr.c] == START then START else FREE]])
  {
    WalkOn(StartCell(), curr, TargetCell(rows, cols), moves, k, done);
    CarveCell(rows, cols, walls, done, g, curr, g[curr.r := g[curr.r][curr.c := if g[curr.r][curr.c] == START then START else FREE]]);
  }

  /** One iteration of the walk loop, on the trail and on reachability. */
  lemma WalkOn(start: Coord, p: Coord, tg: Coord, ms: seq<bool>, k: nat, done: seq<Coord>)
    requires k <= |ms| && p != tg && Reaches(p, tg, ms[k..])
    requires Trail(start, tg, ms) == done + Trail(p, tg, ms[k..])
    ensures k < |ms| && Reaches(Advance(p, tg, ms[k]), tg, ms[k + 1..])
    ensures Trail(start, tg, ms) == (done + [p]) + Trail(Advance(p, tg, ms[k]), tg, ms[k + 1..])
  {
    assert ms[k..][1..] == ms[k + 1..];
    var t := Trail(Advance(p, tg, ms[k]), tg, ms[k + 1..]);
    assert Trail(p, tg, ms[k..]) == [p] + t;
    assert done + ([p] + t) == (done + [p]) + t;
  }

  /** The carving write of the walk loop, on a grid carved along `done`, carves p too:
      the start keeps its mark and any other interior cell becomes free. */
  lemma CarveCell(rows: nat, cols: nat, walls: seq<seq<bool>>, done: seq<Coord>, g: Grid, p: Coord, g': Grid)
    requires rows >= 3 && cols >= 3 && WallOracle(rows, cols, walls)
    requires 1 <= p.r <= rows - 2 && 1 <= p.c <= cols - 2 && p != TargetCell(rows, cols)
    requires Carved(rows, cols, walls, done, g)
    requires g' == g[p.r := g[p.r][p.c := if g[p.r][p.c] == START then START else FREE]]
    ensures Carved(rows, cols, walls, done + [p], g')
  {
    forall i, j | 0 <= i < rows && 0 <= j < cols
      ensures g'[i][j] == MazeCell(rows, cols, walls, done + [p], i, j)
    {
      if Coord(i, j) != p {
        assert Coord(i, j) in done + [p] <==> Coord(i, j) in done;
      }
    }
  }
}
