/** The stepwise breadth-first search engine as a class over mutable state:
    the `visited` matrix is an array written in place, the queue, parent map,
    depth map and tree-edge list are fields the methods reassign. Each method
    is proved against the pure transition system of module BFSSearch. */
module Engine {
  import opened GridModel
  import BFSSearch

  /** What `getState()` returns: copies of the search state, and the shortest
      path once the search has found the target. */
  datatype Snapshot = Snapshot(
    grid: Grid,
    visited: seq<seq<bool>>,
    current: Option<Coord>,
    queue: seq<Coord>,
    treeEdges: seq<BFSSearch.Edge>,
    found: bool,
    finished: bool,
    shortestPath: seq<Coord>)

  /** The visited set as a rows-by-cols matrix of flags. */
  function VisitedMatrix(rows: nat, cols: nat, v: set<Coord>): (m: seq<seq<bool>>)
    ensures |m| == rows
    ensures forall r :: 0 <= r < rows ==> |m[r]| == cols
    ensures forall r, c :: 0 <= r < rows && 0 <= c < cols ==> (m[r][c] <==> Coord(r, c) in v)
  {
    seq(rows, r => seq(cols, c => Coord(r, c) in v))
  }

  class BFSEngine {
    const grid: Grid
    const rows: nat
    const cols: nat
    const start: Option<Coord>
    const target: Option<Coord>

    /** `visited[r, c]` is set once the cell (r, c) has been discovered. */
    const visited: array2<bool>

    var queue: seq<Coord>
    var parentMap: map<Coord, Coord>
    var treeEdges: seq<BFSSearch.Edge>
    var current: Option<Coord>
    var found: bool
    var finished: bool
    var depths: map<Coord, nat>

    /** The set of cells whose `visited` flag is set. */
    ghost var seen: set<Coord>

    /** The engine's state as a value of the transition system. */
    ghost function State(): BFSSearch.SearchState
      reads this
    {
      BFSSearch.SearchState(queue, seen, parentMap, depths, treeEdges, current, found, finished)
    }

    /** The `visited` array holds exactly the flags of `seen`. */
    ghost predicate Mirrors()
      reads this, visited
    {
      forall r, c :: 0 <= r < visited.Length0 && 0 <= c < visited.Length1 ==> (visited[r, c] <==> Coord(r, c) in seen)
    }

    ghost predicate Valid()
      reads this, visited
    {
      && IsRect(grid) && rows == |grid| && cols == |grid[0]|
      && visited.Length0 == rows && visited.Length1 == cols
      && IsFirstOccurrence(grid, START, start) && IsFirstOccurrence(grid, TARGET, target)
      && BFSSearch.Inv(grid, start, target, State())
      && Mirrors()
    }

    /** `findNode`: the first cell holding `value` in row-major order, or
        None when there is none. */
    static method FindNode(g: Grid, value: int) returns (p: Option<Coord>)
      requires IsRect(g)
      ensures IsFirstOccurrence(g, value, p)
    {
      for r := 0 to |g|
        invariant forall r', c :: 0 <= r' < r && 0 <= c < |g[0]| ==> g[r'][c] != value
      {
        for c := 0 to |g[0]|
          invariant forall c' :: 0 <= c' < c ==> g[r][c'] != value
        {
          if g[r][c] == value {
            return Some(Coord(r, c));
          }
        }
      }
      return None;
    }

    /** A new engine: the start (if any) is the only queued and visited cell,
        at depth 0; nothing else is recorded. */
    constructor (g: Grid)
      requires IsRect(g)
      requires Contains(g, START) ==> Contains(g, TARGET)
      ensures Valid() && fresh(visited)
      ensures grid == g && rows == |g| && cols == |g[0]|
      ensures IsFirstOccurrence(g, START, start) && IsFirstOccurrence(g, TARGET, target)
      ensures State() == BFSSearch.Initial(start)
    {
      var st := FindNode(g, START);
      var tg := FindNode(g, TARGET);
      grid := g;
      rows := |g|;
      cols := |g[0]|;
      start := st;
      target := tg;
      queue := [];
      visited := new bool[|g|, |g[0]|]((r, c) => false);
      parentMap := map[];
      treeEdges := [];
      current := None;
      found := false;
      finished := false;
      depths := map[];
      seen := {};
      new;
      if st.Some? {
        var a := st.value;
        assert Contains(g, START) by {
          assert 0 <= a.r < |g| && 0 <= a.c < |g[0]| && g[a.r][a.c] == START;
        }
        queue := [a];
        visited[a.r, a.c] := true;
        seen := {a};
        depths := map[a := 0];
      }
      BFSSearch.InitialInv(g, st, tg);
    }

    /** `step()`: exactly one transition of the search, which keeps the
        invariant; BFSSearch.StepWhenDone, StepOnTarget and StepExpands
        describe it case by case. */
    method Step() returns (executed: bool)
      requires Valid()
      modifies this, visited
      ensures Valid()
      ensures (State(), executed) == BFSSearch.Step(grid, target, old(State()))
    {
      BFSSearch.InvShape(grid, start, target, State());
      BFSSearch.StepPreservesInv(grid, start, target, State());
      executed := Transition();
    }

    /** The body of `step()`, under only the facts it needs. */
    method Transition() returns (executed: bool)
      requires IsRect(grid) && rows == |grid| && cols == |grid[0]|
      requires visited.Length0 == rows && visited.Length1 == cols
      requires BFSSearch.Shape(target, State()) && Mirrors()
      modifies this, visited
      ensures Mirrors()
      ensures (State(), executed) == BFSSearch.Step(grid, target, old(State()))
    {
      ghost var s0 := State();
      if finished || |queue| == 0 {
        finished := true;
        return false;
      }
      var cur := queue[0];
      queue := queue[1..];
      current := Some(cur);
      if cur == target.value {
        found := true;
        finished := true;
        return true;
      }
      assert cur in s0.visited;
      ExpandNeighbors(cur);
      return true;
    }

    /** The neighbour loop of `step()`: the cells up, right, down and left of
        `cur`, in that order, each handled by VisitNeighbor. */
    method ExpandNeighbors(cur: Coord)
      requires IsRect(grid) && rows == |grid| && cols == |grid[0]|
      requires visited.Length0 == rows && visited.Length1 == cols
      requires cur in depths
      requires Mirrors()
      modifies this, visited
      ensures State() == BFSSearch.Expand(grid, old(State()), cur, |DR|)
      ensures Mirrors()
    {
      ghost var s1 := State();
      for i := 0 to |DR|
        invariant State() == BFSSearch.Expand(grid, s1, cur, i)
        invariant Mirrors()
      {
        var nr, nc := cur.r + DR[i], cur.c + DC[i];
        assert Coord(nr, nc) == Neighbor(cur, i);
        VisitNeighbor(cur, nr, nc);
      }
    }

    /** One iteration of the neighbour loop: the cell (nr, nc), when it passes
        `isValid` and is not yet visited, is marked visited, queued, linked
        to `cur` and recorded one layer below it with a tree edge. */
    method VisitNeighbor(cur: Coord, nr: int, nc: int)
      requires IsRect(grid) && rows == |grid| && cols == |grid[0]|
      requires visited.Length0 == rows && visited.Length1 == cols
      requires cur in depths
      requires Mirrors()
      modifies this, visited
      ensures State() == BFSSearch.Discover(grid, old(State()), cur, Coord(nr, nc))
      ensures Mirrors()
    {
      ghost var n := Coord(nr, nc);
      if IsValid(grid, nr, nc) && !visited[nr, nc] {
        assert n !in seen;
        visited[nr, nc] := true;
        seen := seen + {n};
        queue := queue + [Coord(nr, nc)];
        parentMap := parentMap[Coord(nr, nc) := cur];
        var currentDepth := depths[cur];
        depths := depths[Coord(nr, nc) := currentDepth + 1];
        treeEdges := treeEdges + [BFSSearch.Edge(cur, Coord(nr, nc), currentDepth + 1)];
      } else {
        assert !Open(grid, n) || n in seen;
      }
    }

    /** `getShortestPath()`: the parent chain from the target back to the
        start, reversed; empty unless the target was found. */
    method GetShortestPath() returns (path: seq<Coord>)
      requires Valid()
      ensures path == BFSSearch.ShortestPath(grid, start, target, State())
    {
      if !found {
        return [];
      }
      BFSSearch.ShortestPathChain(grid, start, target, State());
      path := TraceBack(parentMap, start.value, target.value, BFSSearch.ShortestPath(grid, start, target, State()));
    }

    /** The loop of `getShortestPath()`: collect x and its ancestors through
        `parent` until the start a has been collected or a cell has no
        parent, then reverse. Along the chain P from a to x it returns P. */
    static method TraceBack(parent: map<Coord, Coord>, a: Coord, x: Coord, ghost P: seq<Coord>) returns (path: seq<Coord>)
      requires |P| > 0 && P[0] == a && P[|P| - 1] == x
      requires forall i :: 0 < i < |P| ==> P[i] != a && P[i] in parent && parent[P[i]] == P[i - 1]
      ensures path == P
    {
      ghost var D := |P| - 1;
      var acc: seq<Coord> := [];
      var curr := Some(x);
      while curr.Some?
        invariant |acc| <= D + 1
        invariant curr.Some? ==> |acc| <= D && curr.value == P[D - |acc|]
        invariant curr.None? ==> |acc| == D + 1
        invariant forall j :: 0 <= j < |acc| ==> acc[j] == P[D - j]
        decreases D + 1 - |acc|
      {
        acc := acc + [curr.value];
        if curr.value == a {
          assert |acc| == D + 1;
          break;
        }
        curr := if curr.value in parent then Some(parent[curr.value]) else None;
      }
      path := seq(|acc|, i requires 0 <= i < |acc| => acc[|acc| - 1 - i]);
      assert path == P;
    }

    /** `getState()`: a copy of the state; the shortest path is reported only
        once the search has finished by finding the target. */
    method GetState() returns (snap: Snapshot)
      requires Valid()
      ensures snap == Snapshot(grid, VisitedMatrix(rows, cols, seen), current, queue, treeEdges, found, finished,
                               if finished && found then BFSSearch.ShortestPath(grid, start, target, State()) else [])
    {
      var m := CopyVisited();
      var sp: seq<Coord> := [];
      if finished && found {
        sp := GetShortestPath();
      }
      snap := Snapshot(grid, m, current, queue, treeEdges, found, finished, sp);
    }

    /** The deep copy of `visited`, row by row. */
    method CopyVisited() returns (m: seq<seq<bool>>)
      requires visited.Length0 == rows && visited.Length1 == cols && Mirrors()
      ensures m == VisitedMatrix(rows, cols, seen)
    {
      m := [];
      for r := 0 to rows
        invariant |m| == r
        invariant forall i :: 0 <= i < r ==> |m[i]| == cols
        invariant forall i, c :: 0 <= i < r && 0 <= c < cols ==> (m[i][c] <==> Coord(i, c) in seen)
      {
        var row: seq<bool> := [];
        for c := 0 to cols
          invariant |row| == c
          invariant forall j :: 0 <= j < c ==> (row[j] <==> Coord(r, j) in seen)
        {
          row := row + [visited[r, c]];
        }
        m := m + [row];
      }
      assert forall i | 0 <= i < rows :: m[i] == VisitedMatrix(rows, cols, seen)[i];
    }
  }
}
