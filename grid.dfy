/** The grid model shared by the search engine and the maze generator:
    cell kinds, coordinates, the open-cell graph with its four-neighbour
    adjacency, and walks through it. */
module GridModel {

  datatype Option<T> = None | Some(value: T)

  /** Cell kinds as the grid stores them. */
  const FREE := 0
  const WALL := 1
  const START := 2
  const TARGET := 3

  /** A cell coordinate: row and column. */
  datatype Coord = Coord(r: int, c: int)

  /** A grid is a matrix of cell kinds, row by row. */
  type Grid = seq<seq<int>>

  /** Non-empty, and every row as long as the first (the engine reads the
      column count from row 0). */
  predicate IsRect(g: Grid) {
    |g| > 0 && forall i :: 0 <= i < |g| ==> |g[i]| == |g[0]|
  }

  predicate InBounds(g: Grid, p: Coord)
    requires IsRect(g)
  {
    0 <= p.r < |g| && 0 <= p.c < |g[0]|
  }

  /** The engine's `isValid`: inside the grid and not a wall. */
  predicate IsValid(g: Grid, r: int, c: int)
    requires IsRect(g)
  {
    0 <= r < |g| && 0 <= c < |g[0]| && g[r][c] != WALL
  }

  predicate Open(g: Grid, p: Coord)
    requires IsRect(g)
  {
    IsValid(g, p.r, p.c)
  }

  /** Four-neighbour adjacency: the cells differ by one in exactly one coordinate. */
  predicate Adjacent(a: Coord, b: Coord) {
    || (a.r == b.r && (a.c == b.c + 1 || a.c + 1 == b.c))
    || (a.c == b.c && (a.r == b.r + 1 || a.r + 1 == b.r))
  }

  /** A walk: a non-empty sequence of open cells, each adjacent to the next.
      It has |p| - 1 edges. */
  predicate IsWalk(g: Grid, p: seq<Coord>)
    requires IsRect(g)
  {
    && |p| > 0
    && (forall i :: 0 <= i < |p| ==> Open(g, p[i]))
    && (forall i :: 0 <= i < |p| - 1 ==> Adjacent(p[i], p[i + 1]))
  }

  predicate WalkBetween(g: Grid, p: seq<Coord>, a: Coord, b: Coord)
    requires IsRect(g)
  {
    IsWalk(g, p) && p[0] == a && p[|p| - 1] == b
  }

  /** Some cell of the grid holds `v`. */
  predicate Contains(g: Grid, v: int)
    requires IsRect(g)
  {
    exists r, c :: 0 <= r < |g| && 0 <= c < |g[0]| && g[r][c] == v
  }

  /** `p` is the first cell holding `v` in row-major order, or None when no
      cell holds `v`. */
  predicate IsFirstOccurrence(g: Grid, v: int, p: Option<Coord>)
    requires IsRect(g)
  {
    match p
    case None =>
      forall r, c :: 0 <= r < |g| && 0 <= c < |g[0]| ==> g[r][c] != v
    case Some(q) =>
      && InBounds(g, q) && g[q.r][q.c] == v
      && forall r, c :: 0 <= r < |g| && 0 <= c < |g[0]| && (r < q.r || (r == q.r && c < q.c)) ==> g[r][c] != v
  }

  /** Row and column offsets of the four neighbours, in scan order:
      up, right, down, left. */
  const DR: seq<int> := [-1, 0, 1, 0]
  const DC: seq<int> := [0, 1, 0, -1]

  /** The i-th neighbour of p in scan order. */
  function Neighbor(p: Coord, i: int): (n: Coord)
    requires 0 <= i < 4
    ensures Adjacent(p, n)
  {
    Coord(p.r + DR[i], p.c + DC[i])
  }

  /** Every adjacent cell is one of the four neighbours in the scan. */
  function DirectionTo(a: Coord, b: Coord): (i: int)
    requires Adjacent(a, b)
    ensures 0 <= i < 4 && Neighbor(a, i) == b
  {
    if b.r == a.r - 1 then 0
    else if b.c == a.c + 1 then 1
    else if b.r == a.r + 1 then 2
    else 3
  }

  /** A grid has only one first occurrence of each value. */
  lemma FirstOccurrenceUnique(g: Grid, v: int, p: Option<Coord>, q: Option<Coord>)
    requires IsRect(g) && IsFirstOccurrence(g, v, p) && IsFirstOccurrence(g, v, q)
    ensures p == q
  { }
}
