/** The statistics view's counts over a snapshot: the visited flags it
    counts and the tree nodes it derives from the tree edges. */
module Stats {
  import opened GridModel
  import BFSSearch
  import opened Engine

  /** The number of set flags in a row, and in a matrix row by row: what the
      statistics view counts as visited cells. */
  function CountRow(row: seq<bool>): nat {
    if |row| == 0 then 0 else CountRow(row[..|row| - 1]) + (if row[|row| - 1] then 1 else 0)
  }

  function CountTrue(m: seq<seq<bool>>): nat {
    if |m| == 0 then 0 else CountTrue(m[..|m| - 1]) + CountRow(m[|m| - 1])
  }

  lemma {:induction false} CountRowCells(row: seq<bool>, r: int, v: set<Coord>, k: nat)
    requires k <= |row| && forall c :: 0 <= c < |row| ==> (row[c] <==> Coord(r, c) in v)
    ensures CountRow(row[..k]) == |set x | x in v && x.r == r && 0 <= x.c < k|
  {
    if k > 0 {
      CountRowCells(row, r, v, k - 1);
      assert row[..k][..k - 1] == row[..k - 1];
      var below := set x | x in v && x.r == r && 0 <= x.c < k - 1;
      if row[k - 1] {
        assert (set x | x in v && x.r == r && 0 <= x.c < k) == below + {Coord(r, k - 1)};
      } else {
        assert (set x | x in v && x.r == r && 0 <= x.c < k) == below;
      }
    }
  }

  lemma {:induction false} CountMatrixCells(m: seq<seq<bool>>, cols: nat, v: set<Coord>, k: nat)
    requires k <= |m| && m == VisitedMatrix(|m|, cols, v)
    ensures CountTrue(m[..k]) == |set x | x in v && 0 <= x.r < k && 0 <= x.c < cols|
  {
    if k > 0 {
      CountMatrixCells(m, cols, v, k - 1);
      assert m[..k][..k - 1] == m[..k - 1];
      CountRowCells(m[k - 1], k - 1, v, cols);
      assert m[k - 1][..cols] == m[k - 1];
      var above := set x | x in v && 0 <= x.r < k - 1 && 0 <= x.c < cols;
      var row := set x | x in v && x.r == k - 1 && 0 <= x.c < cols;
      assert (set x | x in v && 0 <= x.r < k && 0 <= x.c < cols) == above + row;
      assert above !! row;
    }
  }

  /** Counting the flags of the visited matrix counts the visited cells. */
  lemma VisitedCount(rows: nat, cols: nat, v: set<Coord>)
    requires forall x :: x in v ==> 0 <= x.r < rows && 0 <= x.c < cols
    ensures CountTrue(VisitedMatrix(rows, cols, v)) == |v|
  {
    var m := VisitedMatrix(rows, cols, v);
    CountMatrixCells(m, cols, v, rows);
    assert m[..rows] == m;
    assert (set x | x in v && 0 <= x.r < rows && 0 <= x.c < cols) == v;
  }

  /** The statistics view's two counts: when the grid has a start, the
      visited cells of a snapshot number one more than the tree edges (the
      start is the root of the tree), so "Nodes Visited" and "Tree Nodes"
      agree. Without a start the view shows 0 visited nodes but 1 tree node,
      since no cell is visited and there are no edges. */
  lemma VisitedCellsAreTreeNodes(g: Grid, st: Option<Coord>, tg: Option<Coord>, s: BFSSearch.SearchState)
    requires BFSSearch.Inv(g, st, tg, s)
    ensures st.Some? ==> CountTrue(VisitedMatrix(|g|, |g[0]|, s.visited)) == |s.edges| + 1
    ensures st.None? ==> CountTrue(VisitedMatrix(|g|, |g[0]|, s.visited)) == 0 && |s.edges| == 0
  {
    forall x | x in s.visited ensures 0 <= x.r < |g| && 0 <= x.c < |g[0]| {
      assert Open(g, x);
    }
    VisitedCount(|g|, |g[0]|, s.visited);
  }
}
