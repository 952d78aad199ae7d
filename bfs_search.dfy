/** The breadth-first search of the engine as a transition system on values:
    the search state, the initial state, one `step`, and the invariant every
    reachable state keeps, with what follows from it (depths are shortest
    distances, the parent chain is a shortest walk, an exhausted search has
    visited everything reachable, and the search terminates). The class
    BFSEngine in module Engine is proved to follow these transitions exactly. */
module BFSSearch {
  import opened GridModel

  /** A discovery-tree edge, as recorded in `treeEdges`. */
  datatype Edge = Edge(from: Coord, to: Coord, depth: nat)

  /** The engine's search state; `visited` is the set of cells whose flag
      in the engine's 2-D visited array is true. */
  datatype SearchState = SearchState(
    queue: seq<Coord>,
    visited: set<Coord>,
    parent: map<Coord, Coord>,
    depth: map<Coord, nat>,
    edges: seq<Edge>,
    current: Option<Coord>,
    found: bool,
    finished: bool)

  /** The state right after construction, given the start cell found
      (or not) in the grid. */
  function Initial(start: Option<Coord>): (r: SearchState)
    ensures forall x :: x in r.visited <==> start == Some(x)
    ensures r.queue == (if start.Some? then [start.value] else [])
    ensures r.depth.Keys == r.visited && forall x :: x in r.depth ==> r.depth[x] == 0
    ensures r.parent == map[] && r.edges == [] && r.current == None && !r.found && !r.finished
  {
    match start
    case None => SearchState([], {}, map[], map[], [], None, false, false)
    case Some(a) => SearchState([a], {a}, map[], map[a := 0], [], None, false, false)
  }

  /** One iteration of the neighbour loop: `n` is discovered from `cur`
      when it is valid and not yet visited. */
  function Discover(g: Grid, s: SearchState, cur: Coord, n: Coord): (r: SearchState)
    requires IsRect(g) && cur in s.depth
    ensures s.visited <= r.visited && s.edges <= r.edges
    ensures n in s.visited || !Open(g, n) ==> r == s
    ensures n !in s.visited && Open(g, n) ==>
      && r.visited == s.visited + {n} && r.queue == s.queue + [n]
      && n in r.parent && r.parent[n] == cur && n in r.depth && r.depth[n] == s.depth[cur] + 1
  {
    if Open(g, n) && n !in s.visited then Added(s, cur, n, s.depth[cur] + 1) else s
  }

  /** `n` marked visited, queued, linked to `cur` and recorded at depth d. */
  function Added(s: SearchState, cur: Coord, n: Coord, d: nat): SearchState {
    s.(visited := s.visited + {n}, queue := s.queue + [n], parent := s.parent[n := cur],
       depth := s.depth[n := d], edges := s.edges + [Edge(cur, n, d)])
  }

  /** The first k iterations of the neighbour loop over `cur`. */
  function Expand(g: Grid, s: SearchState, cur: Coord, k: nat): (r: SearchState)
    requires IsRect(g) && cur in s.depth && k <= 4
    ensures cur in r.depth && r.depth[cur] == s.depth[cur]
    decreases k
  {
    if k == 0 then s else Discover(g, Expand(g, s, cur, k - 1), cur, Neighbor(cur, k - 1))
  }

  /** `step()`: the new state and whether a step was executed. The target is
      only read when the queue is not empty. */
  function Step(g: Grid, tg: Option<Coord>, s: SearchState): (r: (SearchState, bool))
    requires IsRect(g)
    requires !s.finished && |s.queue| > 0 ==> tg.Some? && s.queue[0] in s.depth
    ensures r.1 <==> !s.finished && |s.queue| > 0
    ensures r.1 ==> r.0.current == Some(s.queue[0])
    ensures r.0.found <==> s.found || (r.1 && s.queue[0] == tg.value)
  {
    if s.finished || |s.queue| == 0 then
      (s.(finished := true), false)
    else
      var cur := s.queue[0];
      var s1 := s.(queue := s.queue[1..], current := Some(cur));
      if cur == tg.value then (s1.(found := true, finished := true), true)
      else (Expand(g, s1, cur, |DR|), true)
  }

  // ---------------------------------------------------------------------
  // The invariant

  /** The engine's start and target agree with the grid; a start without a
      target is excluded (the engine would dereference a null target). */
  ghost predicate Config(g: Grid, st: Option<Coord>, tg: Option<Coord>) {
    && IsRect(g)
    && (st.Some? ==> InBounds(g, st.value) && g[st.value.r][st.value.c] == START && tg.Some?)
    && (tg.Some? ==> InBounds(g, tg.value) && g[tg.value.r][tg.value.c] == TARGET)
  }

  /** A visited cell that has left the queue and been expanded (the target,
      once found, is dequeued but not expanded). */
  ghost predicate Closed(s: SearchState, x: Coord) {
    x in s.visited && x !in s.queue && !(s.found && s.current == Some(x))
  }

  /** The i-th neighbour of x, if open, is visited at depth at most one more
      than x. */
  ghost predicate NeighborDone(g: Grid, s: SearchState, x: Coord, i: int)
    requires IsRect(g) && 0 <= i < 4
  {
    Open(g, Neighbor(x, i)) ==>
      Neighbor(x, i) in s.depth && x in s.depth && s.depth[Neighbor(x, i)] <= s.depth[x] + 1
  }

  ghost predicate NoStart(s: SearchState) {
    && s.queue == [] && s.visited == {} && s.parent == map[] && s.depth == map[]
    && s.edges == [] && s.current == None && !s.found
  }

  /** The discovery tree: every visited cell is open and has a depth, every
      visited cell but the start has a parent, adjacent to it and one layer
      above it. */
  ghost predicate Tree(g: Grid, a: Coord, s: SearchState)
    requires IsRect(g)
  {
    && a in s.visited && s.depth.Keys == s.visited && s.parent.Keys == s.visited - {a}
    && s.depth[a] == 0
    && (forall x :: x in s.visited ==> Open(g, x))
    && (forall x :: x in s.parent ==>
          s.parent[x] in s.visited && Adjacent(s.parent[x], x) && s.depth[x] == s.depth[s.parent[x]] + 1)
  }

  /** `treeEdges` lists each parent link once, with the child's depth; so
      there is one more visited cell than edges. */
  ghost predicate EdgesInv(s: SearchState) {
    && |s.visited| == |s.edges| + 1
    && (forall i :: 0 <= i < |s.edges| ==>
          && s.edges[i].to in s.parent && s.edges[i].to in s.depth
          && s.parent[s.edges[i].to] == s.edges[i].from && s.depth[s.edges[i].to] == s.edges[i].depth)
    && (forall i, j :: 0 <= i < j < |s.edges| ==> s.edges[i].to != s.edges[j].to)
  }

  /** Every queued cell is visited, and no cell is queued twice. */
  ghost predicate QueueInv(s: SearchState) {
    && (forall i :: 0 <= i < |s.queue| ==> s.queue[i] in s.visited && s.queue[i] in s.depth)
    && (forall i, j :: 0 <= i < j < |s.queue| ==> s.queue[i] != s.queue[j])
  }

  /** BFS layering: queue depths are non-decreasing and within one layer of
      the head; the last dequeued cell is no deeper than any queued cell, and
      no visited cell is more than one layer below it. */
  ghost predicate Layers(a: Coord, s: SearchState)
    requires QueueInv(s) && s.depth.Keys == s.visited
  {
    && (forall i, j :: 0 <= i <= j < |s.queue| ==>
          s.depth[s.queue[i]] <= s.depth[s.queue[j]] <= s.depth[s.queue[0]] + 1)
    && (s.current.None? ==> s.visited == {a} && s.queue == [a])
    && (s.current.Some? ==>
          && s.current.value in s.visited
          && (forall j :: 0 <= j < |s.queue| ==> s.depth[s.current.value] <= s.depth[s.queue[j]])
          && (forall x :: x in s.visited ==> s.depth[x] <= s.depth[s.current.value] + 1))
  }

  /** Every closed cell has had its neighbours dealt with, except that the
      cell `pending` (being expanded) has only had its first k. */
  ghost predicate ClosedDone(g: Grid, s: SearchState, pending: Option<Coord>, k: int)
    requires IsRect(g)
  {
    forall x, i :: Closed(s, x) && 0 <= i < 4 && !(pending == Some(x) && i >= k) ==> NeighborDone(g, s, x, i)
  }

  /** How the search ended, if it did. */
  ghost predicate Outcome(tg: Option<Coord>, s: SearchState) {
    && (s.found ==> s.finished && tg.Some? && s.current == tg)
    && (s.finished && !s.found ==> s.queue == [])
    && (tg.Some? && tg.value in s.visited && !s.found ==> tg.value in s.queue)
  }

  /** The invariant, also for the states in the middle of expanding `pending`
      after k of its neighbours. */
  ghost predicate InvAt(g: Grid, st: Option<Coord>, tg: Option<Coord>, s: SearchState, pending: Option<Coord>, k: int) {
    && Config(g, st, tg)
    && Outcome(tg, s)
    && (st.None? ==> NoStart(s) && pending.None?)
    && (st.Some? ==>
          && Tree(g, st.value, s)
          && EdgesInv(s)
          && QueueInv(s)
          && Layers(st.value, s)
          && ClosedDone(g, s, pending, k)
          && (pending.Some? ==>
                && s.current == pending && !s.found && !s.finished
                && pending.value in s.visited && pending.value !in s.queue))
  }

  /** The invariant of every state the engine can reach. */
  ghost predicate Inv(g: Grid, st: Option<Coord>, tg: Option<Coord>, s: SearchState) {
    InvAt(g, st, tg, s, None, 0)
  }

  // ---------------------------------------------------------------------
  // The invariant holds initially and is preserved by every step

  lemma InitialInv(g: Grid, st: Option<Coord>, tg: Option<Coord>)
    requires Config(g, st, tg)
    ensures Inv(g, st, tg, Initial(st))
  {
  }

  /** Dequeuing a non-target head starts its expansion. */
  lemma DequeueInv(g: Grid, st: Option<Coord>, tg: Option<Coord>, s: SearchState)
    requires Inv(g, st, tg, s) && !s.finished && |s.queue| > 0
    requires tg.Some? && s.queue[0] != tg.value
    ensures st.Some?
    ensures InvAt(g, st, tg, s.(queue := s.queue[1..], current := Some(s.queue[0])), Some(s.queue[0]), 0)
  {
    var a, c := st.value, s.queue[0];
    var s1 := s.(queue := s.queue[1..], current := Some(c));
    assert c in s.visited;
    // Layers
    forall x | x in s1.visited ensures s1.depth[x] <= s1.depth[c] + 1 {
      if s.current.Some? {
        assert s.depth[s.current.value] <= s.depth[s.queue[0]];
      } else {
        assert x == a && c == a;
      }
    }
    forall i, j | 0 <= i <= j < |s1.queue| ensures s1.depth[s1.queue[i]] <= s1.depth[s1.queue[j]] <= s1.depth[s1.queue[0]] + 1 {
      assert s1.queue[i] == s.queue[i + 1] && s1.queue[j] == s.queue[j + 1] && s1.queue[0] == s.queue[1];
      assert s.depth[s.queue[0]] <= s.depth[s.queue[1]];
    }
    forall j | 0 <= j < |s1.queue| ensures s1.depth[c] <= s1.depth[s1.queue[j]] {
      assert s1.queue[j] == s.queue[j + 1];
    }
    assert Layers(a, s1);
    // Closure
    forall x, i | Closed(s1, x) && 0 <= i < 4 && !(Some(c) == Some(x) && i >= 0) ensures NeighborDone(g, s1, x, i) {
      assert x != c;
      assert Closed(s, x);
      assert NeighborDone(g, s, x, i);
    }
    // Queue
    assert c !in s1.queue;
    // Outcome
    if tg.value in s.visited {
      assert tg.value in s.queue;
      assert tg.value in s1.queue;
    }
  }

  /** Dequeuing the target ends the search with found = true. */
  lemma FoundInv(g: Grid, st: Option<Coord>, tg: Option<Coord>, s: SearchState)
    requires Inv(g, st, tg, s) && !s.finished && |s.queue| > 0
    requires tg.Some? && s.queue[0] == tg.value
    ensures Inv(g, st, tg, s.(queue := s.queue[1..], current := Some(s.queue[0]), found := true, finished := true))
  {
    var a, c := st.value, s.queue[0];
    var s2 := s.(queue := s.queue[1..], current := Some(c), found := true, finished := true);
    assert c in s.visited;
    forall x | x in s2.visited ensures s2.depth[x] <= s2.depth[c] + 1 {
      if s.current.Some? {
        assert s.depth[s.current.value] <= s.depth[s.queue[0]];
      }
    }
    forall i, j | 0 <= i <= j < |s2.queue| ensures s2.depth[s2.queue[i]] <= s2.depth[s2.queue[j]] <= s2.depth[s2.queue[0]] + 1 {
      assert s2.queue[i] == s.queue[i + 1] && s2.queue[j] == s.queue[j + 1] && s2.queue[0] == s.queue[1];
      assert s.depth[s.queue[0]] <= s.depth[s.queue[1]];
    }
    forall j | 0 <= j < |s2.queue| ensures s2.depth[c] <= s2.depth[s2.queue[j]] {
      assert s2.queue[j] == s.queue[j + 1];
    }
    assert Layers(a, s2);
    forall x, i | Closed(s2, x) && 0 <= i < 4 ensures NeighborDone(g, s2, x, i) {
      assert x != c;
      assert Closed(s, x);
      assert NeighborDone(g, s, x, i);
    }
  }

  /** Discovering a fresh neighbour n of c extends the tree by one edge. */
  lemma DiscoverTree(g: Grid, a: Coord, s: SearchState, c: Coord, n: Coord)
    requires IsRect(g) && Tree(g, a, s) && EdgesInv(s) && c in s.visited && Adjacent(c, n)
    requires Open(g, n) && n !in s.visited
    ensures Tree(g, a, Discover(g, s, c, n)) && EdgesInv(Discover(g, s, c, n))
  {
    var s' := Discover(g, s, c, n);
    assert n != a && n != c;
    assert s'.parent.Keys == s'.visited - {a};
    forall x | x in s'.parent
      ensures s'.parent[x] in s'.visited && Adjacent(s'.parent[x], x) && s'.depth[x] == s'.depth[s'.parent[x]] + 1
    {
      if x != n {
        assert x in s.parent;
        assert s.parent[x] in s.visited;
      }
    }
    assert |s'.visited| == |s.visited| + 1;
    forall i | 0 <= i < |s'.edges|
      ensures && s'.edges[i].to in s'.parent && s'.edges[i].to in s'.depth
              && s'.parent[s'.edges[i].to] == s'.edges[i].from && s'.depth[s'.edges[i].to] == s'.edges[i].depth
    {
      if i < |s.edges| {
        assert s'.edges[i] == s.edges[i];
        assert s.edges[i].to in s.parent;
      }
    }
    forall i, j | 0 <= i < j < |s'.edges| ensures s'.edges[i].to != s'.edges[j].to {
      assert s'.edges[i] == s.edges[i];
      assert s.edges[i].to in s.parent;
      if j < |s.edges| {
        assert s'.edges[j] == s.edges[j];
      }
    }
  }

  /** Discovering a fresh neighbour of the cell being expanded keeps the queue
      distinct and layered. */
  lemma DiscoverQueue(g: Grid, a: Coord, s: SearchState, c: Coord, n: Coord)
    requires IsRect(g) && Tree(g, a, s) && QueueInv(s) && Layers(a, s)
    requires s.current == Some(c) && c in s.visited && c !in s.queue
    requires Open(g, n) && n !in s.visited
    ensures QueueInv(Discover(g, s, c, n)) && Discover(g, s, c, n).depth.Keys == Discover(g, s, c, n).visited
    ensures Layers(a, Discover(g, s, c, n))
  {
    var s' := Discover(g, s, c, n);
    assert s'.depth.Keys == s'.visited;
    forall i | 0 <= i < |s'.queue| ensures s'.queue[i] in s'.visited && s'.queue[i] in s'.depth {
      if i < |s.queue| { assert s'.queue[i] == s.queue[i]; }
    }
    forall i, j | 0 <= i < j < |s'.queue| ensures s'.queue[i] != s'.queue[j] {
      assert s'.queue[i] == s.queue[i];
      if j < |s.queue| { assert s'.queue[j] == s.queue[j]; }
    }
    assert QueueInv(s');
    forall i, j | 0 <= i <= j < |s'.queue|
      ensures s'.depth[s'.queue[i]] <= s'.depth[s'.queue[j]] <= s'.depth[s'.queue[0]] + 1
    {
      if j < |s.queue| {
        assert s'.queue[i] == s.queue[i] && s'.queue[j] == s.queue[j] && s'.queue[0] == s.queue[0];
        assert s.queue[i] in s.visited && s.queue[j] in s.visited;
      } else if i < |s.queue| {
        assert s'.queue[i] == s.queue[i] && s'.queue[0] == s.queue[0];
        assert s.queue[i] in s.visited && s.queue[0] in s.visited;
        assert s.depth[c] <= s.depth[s.queue[0]];
      }
    }
    forall j | 0 <= j < |s'.queue| ensures s'.depth[c] <= s'.depth[s'.queue[j]] {
      if j < |s.queue| {
        assert s'.queue[j] == s.queue[j];
        assert s.queue[j] in s.visited;
      }
    }
  }

  /** After the k-th neighbour of c is examined, it is dealt with, and every
      other closed cell still has its neighbours dealt with. */
  lemma DiscoverClosure(g: Grid, a: Coord, s: SearchState, c: Coord, k: int)
    requires IsRect(g) && 0 <= k < 4 && Tree(g, a, s) && QueueInv(s) && Layers(a, s)
    requires s.current == Some(c) && c in s.visited && c !in s.queue && !s.found
    requires ClosedDone(g, s, Some(c), k)
    ensures ClosedDone(g, Discover(g, s, c, Neighbor(c, k)), Some(c), k + 1)
  {
    var n := Neighbor(c, k);
    var s' := Discover(g, s, c, n);
    forall x, i | Closed(s', x) && 0 <= i < 4 && !(Some(c) == Some(x) && i >= k + 1)
      ensures NeighborDone(g, s', x, i)
    {
      if x == c && i == k {
        if Open(g, n) {
          assert n in s'.visited;
        }
      } else {
        if n !in s.visited && Open(g, n) {
          assert s'.queue[|s'.queue| - 1] == n;
          assert x != n;
        }
        assert Closed(s, x);
        assert NeighborDone(g, s, x, i);
        if Open(g, Neighbor(x, i)) {
          assert Neighbor(x, i) in s.visited;
        }
      }
    }
  }

  /** One neighbour-loop iteration keeps the mid-expansion invariant. */
  lemma DiscoverInv(g: Grid, st: Option<Coord>, tg: Option<Coord>, s: SearchState, c: Coord, k: int)
    requires InvAt(g, st, tg, s, Some(c), k) && 0 <= k < 4
    ensures st.Some? && c in s.depth
    ensures InvAt(g, st, tg, Discover(g, s, c, Neighbor(c, k)), Some(c), k + 1)
  {
    var a, n := st.value, Neighbor(c, k);
    var s' := Discover(g, s, c, n);
    DiscoverClosure(g, a, s, c, k);
    if Open(g, n) && n !in s.visited {
      DiscoverTree(g, a, s, c, n);
      DiscoverQueue(g, a, s, c, n);
      assert s'.queue[|s'.queue| - 1] == n;
      assert c !in s'.queue;
    }
  }

  lemma {:induction false} ExpandInv(g: Grid, st: Option<Coord>, tg: Option<Coord>, s: SearchState, c: Coord, k: nat)
    requires InvAt(g, st, tg, s, Some(c), 0) && k <= 4
    ensures st.Some? && c in s.depth
    ensures InvAt(g, st, tg, Expand(g, s, c, k), Some(c), k)
    decreases k
  {
    if k > 0 {
      ExpandInv(g, st, tg, s, c, k - 1);
      DiscoverInv(g, st, tg, Expand(g, s, c, k - 1), c, k - 1);
    }
  }

  /** Every step keeps the invariant. */
  lemma StepPreservesInv(g: Grid, st: Option<Coord>, tg: Option<Coord>, s: SearchState)
    requires Inv(g, st, tg, s)
    ensures !s.finished && |s.queue| > 0 ==> tg.Some? && s.queue[0] in s.depth
    ensures Inv(g, st, tg, Step(g, tg, s).0)
  {
    if s.finished || |s.queue| == 0 {
      var s' := s.(finished := true);
      forall x, i | Closed(s', x) && 0 <= i < 4 ensures NeighborDone(g, s', x, i) {
        assert Closed(s, x);
        assert NeighborDone(g, s, x, i);
      }
    } else {
      assert s.queue[0] in s.depth;
      var c := s.queue[0];
      if c == tg.value {
        FoundInv(g, st, tg, s);
      } else {
        var s1 := s.(queue := s.queue[1..], current := Some(c));
        DequeueInv(g, st, tg, s);
        ExpandInv(g, st, tg, s1, c, |DR|);
        var r := Expand(g, s1, c, |DR|);
        assert ClosedDone(g, r, None, 0) by {
          forall x, i | Closed(r, x) && 0 <= i < 4 ensures NeighborDone(g, r, x, i) {
            assert !(Some(c) == Some(x) && i >= 4);
          }
        }
      }
    }
  }

  // ---------------------------------------------------------------------
  // What one step does

  /** The neighbours of `cur` among the first k in scan order (up, right,
      down, left) that pass `isValid` and are not in `seen`, in scan order. */
  function FreshNeighbors(g: Grid, seen: set<Coord>, cur: Coord, k: nat): (f: seq<Coord>)
    requires IsRect(g) && k <= 4
    ensures |f| <= k
    decreases k
  {
    if k == 0 then []
    else
      var n := Neighbor(cur, k - 1);
      FreshNeighbors(g, seen, cur, k - 1) + (if Open(g, n) && n !in seen then [n] else [])
  }

  /** No neighbour beyond the k-th is among the first k fresh ones. */
  lemma {:induction false} FreshNeighborsBeyond(g: Grid, seen: set<Coord>, cur: Coord, k: nat)
    requires IsRect(g) && k <= 4
    ensures forall j :: k <= j < 4 ==> Neighbor(cur, j) !in FreshNeighbors(g, seen, cur, k)
    decreases k
  {
    if k > 0 {
      FreshNeighborsBeyond(g, seen, cur, k - 1);
    }
  }

  /** The fresh neighbours are open, unseen, adjacent and distinct. */
  lemma {:induction false} FreshNeighborsValid(g: Grid, seen: set<Coord>, cur: Coord, k: nat)
    requires IsRect(g) && k <= 4
    ensures var f := FreshNeighbors(g, seen, cur, k);
      && (forall i :: 0 <= i < |f| ==> Open(g, f[i]) && f[i] !in seen && Adjacent(cur, f[i]))
      && (forall i, j :: 0 <= i < j < |f| ==> f[i] != f[j])
    decreases k
  {
    if k > 0 {
      FreshNeighborsValid(g, seen, cur, k - 1);
      FreshNeighborsBeyond(g, seen, cur, k - 1);
      assert Neighbor(cur, k - 1) !in FreshNeighbors(g, seen, cur, k - 1);
    }
  }

  /** Every neighbour among the first k that is open and unseen is fresh. */
  lemma {:induction false} FreshNeighborsComplete(g: Grid, seen: set<Coord>, cur: Coord, k: nat)
    requires IsRect(g) && k <= 4
    ensures forall j :: 0 <= j < k && Open(g, Neighbor(cur, j)) && Neighbor(cur, j) !in seen ==>
      Neighbor(cur, j) in FreshNeighbors(g, seen, cur, k)
    decreases k
  {
    if k > 0 {
      FreshNeighborsComplete(g, seen, cur, k - 1);
    }
  }

  /** The tree edges recorded for the cells f discovered from `cur` at depth d. */
  function EdgesTo(cur: Coord, f: seq<Coord>, d: nat): (es: seq<Edge>)
    ensures |es| == |f|
  {
    seq(|f|, i requires 0 <= i < |f| => Edge(cur, f[i], d))
  }

  /** The i-th edge recorded leads from `cur` to the i-th discovered cell. */
  lemma EdgesToAt(cur: Coord, f: seq<Coord>, d: nat)
    ensures forall i :: 0 <= i < |f| ==> EdgesTo(cur, f, d)[i] == Edge(cur, f[i], d)
  { }

  /** r records the cells f discovered from `cur` at depth d, in order, on
      top of the queue q, visited set v, parent map p, depth map dm and edge
      list e: each is queued, marked visited, linked to `cur`, given depth d
      and one tree edge, and nothing else in those five changes. */
  ghost predicate Records(r: SearchState, q: seq<Coord>, v: set<Coord>, p: map<Coord, Coord>, dm: map<Coord, nat>,
                          e: seq<Edge>, cur: Coord, f: seq<Coord>, d: nat) {
    && r.queue == q + f
    && r.visited == v + (set n | n in f)
    && (forall x :: x in r.parent <==> x in p || x in f)
    && (forall x :: x in r.parent ==> r.parent[x] == (if x in f then cur else p[x]))
    && (forall x :: x in r.depth <==> x in dm || x in f)
    && (forall x :: x in r.depth ==> r.depth[x] == (if x in f then d else dm[x]))
    && r.edges == e + EdgesTo(cur, f, d)
  }

  lemma SetSnoc(f: seq<Coord>, n: Coord)
    ensures (set m | m in f + [n]) == (set m | m in f) + {n}
  { }

  lemma EdgesSnoc(cur: Coord, f: seq<Coord>, n: Coord, d: nat)
    ensures EdgesTo(cur, f + [n], d) == EdgesTo(cur, f, d) + [Edge(cur, n, d)]
  { }

  /** One more neighbour-loop iteration, by unfolding. */
  lemma ExpandLast(g: Grid, s: SearchState, cur: Coord, k: nat)
    requires IsRect(g) && cur in s.depth && 0 < k <= 4
    ensures var n, r := Neighbor(cur, k - 1), Expand(g, s, cur, k - 1);
      Expand(g, s, cur, k) == if Open(g, n) && n !in r.visited then Added(r, cur, n, s.depth[cur] + 1) else r
  { }

  lemma FreshLast(g: Grid, seen: set<Coord>, cur: Coord, k: nat)
    requires IsRect(g) && 0 < k <= 4
    ensures var n, f := Neighbor(cur, k - 1), FreshNeighbors(g, seen, cur, k - 1);
      FreshNeighbors(g, seen, cur, k) == if Open(g, n) && n !in seen then f + [n] else f
  {
    assert FreshNeighbors(g, seen, cur, k - 1) + [] == FreshNeighbors(g, seen, cur, k - 1);
  }

  /** The first k iterations queue and mark visited exactly the fresh
      neighbours among the first k, in scan order. */
  lemma {:induction false} ExpandVisited(g: Grid, s: SearchState, cur: Coord, k: nat)
    requires IsRect(g) && cur in s.depth && k <= 4
    ensures var r, f := Expand(g, s, cur, k), FreshNeighbors(g, s.visited, cur, k);
      r.queue == s.queue + f && r.visited == s.visited + (set x | x in f)
    decreases k
  {
    if k == 0 {
      VisitedNone(s.queue, s.visited, FreshNeighbors(g, s.visited, cur, 0));
    } else {
      ExpandVisited(g, s, cur, k - 1);
      ExpandLast(g, s, cur, k);
      FreshLast(g, s.visited, cur, k);
      var n, r, f := Neighbor(cur, k - 1), Expand(g, s, cur, k - 1), FreshNeighbors(g, s.visited, cur, k - 1);
      FreshNeighborsBeyond(g, s.visited, cur, k - 1);
      assert n !in f;
      if Open(g, n) && n !in s.visited {
        VisitedStep(s.queue, r.queue, Expand(g, s, cur, k).queue, s.visited, r.visited, Expand(g, s, cur, k).visited,
                    f, FreshNeighbors(g, s.visited, cur, k), n);
      }
    }
  }

  lemma VisitedNone(q: seq<Coord>, v: set<Coord>, f: seq<Coord>)
    requires f == []
    ensures q == q + f && v == v + (set x | x in f)
  {
    assert q + [] == q;
  }

  lemma VisitedStep(q0: seq<Coord>, q1: seq<Coord>, q2: seq<Coord>, v0: set<Coord>, v1: set<Coord>, v2: set<Coord>,
                    f: seq<Coord>, f': seq<Coord>, n: Coord)
    requires q1 == q0 + f && v1 == v0 + (set x | x in f)
    requires q2 == q1 + [n] && v2 == v1 + {n} && f' == f + [n]
    ensures q2 == q0 + f' && v2 == v0 + (set x | x in f')
  {
    SetSnoc(f, n);
    assert q0 + f + [n] == q0 + (f + [n]);
  }

  /** One neighbour-loop iteration, with the freshness test stated on the
      visited set before the loop. */
  lemma ExpandCase(g: Grid, s: SearchState, cur: Coord, k: nat)
    requires IsRect(g) && cur in s.depth && 0 < k <= 4
    ensures var n, r, f := Neighbor(cur, k - 1), Expand(g, s, cur, k - 1), FreshNeighbors(g, s.visited, cur, k - 1);
      if Open(g, n) && n !in s.visited then
        Expand(g, s, cur, k) == Added(r, cur, n, s.depth[cur] + 1) && FreshNeighbors(g, s.visited, cur, k) == f + [n]
      else
        Expand(g, s, cur, k) == r && FreshNeighbors(g, s.visited, cur, k) == f
  {
    ExpandVisited(g, s, cur, k - 1);
    ExpandLast(g, s, cur, k);
    FreshLast(g, s.visited, cur, k);
    var f := FreshNeighbors(g, s.visited, cur, k - 1);
    FreshNeighborsBeyond(g, s.visited, cur, k - 1);
    assert Neighbor(cur, k - 1) !in f;
  }

  /** ... link exactly those cells to `cur`. */
  lemma {:induction false} ExpandParent(g: Grid, s: SearchState, cur: Coord, k: nat)
    requires IsRect(g) && cur in s.depth && k <= 4
    ensures var r, f := Expand(g, s, cur, k), FreshNeighbors(g, s.visited, cur, k);
      && (forall x :: x in r.parent <==> x in s.parent || x in f)
      && (forall x :: x in r.parent ==> r.parent[x] == (if x in f then cur else s.parent[x]))
    decreases k
  {
    if k > 0 {
      ExpandParent(g, s, cur, k - 1);
      ExpandCase(g, s, cur, k);
    }
  }

  /** ... give exactly those cells depth one more than `cur`. */
  lemma {:induction false} ExpandDepth(g: Grid, s: SearchState, cur: Coord, k: nat)
    requires IsRect(g) && cur in s.depth && k <= 4
    ensures var r, f, d := Expand(g, s, cur, k), FreshNeighbors(g, s.visited, cur, k), s.depth[cur] + 1;
      && (forall x :: x in r.depth <==> x in s.depth || x in f)
      && (forall x :: x in r.depth ==> r.depth[x] == (if x in f then d else s.depth[x]))
    decreases k
  {
    if k > 0 {
      ExpandDepth(g, s, cur, k - 1);
      ExpandCase(g, s, cur, k);
    }
  }

  /** ... leave the flags alone ... */
  lemma {:induction false} ExpandFlags(g: Grid, s: SearchState, cur: Coord, k: nat)
    requires IsRect(g) && cur in s.depth && k <= 4
    ensures var r := Expand(g, s, cur, k);
      r.current == s.current && r.found == s.found && r.finished == s.finished
    decreases k
  {
    if k > 0 {
      ExpandFlags(g, s, cur, k - 1);
      ExpandLast(g, s, cur, k);
    }
  }

  /** ... and append one tree edge per such cell. */
  lemma {:induction false} ExpandEdges(g: Grid, s: SearchState, cur: Coord, k: nat)
    requires IsRect(g) && cur in s.depth && k <= 4
    ensures var r, f := Expand(g, s, cur, k), FreshNeighbors(g, s.visited, cur, k);
      r.edges == s.edges + EdgesTo(cur, f, s.depth[cur] + 1)
    decreases k
  {
    var d := s.depth[cur] + 1;
    if k == 0 {
      EdgesNone(s.edges, cur, FreshNeighbors(g, s.visited, cur, 0), d);
    } else {
      ExpandEdges(g, s, cur, k - 1);
      ExpandCase(g, s, cur, k);
      var n := Neighbor(cur, k - 1);
      if Open(g, n) && n !in s.visited {
        EdgesStep(s.edges, Expand(g, s, cur, k - 1).edges, Expand(g, s, cur, k).edges, cur,
                  FreshNeighbors(g, s.visited, cur, k - 1), FreshNeighbors(g, s.visited, cur, k), n, d);
      }
    }
  }

  lemma EdgesNone(e: seq<Edge>, cur: Coord, f: seq<Coord>, d: nat)
    requires f == []
    ensures e + EdgesTo(cur, f, d) == e
  {
    assert EdgesTo(cur, f, d) == [];
  }

  lemma EdgesStep(e0: seq<Edge>, e1: seq<Edge>, e2: seq<Edge>, cur: Coord, f: seq<Coord>, f': seq<Coord>, n: Coord, d: nat)
    requires e1 == e0 + EdgesTo(cur, f, d) && e2 == e1 + [Edge(cur, n, d)] && f' == f + [n]
    ensures e2 == e0 + EdgesTo(cur, f', d)
  {
    EdgesSnoc(cur, f, n, d);
    assert e0 + EdgesTo(cur, f, d) + [Edge(cur, n, d)] == e0 + (EdgesTo(cur, f, d) + [Edge(cur, n, d)]);
  }

  /** The first k iterations of the neighbour loop discover exactly the
      neighbours among the first k that were valid and unvisited when it
      began, in scan order, one layer below `cur`; nothing else changes. */
  lemma ExpandRecords(g: Grid, s: SearchState, cur: Coord, k: nat)
    requires IsRect(g) && cur in s.depth && k <= 4
    ensures var r := Expand(g, s, cur, k);
      && Records(r, s.queue, s.visited, s.parent, s.depth, s.edges, cur, FreshNeighbors(g, s.visited, cur, k), s.depth[cur] + 1)
      && r.current == s.current && r.found == s.found && r.finished == s.finished
  {
    ExpandVisited(g, s, cur, k);
    ExpandParent(g, s, cur, k);
    ExpandDepth(g, s, cur, k);
    ExpandEdges(g, s, cur, k);
    ExpandFlags(g, s, cur, k);
  }

  /** The few facts about a state that the step lemmas below rely on. */
  ghost predicate Shape(tg: Option<Coord>, s: SearchState) {
    && s.depth.Keys == s.visited && s.parent.Keys <= s.visited
    && (forall i :: 0 <= i < |s.queue| ==> s.queue[i] in s.visited)
    && (!s.finished ==> !s.found)
    && (!s.finished && |s.queue| > 0 ==> tg.Some?)
    && (s.current.Some? ==> s.current.value in s.visited)
    && (s.current.Some? && |s.queue| > 0 ==> s.depth[s.current.value] <= s.depth[s.queue[0]])
  }

  lemma InvShape(g: Grid, st: Option<Coord>, tg: Option<Coord>, s: SearchState)
    requires Inv(g, st, tg, s)
    ensures Shape(tg, s)
  {
    if st.Some? && s.current.Some? && |s.queue| > 0 {
      assert s.depth[s.current.value] <= s.depth[s.queue[0]];
    }
  }

  /** `step()` after termination or on an empty queue only sets `finished`
      and reports false; so a second call changes nothing. */
  lemma StepWhenDone(g: Grid, tg: Option<Coord>, s: SearchState)
    requires IsRect(g) && (s.finished || |s.queue| == 0)
    ensures Step(g, tg, s) == (s.(finished := true), false)
    ensures Step(g, tg, Step(g, tg, s).0) == Step(g, tg, s)
  { }

  /** `step()` dequeuing the target moves it into `current`, sets `found` and
      `finished`, reports true and discovers nothing. */
  lemma StepOnTarget(g: Grid, tg: Option<Coord>, s: SearchState)
    requires IsRect(g) && !s.finished && |s.queue| > 0 && tg.Some? && s.queue[0] in s.depth
    requires s.queue[0] == tg.value
    ensures Step(g, tg, s) == (s.(queue := s.queue[1..], current := Some(s.queue[0]), found := true, finished := true), true)
  { }

  /** The state `step()` leaves after dequeuing the queue head, before its
      neighbours. */
  function Dequeued(s: SearchState): SearchState
    requires |s.queue| > 0
  {
    s.(queue := s.queue[1..], current := Some(s.queue[0]))
  }

  lemma StepIsExpand(g: Grid, tg: Option<Coord>, s: SearchState)
    requires IsRect(g) && !s.finished && |s.queue| > 0 && tg.Some? && s.queue[0] in s.depth
    requires s.queue[0] != tg.value
    ensures Step(g, tg, s).1 && Step(g, tg, s).0 == Expand(g, Dequeued(s), s.queue[0], |DR|)
  { }

  /** `step()` on any other queue head moves it into `current` and discovers
      its valid unvisited neighbours, in scan order, one layer below it:
      they are appended to the rest of the queue, marked visited, linked to
      the head and recorded as tree edges. */
  lemma StepExpands(g: Grid, tg: Option<Coord>, s: SearchState)
    requires IsRect(g) && !s.finished && |s.queue| > 0 && tg.Some? && s.queue[0] in s.depth
    requires s.queue[0] != tg.value
    ensures Step(g, tg, s).1
    ensures var r, c := Step(g, tg, s).0, s.queue[0];
      && Records(r, s.queue[1..], s.visited, s.parent, s.depth, s.edges, c, FreshNeighbors(g, s.visited, c, |DR|), s.depth[c] + 1)
      && r.current == Some(c) && r.found == s.found && !r.finished
  {
    StepIsExpand(g, tg, s);
    ExpandRecords(g, Dequeued(s), s.queue[0], |DR|);
  }

  /** Recording cells that were not yet visited keeps everything already recorded. */
  lemma RecordsKeep(g: Grid, r: SearchState, q: seq<Coord>, v: set<Coord>, p: map<Coord, Coord>, dm: map<Coord, nat>,
                    e: seq<Edge>, cur: Coord, d: nat)
    requires IsRect(g) && Records(r, q, v, p, dm, e, cur, FreshNeighbors(g, v, cur, |DR|), d)
    requires dm.Keys == v && p.Keys <= v
    ensures v <= r.visited && e <= r.edges
    ensures forall x :: x in dm ==> x in r.depth && r.depth[x] == dm[x]
    ensures forall x :: x in p ==> x in r.parent && r.parent[x] == p[x]
  {
    var f := FreshNeighbors(g, v, cur, |DR|);
    FreshCells(g, v, cur, |DR|);
    forall x | x in dm ensures x !in f { assert x in v; assert x !in (set n | n in f); }
    forall x | x in p ensures x !in f { assert x in v; assert x !in (set n | n in f); }
  }

  /** Across a step: visited cells stay visited, tree edges are only
      appended, depths and parents once set never change, a finished search
      stays put, and the depth of `current` never decreases. */
  lemma StepMonotone(g: Grid, tg: Option<Coord>, s: SearchState)
    requires IsRect(g) && Shape(tg, s)
    ensures !s.finished && |s.queue| > 0 ==> tg.Some? && s.queue[0] in s.depth
    ensures var s' := Step(g, tg, s).0;
      && s.visited <= s'.visited
      && s.edges <= s'.edges
      && (forall x :: x in s.depth ==> x in s'.depth && s'.depth[x] == s.depth[x])
      && (forall x :: x in s.parent ==> x in s'.parent && s'.parent[x] == s.parent[x])
      && (s.finished ==> s' == s)
      && (s.current.Some? ==>
            && s'.current.Some? && s.current.value in s'.depth && s'.current.value in s'.depth
            && s'.depth[s.current.value] <= s'.depth[s'.current.value])
  {
    if s.finished || |s.queue| == 0 {
      StepWhenDone(g, tg, s);
    } else {
      var c := s.queue[0];
      assert c in s.visited;
      if c == tg.value {
        StepOnTarget(g, tg, s);
      } else {
        ExpandKeeps(g, tg, s);
      }
    }
  }

  /** The expanding case of StepMonotone. */
  lemma ExpandKeeps(g: Grid, tg: Option<Coord>, s: SearchState)
    requires IsRect(g) && !s.finished && |s.queue| > 0 && tg.Some? && s.queue[0] in s.depth
    requires s.queue[0] != tg.value && s.depth.Keys == s.visited && s.parent.Keys <= s.visited
    ensures var s' := Step(g, tg, s).0;
      && s.visited <= s'.visited && s.edges <= s'.edges
      && (forall x :: x in s.depth ==> x in s'.depth && s'.depth[x] == s.depth[x])
      && (forall x :: x in s.parent ==> x in s'.parent && s'.parent[x] == s.parent[x])
      && s'.current == Some(s.queue[0])
  {
    var c := s.queue[0];
    StepExpands(g, tg, s);
    RecordsKeep(g, Step(g, tg, s).0, s.queue[1..], s.visited, s.parent, s.depth, s.edges, c, s.depth[c] + 1);
  }

  // ---------------------------------------------------------------------
  // Depths are shortest distances

  /** The smallest depth on the frontier: the found target, else the queue head. */
  ghost function FrontierMin(s: SearchState): int {
    if s.found && s.current.Some? && s.current.value in s.depth then s.depth[s.current.value]
    else if |s.queue| > 0 && s.queue[0] in s.depth then s.depth[s.queue[0]]
    else 0
  }

  /** Visited cells that are not closed are on the frontier, no shallower
      than its minimum; and no visited cell is more than one layer deeper. */
  lemma FrontierFacts(g: Grid, st: Option<Coord>, tg: Option<Coord>, s: SearchState)
    requires Inv(g, st, tg, s) && st.Some?
    ensures forall y :: y in s.visited && !Closed(s, y) ==> (s.found || |s.queue| > 0) && s.depth[y] >= FrontierMin(s)
    ensures s.found || |s.queue| > 0 ==> forall x :: x in s.visited ==> s.depth[x] <= FrontierMin(s) + 1
  {
    forall y | y in s.visited && !Closed(s, y) ensures (s.found || |s.queue| > 0) && s.depth[y] >= FrontierMin(s) {
      if y in s.queue {
        var j :| 0 <= j < |s.queue| && s.queue[j] == y;
        if !s.found {
          assert s.depth[s.queue[0]] <= s.depth[s.queue[j]];
        }
      }
    }
    if !s.found && |s.queue| > 0 && s.current.Some? {
      assert s.depth[s.current.value] <= s.depth[s.queue[0]];
    }
  }

  /** For every walk from the start: a visited endpoint has depth at most the
      walk's length, and an unvisited endpoint lies beyond the frontier. */
  lemma {:induction false} WalkBound(g: Grid, st: Option<Coord>, tg: Option<Coord>, s: SearchState, p: seq<Coord>)
    requires Inv(g, st, tg, s) && st.Some? && IsWalk(g, p) && p[0] == st.value
    ensures p[|p| - 1] in s.visited ==> s.depth[p[|p| - 1]] <= |p| - 1
    ensures p[|p| - 1] !in s.visited ==> (s.found || |s.queue| > 0) && |p| - 1 >= FrontierMin(s) + 1
    decreases |p|
  {
    FrontierFacts(g, st, tg, s);
    if |p| > 1 {
      var p' := p[..|p| - 1];
      assert IsWalk(g, p') by {
        forall i | 0 <= i < |p'| - 1 ensures Adjacent(p'[i], p'[i + 1]) {
          assert p'[i] == p[i] && p'[i + 1] == p[i + 1];
        }
      }
      WalkBound(g, st, tg, s, p');
      var y, x := p[|p| - 2], p[|p| - 1];
      assert p'[|p'| - 1] == y;
      assert Adjacent(y, x) && Open(g, x);
      if y in s.visited && Closed(s, y) {
        var i := DirectionTo(y, x);
        assert NeighborDone(g, s, y, i);
      }
    }
  }

  /** No walk from the start to a visited cell is shorter than its depth. */
  lemma NoShorterWalk(g: Grid, st: Option<Coord>, tg: Option<Coord>, s: SearchState, x: Coord)
    requires Inv(g, st, tg, s) && st.Some? && x in s.visited
    ensures forall p :: WalkBetween(g, p, st.value, x) ==> |p| >= s.depth[x] + 1
  {
    forall p | WalkBetween(g, p, st.value, x) ensures |p| >= s.depth[x] + 1 {
      WalkBound(g, st, tg, s, p);
    }
  }

  /** The parent chain from the start to x: `getShortestPath` reversed. It is
      a walk of depth[x] + 1 cells whose i-th cell has depth i. */
  function PathTo(g: Grid, s: SearchState, a: Coord, x: Coord): (p: seq<Coord>)
    requires IsRect(g) && Tree(g, a, s) && x in s.visited
    ensures |p| == s.depth[x] + 1 && WalkBetween(g, p, a, x)
    ensures forall i :: 0 <= i < |p| ==> p[i] in s.visited && s.depth[p[i]] == i
    ensures forall i :: 0 < i < |p| ==> p[i] in s.parent && s.parent[p[i]] == p[i - 1]
    decreases s.depth[x]
  {
    if x == a then [a] else PathTo(g, s, a, s.parent[x]) + [x]
  }

  /** The path the engine reports: empty unless found; when found, a walk
      from start to target with no repeated cell, one cell longer than the
      target's depth, and no longer than any other walk between them. */
  function ShortestPath(g: Grid, st: Option<Coord>, tg: Option<Coord>, s: SearchState): (path: seq<Coord>)
    requires Inv(g, st, tg, s)
    ensures !s.found ==> path == []
    ensures s.found ==> st.Some? && tg.Some? && tg.value in s.visited
    ensures s.found ==> WalkBetween(g, path, st.value, tg.value) && |path| == s.depth[tg.value] + 1
    ensures s.found ==> forall i, j :: 0 <= i < j < |path| ==> path[i] != path[j]
    ensures s.found ==> forall p :: WalkBetween(g, p, st.value, tg.value) ==> |path| <= |p|
  {
    if s.found then
      NoShorterWalk(g, st, tg, s, tg.value);
      PathTo(g, s, st.value, tg.value)
    else []
  }

  /** The reported path read backwards is the parent chain from the target:
      each cell after the first has a parent, the cell before it, and only
      the first cell is the start. */
  lemma ShortestPathChain(g: Grid, st: Option<Coord>, tg: Option<Coord>, s: SearchState)
    requires Inv(g, st, tg, s) && s.found
    ensures var P := ShortestPath(g, st, tg, s);
      && st.Some? && tg.Some? && |P| > 0 && P[0] == st.value && P[|P| - 1] == tg.value
      && forall i :: 0 < i < |P| ==> P[i] != st.value && P[i] in s.parent && s.parent[P[i]] == P[i - 1]
  {
    var P := ShortestPath(g, st, tg, s);
    assert P == PathTo(g, s, st.value, tg.value);
    forall i | 0 < i < |P| ensures P[i] != st.value {
      assert s.depth[P[i]] == i;
    }
  }

  /** A search that finished without finding the target has visited every
      cell reachable from the start; in particular the target is unreachable. */
  lemma ExhaustedMeansUnreachable(g: Grid, st: Option<Coord>, tg: Option<Coord>, s: SearchState)
    requires Inv(g, st, tg, s) && s.finished && !s.found && st.Some?
    ensures forall p :: IsWalk(g, p) && p[0] == st.value ==> p[|p| - 1] in s.visited
    ensures tg.Some? && tg.value !in s.visited
    ensures forall p :: !WalkBetween(g, p, st.value, tg.value)
  {
    forall p | IsWalk(g, p) && p[0] == st.value ensures p[|p| - 1] in s.visited {
      WalkBound(g, st, tg, s, p);
    }
  }

  // ---------------------------------------------------------------------
  // Termination

  ghost function AllCells(g: Grid): set<Coord>
    requires IsRect(g)
  {
    set r, c | 0 <= r < |g| && 0 <= c < |g[0]| :: Coord(r, c)
  }

  /** Twice the unvisited cells, plus the queue, plus one until finished. */
  ghost function Measure(g: Grid, s: SearchState): nat
    requires IsRect(g)
  {
    2 * |AllCells(g) - s.visited| + |s.queue| + (if s.finished then 0 else 1)
  }

  lemma CardGrow(A: set<Coord>, V: set<Coord>, F: set<Coord>)
    requires F <= A && F !! V
    ensures |A - (V + F)| + |F| == |A - V|
  {
    assert A - V == (A - (V + F)) + F;
    assert (A - (V + F)) !! F;
  }

  /** The fresh neighbours form a set of grid cells, none seen yet, with
      as many elements as the sequence has entries. */
  lemma {:induction false} FreshCells(g: Grid, seen: set<Coord>, cur: Coord, k: nat)
    requires IsRect(g) && k <= 4
    ensures var f := FreshNeighbors(g, seen, cur, k); var F := set n | n in f;
      |F| == |f| && F <= AllCells(g) && F !! seen
    decreases k
  {
    if k > 0 {
      FreshCells(g, seen, cur, k - 1);
      FreshLast(g, seen, cur, k);
      var n, f := Neighbor(cur, k - 1), FreshNeighbors(g, seen, cur, k - 1);
      if Open(g, n) && n !in seen {
        FreshNeighborsBeyond(g, seen, cur, k - 1);
        SetSnoc(f, n);
        assert n !in (set x | x in f);
        assert n in AllCells(g) by {
          assert n == Coord(n.r, n.c);
        }
      }
    }
  }

  /** Dequeuing and discovering fresh cells lowers the measure: each new
      queue entry is paid for by a newly visited cell. */
  lemma RecordsDecrease(g: Grid, r: SearchState, s: SearchState, cur: Coord)
    requires IsRect(g) && |s.queue| > 0 && r.finished == s.finished
    requires var f := FreshNeighbors(g, s.visited, cur, |DR|);
      r.visited == s.visited + (set n | n in f) && |r.queue| == |s.queue| - 1 + |f|
    ensures Measure(g, r) < Measure(g, s)
  {
    var F := set n | n in FreshNeighbors(g, s.visited, cur, |DR|);
    FreshCells(g, s.visited, cur, |DR|);
    CardGrow(AllCells(g), s.visited, F);
  }

  /** Every executed step decreases the measure, and a step that reports
      false leaves the search finished: driving `step()` until it returns
      false always terminates. */
  lemma StepDecreases(g: Grid, tg: Option<Coord>, s: SearchState)
    requires IsRect(g) && Shape(tg, s)
    ensures !s.finished && |s.queue| > 0 ==> tg.Some? && s.queue[0] in s.depth
    ensures Step(g, tg, s).1 ==> Measure(g, Step(g, tg, s).0) < Measure(g, s)
    ensures !Step(g, tg, s).1 ==> Step(g, tg, s).0.finished && Measure(g, Step(g, tg, s).0) <= Measure(g, s)
  {
    if s.finished || |s.queue| == 0 {
      StepWhenDone(g, tg, s);
    } else {
      var c := s.queue[0];
      assert c in s.visited;
      if c == tg.value {
        StepOnTarget(g, tg, s);
      } else {
        ExpandDecreases(g, tg, s);
      }
    }
  }

  /** The expanding case of StepDecreases. */
  lemma ExpandDecreases(g: Grid, tg: Option<Coord>, s: SearchState)
    requires IsRect(g) && !s.finished && |s.queue| > 0 && tg.Some? && s.queue[0] in s.depth
    requires s.queue[0] != tg.value
    ensures Step(g, tg, s).1 && Measure(g, Step(g, tg, s).0) < Measure(g, s)
  {
    var c := s.queue[0];
    StepExpands(g, tg, s);
    RecordsDecrease(g, Step(g, tg, s).0, s, c);
  }
}
