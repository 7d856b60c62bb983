/** The uniform-cost script: neighbour lists bounded by the grid's edges, a
    min-queue of (distance, cell, path) entries with no membership set (a cell
    may be queued several times), and painting of the path the dequeued end
    entry carries. */
module Dijkstra {
  import opened Board

  // ---------------------------------------------------------------------
  // Neighbours
  // ---------------------------------------------------------------------

  /** The list update_neighbors builds for the cell at (r, c), in its order:
      down, up, right, left, each only when it lies inside the grid and is not
      blocked. */
  function BoundedNeighbors(grid: Grid, r: int, c: int): (ns: seq<Node>)
    requires Shaped(grid, |grid|) && 0 <= r < |grid| && 0 <= c < |grid|
    reads Cells(grid)`color
    ensures |ns| <= 4 && forall k :: k in ns ==> !k.IsBlocked()
  {
    var total := |grid|;
    (if r < total - 1 then Unblocked(grid[r + 1][c]) else [])
    + (if r > 0 then Unblocked(grid[r - 1][c]) else [])
    + (if c < total - 1 then Unblocked(grid[r][c + 1]) else [])
    + (if c > 0 then Unblocked(grid[r][c - 1]) else [])
  }

  /** Positions p and q are one orthogonal step apart. */
  predicate Adjacent(p: (int, int), q: (int, int)) {
    || q == (p.0 + 1, p.1) || q == (p.0 - 1, p.1)
    || q == (p.0, p.1 + 1) || q == (p.0, p.1 - 1)
  }

  /** The list holds exactly the unblocked cells one step away. */
  lemma BoundedNeighborsExactly(grid: Grid, r: int, c: int, m: Node)
    requires Shaped(grid, |grid|) && 0 <= r < |grid| && 0 <= c < |grid| && m in Cells(grid)
    ensures m in BoundedNeighbors(grid, r, c) <==> !m.IsBlocked() && Adjacent((r, c), m.GetPos())
  {
    ShapedCell(grid, |grid|, m);
    var total := |grid|;
    var down := if r < total - 1 then Unblocked(grid[r + 1][c]) else [];
    var up := if r > 0 then Unblocked(grid[r - 1][c]) else [];
    var right := if c < total - 1 then Unblocked(grid[r][c + 1]) else [];
    var left := if c > 0 then Unblocked(grid[r][c - 1]) else [];
    assert BoundedNeighbors(grid, r, c) == down + up + right + left;
    if m in down {
      assert m == grid[r + 1][c];
    } else if m in up {
      assert m == grid[r - 1][c];
    } else if m in right {
      assert m == grid[r][c + 1];
    } else if m in left {
      assert m == grid[r][c - 1];
    }
    if !m.IsBlocked() && Adjacent((r, c), m.GetPos()) {
      if m.GetPos() == (r + 1, c) {
        assert m in down;
      } else if m.GetPos() == (r - 1, c) {
        assert m in up;
      } else if m.GetPos() == (r, c + 1) {
        assert m in right;
      } else {
        assert m in left;
      }
    }
  }

  /** Every listed cell is a cell of the grid. */
  lemma BoundedNeighborsInside(grid: Grid, r: int, c: int)
    requires Shaped(grid, |grid|) && 0 <= r < |grid| && 0 <= c < |grid|
    ensures forall k :: k in BoundedNeighbors(grid, r, c) ==> k in Cells(grid)
  {
  }

  lemma AdjacentSymmetric(p: (int, int), q: (int, int))
    ensures Adjacent(p, q) <==> Adjacent(q, p)
  {
  }

  /** Adjacency is symmetric, so between two unblocked cells the lists hold
      the edge both ways round. */
  lemma BoundedIsSymmetric(grid: Grid, n: Node, m: Node)
    requires Shaped(grid, |grid|) && n in Cells(grid) && m in Cells(grid)
    requires !n.IsBlocked() && !m.IsBlocked()
    ensures m in BoundedNeighbors(grid, n.row, n.col) <==> n in BoundedNeighbors(grid, m.row, m.col)
  {
    ShapedCell(grid, |grid|, n);
    ShapedCell(grid, |grid|, m);
    BoundedNeighborsExactly(grid, n.row, n.col, m);
    BoundedNeighborsExactly(grid, m.row, m.col, n);
    AdjacentSymmetric(n.GetPos(), m.GetPos());
  }

  /** update_neighbors: clears the cell's list and appends, in order, each
      candidate inside the grid that is not blocked. */
  method UpdateNeighbors(node: Node, grid: Grid)
    requires Shaped(grid, |grid|) && 0 <= node.row < |grid| && 0 <= node.col < |grid|
    requires grid[node.row][node.col] == node
    modifies node`neighbors
    ensures node.neighbors == old(BoundedNeighbors(grid, node.row, node.col))
  {
    var r, c, total := node.row, node.col, node.totalRows;
    ghost var down := if r < total - 1 then Unblocked(grid[r + 1][c]) else [];
    ghost var up := if r > 0 then Unblocked(grid[r - 1][c]) else [];
    ghost var right := if c < total - 1 then Unblocked(grid[r][c + 1]) else [];
    ghost var left := if c > 0 then Unblocked(grid[r][c - 1]) else [];
    assert BoundedNeighbors(grid, r, c) == down + up + right + left;
    var neighbors: seq<Node> := [];
    if r < total - 1 && !grid[r + 1][c].IsBlocked() {
      neighbors := neighbors + [grid[r + 1][c]];
    }
    assert neighbors == down;
    if r > 0 && !grid[r - 1][c].IsBlocked() {
      neighbors := neighbors + [grid[r - 1][c]];
    }
    assert neighbors == down + up;
    if c < total - 1 && !grid[r][c + 1].IsBlocked() {
      neighbors := neighbors + [grid[r][c + 1]];
    }
    assert neighbors == down + up + right;
    if c > 0 && !grid[r][c - 1].IsBlocked() {
      neighbors := neighbors + [grid[r][c - 1]];
    }
    assert neighbors == BoundedNeighbors(grid, r, c);
    node.neighbors := neighbors;
  }

  /** Every cell's list is the one update_neighbors builds for it. */
  ghost predicate Refreshed(grid: Grid)
    requires Shaped(grid, |grid|)
    reads Cells(grid)`neighbors, Cells(grid)`color
  {
    forall i, j :: 0 <= i < |grid| && 0 <= j < |grid| ==> grid[i][j].neighbors == BoundedNeighbors(grid, i, j)
  }

  /** update_neighbors on each cell of row i, left to right. */
  method RefreshRow(grid: Grid, i: int)
    requires Shaped(grid, |grid|) && 0 <= i < |grid|
    modifies Row(grid, i)`neighbors
    ensures forall j :: 0 <= j < |grid| ==> grid[i][j].neighbors == BoundedNeighbors(grid, i, j)
  {
    for j := 0 to |grid|
      invariant forall b :: 0 <= b < j ==> grid[i][b].neighbors == BoundedNeighbors(grid, i, b)
    {
      var node := grid[i][j];
      assert node in Row(grid, i) && node in Cells(grid);
      label before:
      UpdateNeighbors(node, grid);
      forall b | 0 <= b <= j ensures grid[i][b].neighbors == BoundedNeighbors(grid, i, b) {
        if b < j {
          assert grid[i][b].neighbors == old@before(grid[i][b].neighbors);
        }
        assert BoundedNeighbors(grid, i, b) == old@before(BoundedNeighbors(grid, i, b));
      }
    }
  }

  /** The main loop's refresh before a search: update_neighbors on every cell,
      row by row. Colours are untouched, so refreshing an already refreshed
      grid changes nothing. */
  method RefreshNeighbors(grid: Grid)
    requires Shaped(grid, |grid|)
    modifies Cells(grid)`neighbors
    ensures Refreshed(grid)
    ensures NeighborsInside(grid) && NoBlockedNeighbors(grid)
    ensures old(Refreshed(grid)) ==>
      forall i, j :: 0 <= i < |grid| && 0 <= j < |grid| ==> grid[i][j].neighbors == old(grid[i][j].neighbors)
  {
    RefreshRows(grid);
    RefreshedIsClosed(grid);
  }

  /** The row loop of the refresh. */
  method RefreshRows(grid: Grid)
    requires Shaped(grid, |grid|)
    modifies Cells(grid)`neighbors
    ensures forall i, j :: 0 <= i < |grid| && 0 <= j < |grid| ==>
      grid[i][j].neighbors == BoundedNeighbors(grid, i, j) == old(BoundedNeighbors(grid, i, j))
  {
    for i := 0 to |grid|
      invariant forall a, b :: 0 <= a < i && 0 <= b < |grid| ==>
        grid[a][b].neighbors == BoundedNeighbors(grid, a, b)
    {
      RefreshNextRow(grid, i);
    }
    forall a, b | 0 <= a < |grid| && 0 <= b < |grid|
      ensures BoundedNeighbors(grid, a, b) == old(BoundedNeighbors(grid, a, b))
    {
    }
  }

  /** One pass of the row loop: row i is refreshed, the rows above keep the
      lists they were given. */
  method RefreshNextRow(grid: Grid, i: int)
    requires Shaped(grid, |grid|) && 0 <= i < |grid|
    requires forall a, b :: 0 <= a < i && 0 <= b < |grid| ==> grid[a][b].neighbors == BoundedNeighbors(grid, a, b)
    modifies Cells(grid)`neighbors
    ensures forall a, b :: 0 <= a <= i && 0 <= b < |grid| ==> grid[a][b].neighbors == BoundedNeighbors(grid, a, b)
  {
    forall n | n in Row(grid, i) ensures n in Cells(grid) && n.row == i {
      var j :| 0 <= j < |grid[i]| && grid[i][j] == n;
    }
    label before:
    RefreshRow(grid, i);
    forall a, b | 0 <= a <= i && 0 <= b < |grid|
      ensures grid[a][b].neighbors == BoundedNeighbors(grid, a, b)
    {
      if a < i {
        assert grid[a][b] !in Row(grid, i);
        assert grid[a][b].neighbors == old@before(grid[a][b].neighbors);
        assert BoundedNeighbors(grid, a, b) == old@before(BoundedNeighbors(grid, a, b));
      }
    }
  }

  /** Once every list is the one update_neighbors builds, all neighbours are
      unblocked cells of the grid. */
  lemma RefreshedIsClosed(grid: Grid)
    requires Shaped(grid, |grid|) && Refreshed(grid)
    ensures NeighborsInside(grid) && NoBlockedNeighbors(grid)
  {
    forall n | n in Cells(grid)
      ensures forall m :: m in n.neighbors ==> m in Cells(grid) && !m.IsBlocked()
    {
      ShapedCell(grid, |grid|, n);
      BoundedNeighborsInside(grid, n.row, n.col);
      assert n.neighbors == BoundedNeighbors(grid, n.row, n.col);
    }
    assert NeighborsInside(grid);
  }

  /** After a refresh every edge runs both ways between unblocked cells. */
  lemma RefreshedIsSymmetric(grid: Grid, n: Node, m: Node)
    requires Shaped(grid, |grid|) && Refreshed(grid)
    requires n in Cells(grid) && m in Cells(grid) && !n.IsBlocked() && !m.IsBlocked()
    ensures m in n.neighbors <==> n in m.neighbors
  {
    ShapedCell(grid, |grid|, n);
    ShapedCell(grid, |grid|, m);
    assert n.neighbors == BoundedNeighbors(grid, n.row, n.col);
    assert m.neighbors == BoundedNeighbors(grid, m.row, m.col);
    BoundedIsSymmetric(grid, n, m);
  }

  // ---------------------------------------------------------------------
  // The priority queue
  // ---------------------------------------------------------------------

  /** A queue entry (dist, node, path): `path` lists the cells expanded on the
      way to `node`, from start on. */
  datatype QEntry = QEntry(dist: nat, node: Node, path: seq<Node>)

  /** Entry i has the least distance in q. PriorityQueue.get hands out such an
      entry; between entries of equal distance the tuple comparison falls
      through to Node.__lt__, which always answers False, so which of them
      comes first is left open. */
  predicate Least(q: seq<QEntry>, i: int) {
    0 <= i < |q| && forall j :: 0 <= j < |q| ==> q[i].dist <= q[j].dist
  }

  /** A non-empty queue has a least entry. */
  function LeastIndex(q: seq<QEntry>): (i: nat)
    requires q != []
    ensures Least(q, i)
  {
    if |q| == 1 then 0
    else
      var k := LeastIndex(q[1..]) + 1;
      if q[k].dist < q[0].dist then k else 0
  }

  /** The index of the entry pq.get hands out: any entry of least distance. */
  method PickLeast(q: seq<QEntry>) returns (i: nat)
    requires q != []
    ensures Least(q, i)
  {
    ghost var w := LeastIndex(q);
    i :| Least(q, i);
  }

  /** The cells that have an entry in the queue. */
  function Queued(q: seq<QEntry>): set<Node> {
    set k | 0 <= k < |q| :: q[k].node
  }

  /** The (cell, distance) pairs the entries carry. */
  function Carried(q: seq<QEntry>): set<(Node, nat)> {
    set k | 0 <= k < |q| :: (q[k].node, q[k].dist)
  }

  lemma QueuedAfterPush(q: seq<QEntry>, e: QEntry)
    ensures Queued(q + [e]) == Queued(q) + {e.node}
    ensures Carried(q + [e]) == Carried(q) + {(e.node, e.dist)}
  {
    var r := q + [e];
    assert r[|q|] == e;
    forall k | 0 <= k < |q| ensures r[k] == q[k] {
    }
  }

  /** Taking entry i out keeps every other entry, in order. */
  lemma RemoveAtKeeps(q: seq<QEntry>, i: nat)
    requires i < |q|
    ensures |RemoveAt(q, i)| == |q| - 1
    ensures forall k :: 0 <= k < |RemoveAt(q, i)| ==> RemoveAt(q, i)[k] == q[if k < i then k else k + 1]
  {
  }

  /** Taking entry i out loses at most that entry's cell and pair. */
  lemma QueuedAfterRemove(q: seq<QEntry>, i: nat)
    requires i < |q|
    ensures forall k :: 0 <= k < |q| && k != i ==> q[k].node in Queued(RemoveAt(q, i))
    ensures forall k :: 0 <= k < |q| && k != i ==> (q[k].node, q[k].dist) in Carried(RemoveAt(q, i))
    ensures Queued(RemoveAt(q, i)) <= Queued(q)
  {
    var r := RemoveAt(q, i);
    RemoveAtKeeps(q, i);
    forall k | 0 <= k < |q| && k != i ensures q[k].node in Queued(r) && (q[k].node, q[k].dist) in Carried(r) {
      assert r[if k < i then k else k - 1] == q[k];
    }
    forall n | n in Queued(r) ensures n in Queued(q) {
      var k :| 0 <= k < |r| && r[k].node == n;
      assert q[if k < i then k else k + 1].node == n;
    }
  }

  // ---------------------------------------------------------------------
  // The search
  // ---------------------------------------------------------------------

  /** The loop's variables pq and distances. */
  datatype State = State(pq: seq<QEntry>, distances: map<Node, Dist>)

  /** `path` is a route the search has walked: it starts at start, every cell
      on it is an expanded grid cell, and each lists the next as a neighbour. */
  ghost predicate Route(path: seq<Node>, cells: set<Node>, start: Node, expanded: seq<Node>)
    reads cells`neighbors
  {
    && (forall k :: 0 <= k < |path| ==> path[k] in cells && path[k] in expanded)
    && (path != [] ==> path[0] == start)
    && (forall k :: 0 <= k < |path| - 1 ==> path[k + 1] in path[k].neighbors)
  }

  /** What an entry records: its cell is start or a cell that was not blocked,
      reached at no more than the entry's distance; the carried path is a
      route of exactly that many cells whose last cell lists the entry's. */
  ghost predicate EntryOk(e: QEntry, d: map<Node, Dist>, cells: set<Node>, start: Node, c0: map<Node, Color>,
                          expanded: seq<Node>)
    reads cells`neighbors
  {
    && e.node in cells && e.node in d && NoMore(d[e.node], Fin(e.dist))
    && e.node in c0 && (e.node == start || c0[e.node] != Blocked)
    && |e.path| == e.dist
    && Route(e.path, cells, start, expanded)
    && (e.path == [] ==> e.node == start)
    && (e.path != [] ==> e.node in e.path[|e.path| - 1].neighbors)
  }

  /** Every entry is as EntryOk says, at a distance no smaller than `floor`
      (the distance of the last dequeued entry). */
  ghost predicate EntriesOk(q: seq<QEntry>, d: map<Node, Dist>, cells: set<Node>, start: Node, c0: map<Node, Color>,
                            expanded: seq<Node>, floor: nat)
    reads cells`neighbors
  {
    forall a :: 0 <= a < |q| ==> EntryOk(q[a], d, cells, start, c0, expanded) && floor <= q[a].dist
  }

  /** Every reached cell not yet expanded has an entry carrying its distance. */
  ghost predicate Witnessed(s: State, cells: set<Node>, expanded: seq<Node>) {
    forall n :: n in cells && n !in expanded && n in s.distances && s.distances[n].Fin? ==>
      (n, s.distances[n].n) in Carried(s.pq)
  }

  /** All invariants of the search variables. */
  ghost predicate SearchOk(s: State, cells: set<Node>, start: Node, end: Node, c0: map<Node, Color>,
                           expanded: seq<Node>, floor: nat)
    reads cells`neighbors
  {
    && start in cells && c0.Keys == cells && s.distances.Keys == cells
    && s.distances[start] == Fin(0)
    && (forall n :: n in expanded ==> n in cells && n != end && (n == start || c0[n] != Blocked))
    && EntriesOk(s.pq, s.distances, cells, start, c0, expanded, floor)
    && Witnessed(s, cells, expanded)
  }

  /** The distances of expanded cells are final: none exceeds `floor`, and
      each neighbour of an expanded cell is at most one step further. */
  ghost predicate Settled(d: map<Node, Dist>, cells: set<Node>, expanded: seq<Node>, floor: nat)
    reads cells`neighbors
  {
    && (forall e :: e in expanded ==> e in d && d[e].Fin? && d[e].n <= floor)
    && (forall e, m {:trigger m in e.neighbors, e in expanded} :: e in cells && e in expanded && m in e.neighbors ==>
          m in d && d[m].Fin? && d[m].n <= d[e].n + 1)
  }

  /** Relaxing the edges of `cur`, dequeued at distance `curDis` no smaller
      than any expanded cell's, leaves the expanded cells' distances alone, so
      they stay settled with cur added. */
  lemma SettledAfterVisit(d0: map<Node, Dist>, d: map<Node, Dist>, cells: set<Node>, prior: seq<Node>, cur: Node,
                          curDis: nat)
    requires Settled(d0, cells, prior, curDis) && d0.Keys == cells && d.Keys == cells && cur in cells
    requires d0[cur].Fin? && d0[cur].n <= curDis && (cur in prior || d0[cur] == Fin(curDis))
    requires forall n :: n in cells ==> NoMore(d[n], d0[n]) && (d[n] == d0[n] || d[n] == Fin(curDis + 1))
    requires forall m :: m in cur.neighbors ==> m in d && d[m].Fin? && d[m].n <= curDis + 1
    ensures Settled(d, cells, prior + [cur], curDis)
  {
    forall e | e in prior + [cur] ensures e in d && d[e] == d0[e] {
      assert e in d0 && d0[e].Fin? && d0[e].n <= curDis;
    }
  }

  /** The invariants the relaxation of `cur`'s edges relies on: the new path
      is a route ending at cur, one cell longer than cur's distance, and the
      recorded distance of cur is at most that distance. */
  ghost predicate Extends(path: seq<Node>, cur: Node, curDis: nat, d: map<Node, Dist>, cells: set<Node>,
                          start: Node, expanded: seq<Node>, floor: nat)
    reads cells`neighbors
  {
    && path != [] && path[|path| - 1] == cur && |path| == curDis + 1
    && Route(path, cells, start, expanded)
    && floor <= curDis
    && cur in d && d[cur].Fin? && d[cur].n <= curDis
  }

  /** One pass of the inner loop's body on the search variables, for the edge
      to `nb`: with dis = cur_dis + 1, a shorter distance is recorded and
      (dis, nb, path) is queued. */
  function RelaxEdge(s: State, curDis: nat, nb: Node, path: seq<Node>): (r: State)
    requires nb in s.distances
    ensures r.distances.Keys == s.distances.Keys
    ensures NoMore(r.distances[nb], Fin(curDis + 1)) && NoMore(r.distances[nb], s.distances[nb])
    ensures forall n :: n in s.distances && n != nb ==> r.distances[n] == s.distances[n]
    ensures r == s || (r.distances[nb] == Fin(curDis + 1) && r.pq == s.pq + [QEntry(curDis + 1, nb, path)])
  {
    var dis := curDis + 1;
    if Below(dis, s.distances[nb]) then
      State(s.pq + [QEntry(dis, nb, path)], s.distances[nb := Fin(dis)])
    else s
  }

  /** Relaxing an edge keeps every entry, and the new one, as EntryOk says. */
  lemma RelaxKeepsEntries(s: State, cells: set<Node>, start: Node, c0: map<Node, Color>, expanded: seq<Node>,
                          floor: nat, cur: Node, curDis: nat, path: seq<Node>, nb: Node)
    requires c0.Keys == cells && s.distances.Keys == cells
    requires EntriesOk(s.pq, s.distances, cells, start, c0, expanded, floor)
    requires Extends(path, cur, curDis, s.distances, cells, start, expanded, floor)
    requires nb in cur.neighbors && nb in cells && c0[nb] != Blocked
    ensures var r := RelaxEdge(s, curDis, nb, path);
      EntriesOk(r.pq, r.distances, cells, start, c0, expanded, floor)
  {
    var r := RelaxEdge(s, curDis, nb, path);
    if r != s {
      forall a | 0 <= a < |r.pq| ensures EntryOk(r.pq[a], r.distances, cells, start, c0, expanded) {
        if a < |s.pq| {
          assert r.pq[a] == s.pq[a];
          assert EntryOk(s.pq[a], s.distances, cells, start, c0, expanded);
        } else {
          assert r.pq[a] == QEntry(curDis + 1, nb, path);
        }
      }
    }
  }

  /** Relaxing an edge keeps every reached, unexpanded cell witnessed. */
  lemma RelaxKeepsWitnessed(s: State, cells: set<Node>, expanded: seq<Node>, curDis: nat, path: seq<Node>, nb: Node)
    requires nb in s.distances && Witnessed(s, cells, expanded)
    ensures Witnessed(RelaxEdge(s, curDis, nb, path), cells, expanded)
  {
    var r := RelaxEdge(s, curDis, nb, path);
    if r != s {
      QueuedAfterPush(s.pq, QEntry(curDis + 1, nb, path));
    }
  }

  /** Relaxing never raises a distance, leaves start's and cur's alone, and
      either changes nothing or strictly lowers the termination measure. */
  lemma RelaxLowers(s: State, cells: set<Node>, start: Node, cur: Node, curDis: nat, path: seq<Node>, nb: Node,
                    ns: seq<Node>)
    requires s.distances.Keys == cells && nb in cells && nb in ns && cur in cells
    requires start in cells && s.distances[start] == Fin(0)
    requires s.distances[cur].Fin? && s.distances[cur].n <= curDis
    ensures var r := RelaxEdge(s, curDis, nb, path);
      && r.distances.Keys == cells
      && r.distances[start] == Fin(0) && r.distances[cur] == s.distances[cur]
      && r.distances[nb].Fin? && r.distances[nb].n <= curDis + 1
      && (r == s || Progress(r.distances, s.distances, ns))
      && (forall n :: n in cells ==> NoMore(r.distances[n], s.distances[n]))
      && (forall n :: n in cells ==> r.distances[n] == s.distances[n] || r.distances[n] == Fin(curDis + 1))
  {
    if Below(curDis + 1, s.distances[nb]) {
      LowerScore(s.distances, nb, curDis + 1, ns);
    }
  }

  /** Relaxing an edge of `cur` keeps every invariant of the search variables. */
  lemma RelaxKeepsSearch(s: State, cells: set<Node>, start: Node, end: Node, c0: map<Node, Color>,
                         expanded: seq<Node>, floor: nat, cur: Node, curDis: nat, path: seq<Node>, nb: Node,
                         ns: seq<Node>)
    requires SearchOk(s, cells, start, end, c0, expanded, floor)
    requires Extends(path, cur, curDis, s.distances, cells, start, expanded, floor)
    requires nb in cur.neighbors && nb in cells && c0[nb] != Blocked && nb in ns && cur in cells
    ensures var r := RelaxEdge(s, curDis, nb, path);
      && SearchOk(r, cells, start, end, c0, expanded, floor)
      && Extends(path, cur, curDis, r.distances, cells, start, expanded, floor)
      && r.distances[cur] == s.distances[cur] && r.distances[nb].Fin? && r.distances[nb].n <= curDis + 1
      && (r == s || Progress(r.distances, s.distances, ns))
      && (forall n :: n in cells ==> NoMore(r.distances[n], s.distances[n]))
      && (forall n :: n in cells ==> r.distances[n] == s.distances[n] || r.distances[n] == Fin(curDis + 1))
  {
    RelaxKeepsEntries(s, cells, start, c0, expanded, floor, cur, curDis, path, nb);
    RelaxKeepsWitnessed(s, cells, expanded, curDis, path, nb);
    RelaxLowers(s, cells, start, cur, curDis, path, nb, ns);
  }

  /** What holds of the variables throughout the relaxation loop that started
      from `s0`. */
  ghost predicate Relaxing(s: State, s0: State, cur: Node, curDis: nat, path: seq<Node>, start: Node, end: Node,
                           cells: set<Node>, c0: map<Node, Color>, expanded: seq<Node>, floor: nat, ns: seq<Node>)
    reads cells`neighbors
  {
    && cur in cells && cur in expanded && start in cells
    && SearchOk(s, cells, start, end, c0, expanded, floor)
    && Extends(path, cur, curDis, s.distances, cells, start, expanded, floor)
    && s0.distances.Keys == cells
    && (s == s0 || Progress(s.distances, s0.distances, ns))
    && (forall n :: n in cells ==> NoMore(s.distances[n], s0.distances[n]))
    && (forall n :: n in cells ==> s.distances[n] == s0.distances[n] || s.distances[n] == Fin(curDis + 1))
    && (forall m :: m in cur.neighbors ==> m in cells && c0[m] != Blocked)
    && (forall n :: n in cells ==> n in ns)
  }

  /** The relaxation loop over the neighbours of the dequeued cell `cur`
      (the inner `for` of algorithm), with `path` = the entry's path + [cur].
      Afterwards every neighbour of cur has been reached, at most one step
      further than cur's entry, and every distance is either as before or
      lowered to that. */
  method Relax(cur: Node, curDis: nat, path: seq<Node>, start: Node, end: Node, s0: State,
               ghost cells: set<Node>, ghost c0: map<Node, Color>, ghost expanded: seq<Node>, ghost floor: nat,
               ghost ns: seq<Node>)
    returns (s: State)
    requires cur in cells && cur in expanded
    requires SearchOk(s0, cells, start, end, c0, expanded, floor)
    requires Extends(path, cur, curDis, s0.distances, cells, start, expanded, floor)
    requires Painted(cells, start, c0, expanded, Queued(s0.pq), {cur})
    requires forall m :: m in cur.neighbors ==> m in cells && c0[m] != Blocked
    requires forall n :: n in cells ==> n in ns
    modifies cells`color
    ensures SearchOk(s, cells, start, end, c0, expanded, floor)
    ensures Painted(cells, start, c0, expanded, Queued(s.pq), {cur})
    ensures cur.color == old(cur.color)
    ensures s == s0 || Progress(s.distances, s0.distances, ns)
    ensures forall n :: n in cells ==> NoMore(s.distances[n], s0.distances[n])
    ensures forall n :: n in cells ==> s.distances[n] == s0.distances[n] || s.distances[n] == Fin(curDis + 1)
    ensures forall m :: m in cur.neighbors ==> s.distances[m].Fin? && s.distances[m].n <= curDis + 1
  {
    s := s0;
    for k := 0 to |cur.neighbors|
      invariant Relaxing(s, s0, cur, curDis, path, start, end, cells, c0, expanded, floor, ns)
      invariant Painted(cells, start, c0, expanded, Queued(s.pq), {cur})
      invariant cur.color == old(cur.color)
      invariant forall j :: 0 <= j < k ==> s.distances[cur.neighbors[j]].Fin? && s.distances[cur.neighbors[j]].n <= curDis + 1
    {
      s := RelaxNext(cur, curDis, path, cur.neighbors[k], start, end, s, s0, cells, c0, expanded, floor, ns);
    }
  }

  /** One iteration of the relaxation loop, for `neighbor`. */
  method RelaxNext(cur: Node, curDis: nat, path: seq<Node>, neighbor: Node, start: Node, end: Node, s: State,
                   ghost s0: State, ghost cells: set<Node>, ghost c0: map<Node, Color>, ghost expanded: seq<Node>,
                   ghost floor: nat, ghost ns: seq<Node>)
    returns (r: State)
    requires Relaxing(s, s0, cur, curDis, path, start, end, cells, c0, expanded, floor, ns)
    requires Painted(cells, start, c0, expanded, Queued(s.pq), {cur})
    requires neighbor in cur.neighbors
    modifies neighbor`color
    ensures Relaxing(r, s0, cur, curDis, path, start, end, cells, c0, expanded, floor, ns)
    ensures Painted(cells, start, c0, expanded, Queued(r.pq), {cur})
    ensures cur.color == old(cur.color)
    ensures r.distances[neighbor].Fin? && r.distances[neighbor].n <= curDis + 1
    ensures forall n :: n in cells ==> NoMore(r.distances[n], s.distances[n])
  {
    RelaxingAfterEdge(s, s0, cur, curDis, path, neighbor, start, end, cells, c0, expanded, floor, ns);
    r := RelaxStep(s, curDis, neighbor, path, cur, start, cells, c0, expanded);
  }

  /** Relaxing one more edge of `cur` keeps the loop's invariant and reaches
      the edge's far cell. */
  lemma RelaxingAfterEdge(s: State, s0: State, cur: Node, curDis: nat, path: seq<Node>, nb: Node, start: Node,
                          end: Node, cells: set<Node>, c0: map<Node, Color>, expanded: seq<Node>, floor: nat,
                          ns: seq<Node>)
    requires Relaxing(s, s0, cur, curDis, path, start, end, cells, c0, expanded, floor, ns)
    requires nb in cur.neighbors
    ensures var r := RelaxEdge(s, curDis, nb, path);
      && Relaxing(r, s0, cur, curDis, path, start, end, cells, c0, expanded, floor, ns)
      && r.distances[nb].Fin? && r.distances[nb].n <= curDis + 1
      && (forall n :: n in cells ==> NoMore(r.distances[n], s.distances[n]))
  {
    var r := RelaxEdge(s, curDis, nb, path);
    RelaxKeepsSearch(s, cells, start, end, c0, expanded, floor, cur, curDis, path, nb, ns);
    if r != s && s != s0 {
      ProgressTransitive(r.distances, s.distances, s0.distances, ns);
    }
    forall n | n in cells ensures NoMore(r.distances[n], s0.distances[n]) {
      assert NoMore(r.distances[n], s.distances[n]) && NoMore(s.distances[n], s0.distances[n]);
    }
  }

  /** The body of the inner loop for one neighbour: a shorter distance is
      recorded, the neighbour is queued with the new path and painted Open. */
  method RelaxStep(s0: State, curDis: nat, neighbor: Node, path: seq<Node>, ghost cur: Node, ghost start: Node,
                   ghost cells: set<Node>, ghost c0: map<Node, Color>, ghost expanded: seq<Node>)
    returns (s: State)
    requires neighbor in s0.distances && c0.Keys == cells && start in cells && neighbor in cells
    requires cur in s0.distances && s0.distances[cur].Fin? && s0.distances[cur].n <= curDis
    requires start in s0.distances && s0.distances[start] == Fin(0)
    requires Painted(cells, start, c0, expanded, Queued(s0.pq), {cur})
    modifies neighbor`color
    ensures s == RelaxEdge(s0, curDis, neighbor, path)
    ensures Painted(cells, start, c0, expanded, Queued(s.pq), {cur})
    ensures s != s0 ==> neighbor.color == Open
    ensures cur.color == old(cur.color)
  {
    s := s0;
    var dis := curDis + 1;
    if Below(dis, s.distances[neighbor]) {
      s := s.(distances := s.distances[neighbor := Fin(dis)]);
      s := s.(pq := s.pq + [QEntry(dis, neighbor, path)]);
      QueuedAfterPush(s0.pq, QEntry(dis, neighbor, path));
      neighbor.SetOpen();
    }
  }

  /** What holds of the search variables at the head of the main loop. */
  ghost predicate Searching(s: State, cells: set<Node>, start: Node, end: Node, c0: map<Node, Color>,
                            expanded: seq<Node>, floor: nat, ns: seq<Node>)
    reads cells`neighbors, cells`color
  {
    && SearchOk(s, cells, start, end, c0, expanded, floor)
    && Painted(cells, start, c0, expanded, Queued(s.pq), {})
    && Complete(s.distances, cells, expanded)
    && Settled(s.distances, cells, expanded, floor)
    && (forall n, m {:trigger m in n.neighbors} :: n in cells && m in n.neighbors ==> m in cells && c0[m] != Blocked)
    && (forall n :: n in cells ==> n in ns)
  }

  /** The loop body for a dequeued cell other than end, with `path` = the
      entry's path + [cur] and `curDis` the entry's distance, which becomes the
      new floor: relax its edges, draw, and paint it Closed unless
      it is start. */
  method Visit(cur: Node, curDis: nat, path: seq<Node>, start: Node, end: Node, s0: State,
               ghost cells: set<Node>, ghost c0: map<Node, Color>, ghost prior: seq<Node>, ghost ns: seq<Node>)
    returns (s: State)
    requires cur in cells
    requires SearchOk(s0, cells, start, end, c0, prior + [cur], curDis)
    requires Extends(path, cur, curDis, s0.distances, cells, start, prior + [cur], curDis)
    requires Painted(cells, start, c0, prior + [cur], Queued(s0.pq), {cur})
    requires Complete(s0.distances, cells, prior)
    requires Settled(s0.distances, cells, prior, curDis) && (cur in prior || s0.distances[cur] == Fin(curDis))
    requires forall n, m {:trigger m in n.neighbors} :: n in cells && m in n.neighbors ==> m in cells && c0[m] != Blocked
    requires forall n :: n in cells ==> n in ns
    modifies cells`color
    ensures Searching(s, cells, start, end, c0, prior + [cur], curDis, ns)
    ensures s == s0 || Progress(s.distances, s0.distances, ns)
  {
    s := Relax(cur, curDis, path, start, end, s0, cells, c0, prior + [cur], curDis, ns);
    CompleteAfterVisit(s0.distances, s.distances, cells, prior, cur);
    SettledAfterVisit(s0.distances, s.distances, cells, prior, cur, curDis);
    Close(cur, start, Queued(s.pq), cells, c0, prior + [cur]);
  }

  /** An entry stays as EntryOk says when one more cell is expanded. */
  lemma EntryGrows(e: QEntry, d: map<Node, Dist>, cells: set<Node>, start: Node, c0: map<Node, Color>,
                   expanded: seq<Node>, x: Node)
    requires EntryOk(e, d, cells, start, c0, expanded)
    ensures EntryOk(e, d, cells, start, c0, expanded + [x])
  {
    assert forall k :: 0 <= k < |e.path| ==> e.path[k] in expanded + [x];
  }

  /** Taking a least entry out leaves entries no closer than it, each as
      EntryOk says once its cell counts as expanded. */
  lemma DequeueEntries(q: seq<QEntry>, i: nat, d: map<Node, Dist>, cells: set<Node>, start: Node,
                       c0: map<Node, Color>, expanded: seq<Node>, floor: nat)
    requires Least(q, i) && EntriesOk(q, d, cells, start, c0, expanded, floor)
    ensures EntriesOk(RemoveAt(q, i), d, cells, start, c0, expanded + [q[i].node], q[i].dist)
  {
    var r := RemoveAt(q, i);
    RemoveAtKeeps(q, i);
    forall a | 0 <= a < |r|
      ensures EntryOk(r[a], d, cells, start, c0, expanded + [q[i].node]) && q[i].dist <= r[a].dist
    {
      var k := if a < i then a else a + 1;
      assert r[a] == q[k];
      EntryGrows(q[k], d, cells, start, c0, expanded, q[i].node);
    }
  }

  /** Taking entry i out and expanding its cell keeps every other reached,
      unexpanded cell witnessed. */
  lemma DequeueWitnessed(s: State, i: nat, cells: set<Node>, expanded: seq<Node>)
    requires i < |s.pq| && Witnessed(s, cells, expanded)
    ensures Witnessed(State(RemoveAt(s.pq, i), s.distances), cells, expanded + [s.pq[i].node])
  {
    var d := s.distances;
    var r := RemoveAt(s.pq, i);
    QueuedAfterRemove(s.pq, i);
    forall n | n in cells && n !in expanded + [s.pq[i].node] && n in d && d[n].Fin?
      ensures (n, d[n].n) in Carried(r)
    {
      assert (n, d[n].n) in Carried(s.pq);
      var k :| 0 <= k < |s.pq| && (s.pq[k].node, s.pq[k].dist) == (n, d[n].n);
      assert k != i;
    }
  }

  /** The path a dequeued entry carries, with its cell appended, is the
      route the relaxation of that cell's edges hands on. */
  lemma DequeueExtends(e: QEntry, d: map<Node, Dist>, cells: set<Node>, start: Node, c0: map<Node, Color>,
                       expanded: seq<Node>)
    requires EntryOk(e, d, cells, start, c0, expanded)
    ensures Extends(e.path + [e.node], e.node, e.dist, d, cells, start, expanded + [e.node], e.dist)
  {
    var p := e.path + [e.node];
    var x := expanded + [e.node];
    forall k | 0 <= k < |p| ensures p[k] in cells && p[k] in x {
      if k < |e.path| {
        assert p[k] == e.path[k];
      }
    }
    forall k | 0 <= k < |p| - 1 ensures p[k + 1] in p[k].neighbors {
      assert p[k] == e.path[k];
      if k < |e.path| - 1 {
        assert p[k + 1] == e.path[k + 1];
      }
    }
  }

  /** Taking entry i out, its cell about to be repainted, keeps the colouring
      of every other cell. */
  lemma DequeuePainted(cells: set<Node>, start: Node, c0: map<Node, Color>, expanded: seq<Node>,
                       q: seq<QEntry>, i: nat)
    requires c0.Keys == cells && start in cells && i < |q|
    requires Painted(cells, start, c0, expanded, Queued(q), {})
    ensures Painted(cells, start, c0, expanded + [q[i].node], Queued(RemoveAt(q, i)), {q[i].node})
  {
    QueuedAfterRemove(q, i);
    forall n | n in Queued(q) && n != q[i].node ensures n in Queued(RemoveAt(q, i)) {
      var k :| 0 <= k < |q| && q[k].node == n;
    }
  }

  /** Taking a least entry for a cell other than end off the queue and
      counting its cell as expanded keeps every invariant except the colour of
      that cell, which is about to change. */
  lemma DequeueKeeps(s: State, i: nat, cells: set<Node>, start: Node, end: Node, c0: map<Node, Color>,
                     expanded: seq<Node>, floor: nat, ns: seq<Node>)
    requires Searching(s, cells, start, end, c0, expanded, floor, ns)
    requires Least(s.pq, i) && s.pq[i].node != end
    ensures var e := s.pq[i]; var t := State(RemoveAt(s.pq, i), s.distances);
      && e.node in cells && floor <= e.dist
      && SearchOk(t, cells, start, end, c0, expanded + [e.node], e.dist)
      && Extends(e.path + [e.node], e.node, e.dist, t.distances, cells, start, expanded + [e.node], e.dist)
      && Painted(cells, start, c0, expanded + [e.node], Queued(t.pq), {e.node})
      && Settled(t.distances, cells, expanded, e.dist)
      && (e.node in expanded || t.distances[e.node] == Fin(e.dist))
      && |t.pq| < |s.pq|
  {
    var e := s.pq[i];
    assert EntryOk(e, s.distances, cells, start, c0, expanded);
    DequeueEntries(s.pq, i, s.distances, cells, start, c0, expanded, floor);
    DequeueWitnessed(s, i, cells, expanded);
    DequeueExtends(e, s.distances, cells, start, c0, expanded);
    DequeuePainted(cells, start, c0, expanded, s.pq, i);
    DequeuedAtDistance(s, i, cells, start, c0, expanded, floor);
  }

  /** A least entry for a cell not yet expanded carries that cell's recorded
      distance: the entry witnessing that distance is no nearer. */
  lemma DequeuedAtDistance(s: State, i: nat, cells: set<Node>, start: Node, c0: map<Node, Color>,
                           expanded: seq<Node>, floor: nat)
    requires Least(s.pq, i) && EntriesOk(s.pq, s.distances, cells, start, c0, expanded, floor)
    requires Witnessed(s, cells, expanded)
    ensures s.pq[i].node in expanded || s.distances[s.pq[i].node] == Fin(s.pq[i].dist)
  {
    var e := s.pq[i];
    var d := s.distances;
    assert EntryOk(e, d, cells, start, c0, expanded);
    if e.node !in expanded {
      assert (e.node, d[e.node].n) in Carried(s.pq);
      var k :| 0 <= k < |s.pq| && (s.pq[k].node, s.pq[k].dist) == (e.node, d[e.node].n);
      assert e.dist <= s.pq[k].dist;
    }
  }

  /** One pass of the main loop for a dequeued cell other than end. The
      distances strictly progress, or stay put while the queue shrinks. */
  method Advance(s: State, i: nat, start: Node, end: Node, ghost cells: set<Node>, ghost c0: map<Node, Color>,
                 ghost expanded: seq<Node>, ghost floor: nat, ghost ns: seq<Node>)
    returns (r: State)
    requires Searching(s, cells, start, end, c0, expanded, floor, ns)
    requires Least(s.pq, i) && s.pq[i].node != end
    modifies cells`color
    ensures Searching(r, cells, start, end, c0, expanded + [s.pq[i].node], s.pq[i].dist, ns)
    ensures floor <= s.pq[i].dist
    ensures Progress(r.distances, s.distances, ns) || (r.distances == s.distances && |r.pq| < |s.pq|)
  {
    var e := s.pq[i];
    DequeueKeeps(s, i, cells, start, end, c0, expanded, floor, ns);
    var t := State(RemoveAt(s.pq, i), s.distances);
    var path := e.path + [e.node];
    r := Visit(e.node, e.dist, path, start, end, t, cells, c0, expanded, ns);
  }

  /** What the invariants say about the entry for end once it is dequeued:
      its path is a route from start of exactly the recorded distance of end,
      whose last cell lists end, and which avoids end. */
  lemma DequeueEnd(s: State, i: nat, cells: set<Node>, start: Node, end: Node, c0: map<Node, Color>,
                   expanded: seq<Node>, floor: nat, ns: seq<Node>)
    requires Searching(s, cells, start, end, c0, expanded, floor, ns)
    requires Least(s.pq, i) && s.pq[i].node == end
    ensures var e := s.pq[i];
      && end in cells && (end == start || c0[end] != Blocked)
      && Route(e.path, cells, start, expanded) && |e.path| == e.dist && floor <= e.dist
      && (e.path == [] <==> end == start)
      && (e.path != [] ==> end in e.path[|e.path| - 1].neighbors)
      && s.distances[end] == Fin(e.dist)
      && end !in e.path
  {
    var e := s.pq[i];
    var d := s.distances;
    assert EntryOk(e, d, cells, start, c0, expanded);
    assert (end, d[end].n) in Carried(s.pq);
    var k :| 0 <= k < |s.pq| && (s.pq[k].node, s.pq[k].dist) == (end, d[end].n);
    assert e.dist <= s.pq[k].dist;
    if e.path != [] {
      assert e.path[0] in expanded;
    }
  }

  /** At the end's dequeue, blocked cells other than start are still painted
      Blocked, and start keeps its colour. */
  lemma DequeueEndColors(s: State, cells: set<Node>, start: Node, end: Node, c0: map<Node, Color>,
                         expanded: seq<Node>, floor: nat, ns: seq<Node>)
    requires Searching(s, cells, start, end, c0, expanded, floor, ns)
    ensures forall n :: n in cells && c0[n] == Blocked && n != start ==> n.color == Blocked
    ensures start.color == c0[start]
  {
    forall n | n in Queued(s.pq) ensures n == start || c0[n] != Blocked {
      var k :| 0 <= k < |s.pq| && s.pq[k].node == n;
      assert EntryOk(s.pq[k], s.distances, cells, start, c0, expanded);
    }
  }

  /** reconstruct_path: paints every cell of the path except start, calling
      draw once per cell (the returned count). */
  method ReconstructPath(path: seq<Node>, start: Node, ghost cells: set<Node>) returns (frames: nat)
    requires forall n :: n in path ==> n in cells
    modifies cells`color
    ensures frames == |path|
    ensures forall n :: n in path && n != start ==> n.color == Path
    ensures forall n :: n in cells && n !in path ==> n.color == old(n.color)
    ensures start.color == old(start.color)
  {
    frames := 0;
    for k := 0 to |path|
      invariant frames == k
      invariant forall n {:trigger n in cells} :: n in cells ==>
        n.color == if n in path[..k] && n != start then Path else old(n.color)
      invariant start.color == old(start.color)
    {
      var cur := path[k];
      assert path[..k + 1] == path[..k] + [cur];
      if cur != start {
        cur.MakePath();
      }
      frames := frames + 1;
    }
    assert path[..|path|] == path;
  }

  /** Paints end, then the path, leaving every other cell alone. */
  method Paint(path: seq<Node>, start: Node, end: Node, ghost cells: set<Node>, ghost c0: map<Node, Color>)
    returns (steps: nat)
    requires c0.Keys == cells && start in cells && end in cells
    requires forall n :: n in path ==> n in cells && (n == start || c0[n] != Blocked)
    requires end !in path && (end == start || c0[end] != Blocked)
    requires forall n :: n in cells && c0[n] == Blocked && n != start ==> n.color == Blocked
    requires start.color == c0[start]
    modifies cells`color
    ensures steps == |path| && end.color == End
    ensures forall n :: n in path && n != start ==> n.color == Path
    ensures forall n :: n in cells && n != end && n !in path ==> n.color == old(n.color)
    ensures start != end ==> start.color == c0[start]
    ensures forall n :: n in cells && c0[n] == Blocked && n != start ==> n.color == Blocked
  {
    end.SetEnd();
    steps := ReconstructPath(path, start, cells);
  }

  /** The last pass of the main loop, once end is dequeued: paint end and
      the path its entry carries. */
  method Stop(s: State, i: nat, start: Node, end: Node, ghost cells: set<Node>, ghost c0: map<Node, Color>,
              ghost expanded: seq<Node>, ghost floor: nat, ghost ns: seq<Node>)
    returns (steps: nat, ghost path: seq<Node>)
    requires Searching(s, cells, start, end, c0, expanded, floor, ns)
    requires Least(s.pq, i) && s.pq[i].node == end
    modifies cells`color
    ensures steps == |path| && path == s.pq[i].path
    ensures end.color == End
    ensures end !in path && (path == [] <==> start == end)
    ensures path != [] ==> path[0] == start && end in path[|path| - 1].neighbors
    ensures forall k :: 0 <= k < |path| - 1 ==> path[k + 1] in path[k].neighbors
    ensures forall n :: n in path ==> n in expanded && (n != start ==> n.color == Path)
    ensures s.distances[end] == Fin(|path|) && |path| == s.pq[i].dist && floor <= |path|
    ensures start != end ==> start.color == c0[start]
    ensures forall n :: n in cells && c0[n] == Blocked && n != start ==> n.color == Blocked
    ensures OffPath(cells, start, end, c0, expanded, path)
    ensures Shortest(|path|, start, end, cells)
  {
    var e := s.pq[i];
    DequeueEnd(s, i, cells, start, end, c0, expanded, floor, ns);
    EndIsShortest(s, i, cells, start, end, c0, expanded, floor, ns);
    DequeueEndColors(s, cells, start, end, c0, expanded, floor, ns);
    path := e.path;
    assert forall n :: n in path ==> n in cells && n in expanded;
    label painting:
    steps := Paint(e.path, start, end, cells, c0);
    forall n | n in cells ensures n.neighbors == old@painting(n.neighbors) {
    }
    forall n | n in cells && n != end && n !in path
      ensures n.color == c0[n] || n.color == Open || (n.color == Closed && n in expanded)
    {
      assert n.color == old(n.color);
    }
    forall n | n in expanded && n in cells && n != start && n != end && n !in path
      ensures n.color == Closed || n.color == Open
    {
      assert n.color == old(n.color);
    }
  }

  /** The state before the main loop: only (0, start, []) is queued, and
      every distance but start's is infinite. */
  lemma InitialSearch(s: State, cells: set<Node>, start: Node, end: Node, c0: map<Node, Color>, ns: seq<Node>)
    requires start in cells && c0.Keys == cells
    requires s.pq == [QEntry(0, start, [])]
    requires s.distances == (map n | n in cells :: Inf)[start := Fin(0)]
    requires forall n :: n in cells ==> n.color == c0[n]
    requires forall n, m {:trigger m in n.neighbors} :: n in cells && m in n.neighbors ==> m in cells && c0[m] != Blocked
    requires forall n :: n in cells ==> n in ns
    ensures Searching(s, cells, start, end, c0, [], 0, ns)
  {
    QueuedAfterPush([], QEntry(0, start, []));
    assert [] + [QEntry(0, start, [])] == s.pq;
  }

  /** With the queue empty every cell has its colour from before the search
      or is an expanded cell painted Closed. */
  lemma ExhaustedColors(s: State, cells: set<Node>, start: Node, end: Node, c0: map<Node, Color>,
                        expanded: seq<Node>, floor: nat, ns: seq<Node>)
    requires Searching(s, cells, start, end, c0, expanded, floor, ns) && s.pq == []
    ensures forall n :: n in cells ==> n.color == c0[n] || (n.color == Closed && n in expanded)
    ensures forall n :: n in expanded && n != start ==> n.color == Closed
    ensures forall n :: n in cells && c0[n] == Blocked && n != start ==> n.color == Blocked
  {
    assert Queued(s.pq) == {};
  }

  /** With the queue empty every reached cell has been expanded: start is,
      and so is every neighbour of an expanded cell. */
  lemma ExhaustedClosed(s: State, cells: set<Node>, start: Node, end: Node, c0: map<Node, Color>,
                        expanded: seq<Node>, floor: nat, ns: seq<Node>)
    requires Searching(s, cells, start, end, c0, expanded, floor, ns) && s.pq == []
    ensures start in expanded
    ensures forall n, m {:trigger m in n.neighbors} :: n in expanded && m in n.neighbors ==> m in expanded
  {
    assert Carried(s.pq) == {};
    forall n, m | n in expanded && m in n.neighbors ensures m in expanded {
      assert n in cells;
      assert m in cells && s.distances[m].Fin?;
    }
  }

  /** No walk along the neighbour lists of the grid's cells leads from start
      to end in fewer than `len` steps. */
  ghost predicate Shortest(len: nat, start: Node, end: Node, cells: set<Node>)
    reads cells`neighbors
  {
    forall p: seq<Node> :: p != [] && p[0] == start && p[|p| - 1] == end && WalkIn(p, cells) ==> len <= |p| - 1
  }

  /** Along a walk from start whose first k cells are expanded, the k-th
      cell's recorded distance is at most k. */
  lemma {:induction false} PrefixBound(p: seq<Node>, d: map<Node, Dist>, cells: set<Node>, expanded: seq<Node>,
                                       floor: nat, start: Node, k: nat)
    requires Settled(d, cells, expanded, floor) && start in d && d[start] == Fin(0)
    requires p != [] && p[0] == start && Walk(p) && (forall a :: 0 <= a < |p| ==> p[a] in cells)
    requires k < |p| && forall a :: 0 <= a < k ==> p[a] in expanded
    ensures p[k] in d && d[p[k]].Fin? && d[p[k]].n <= k
    decreases k
  {
    if k > 0 {
      PrefixBound(p, d, cells, expanded, floor, start, k - 1);
      assert p[k] in p[k - 1].neighbors;
    }
  }

  /** A least entry is no further than any walk from start to an unexpanded
      cell: the walk's first unexpanded cell is witnessed by an entry at most
      that many steps away. */
  lemma LeastWithin(s: State, i: nat, cells: set<Node>, start: Node, end: Node, c0: map<Node, Color>,
                    expanded: seq<Node>, floor: nat, ns: seq<Node>, p: seq<Node>)
    requires Searching(s, cells, start, end, c0, expanded, floor, ns) && Least(s.pq, i)
    requires p != [] && p[0] == start && p[|p| - 1] == end && Walk(p)
    requires forall a :: 0 <= a < |p| ==> p[a] in cells
    ensures s.pq[i].dist <= |p| - 1
  {
    var d := s.distances;
    var j := 0;
    while p[j] in expanded
      invariant j < |p| && forall a :: 0 <= a < j ==> p[a] in expanded
      decreases |p| - j
    {
      j := j + 1;
    }
    PrefixBound(p, d, cells, expanded, floor, start, j);
    assert (p[j], d[p[j]].n) in Carried(s.pq);
    var k :| 0 <= k < |s.pq| && (s.pq[k].node, s.pq[k].dist) == (p[j], d[p[j]].n);
    assert s.pq[i].dist <= s.pq[k].dist;
  }

  /** When end's entry is the least, its distance is that of a shortest walk
      from start to end. */
  lemma EndIsShortest(s: State, i: nat, cells: set<Node>, start: Node, end: Node, c0: map<Node, Color>,
                      expanded: seq<Node>, floor: nat, ns: seq<Node>)
    requires Searching(s, cells, start, end, c0, expanded, floor, ns) && Least(s.pq, i)
    ensures Shortest(s.pq[i].dist, start, end, cells)
  {
    forall p: seq<Node> | p != [] && p[0] == start && p[|p| - 1] == end && WalkIn(p, cells)
      ensures s.pq[i].dist <= |p| - 1
    {
      LeastWithin(s, i, cells, start, end, c0, expanded, floor, ns, p);
    }
  }

  /** The distances of the dequeued entries never decrease, and none exceeds
      `floor`. */
  ghost predicate Ordered(popped: seq<nat>, floor: nat) {
    && (forall a, b :: 0 <= a < b < |popped| ==> popped[a] <= popped[b])
    && (forall a :: 0 <= a < |popped| ==> popped[a] <= floor)
  }

  lemma OrderedAppend(popped: seq<nat>, floor: nat, x: nat)
    requires Ordered(popped, floor) && floor <= x
    ensures Ordered(popped + [x], x)
  {
  }

  /** The main loop's records when end was dequeued: end is the last
      expanded cell and was not expanded before; `path` is the route its entry
      carried, of exactly the distance recorded for end and dequeued last, no
      longer than any walk from start to end, and painted Path; `frames` counts one draw per expanded cell before end and
      one per cell of `path`; every other cell keeps the colouring the loop
      left on it. */
  ghost predicate Reached(frames: nat, expanded: seq<Node>, popped: seq<nat>, path: seq<Node>,
                          distances: map<Node, Dist>, cells: set<Node>, start: Node, end: Node,
                          c0: map<Node, Color>)
    reads cells`neighbors, cells`color, end`color
    requires c0.Keys == cells
  {
    && expanded != [] && expanded[|expanded| - 1] == end && end !in expanded[..|expanded| - 1]
    && |popped| == |expanded|
    && frames == |expanded| - 1 + |path|
    && end.color == End
    && (forall n :: n in path ==> n in expanded && n in cells && (n != start ==> n.color == Path))
    && end !in path && (path == [] <==> start == end)
    && (path != [] ==> path[0] == start && end in path[|path| - 1].neighbors)
    && (forall k :: 0 <= k < |path| - 1 ==> path[k + 1] in path[k].neighbors)
    && |path| == popped[|popped| - 1] && end in distances && distances[end] == Fin(|path|)
    && Shortest(|path|, start, end, cells)
    && OffPath(cells, start, end, c0, expanded, path)
  }

  /** What the main loop has done once it stops: `found` says whether end was
      dequeued; the dequeued distances never decrease; start keeps its
      colour and so does every blocked cell; start's distance stays 0. */
  ghost predicate Finished(found: bool, frames: nat, expanded: seq<Node>, popped: seq<nat>, path: seq<Node>,
                           distances: map<Node, Dist>, cells: set<Node>, start: Node, end: Node,
                           c0: map<Node, Color>)
    reads cells`neighbors, cells`color, start`color, end`color
    requires c0.Keys == cells
  {
    && (found <==> end in expanded)
    && |popped| == |expanded| && (forall a, b :: 0 <= a < b < |popped| ==> popped[a] <= popped[b])
    && (start != end && start in cells ==> start.color == c0[start])
    && (forall n :: n in cells && c0[n] == Blocked && n != start ==> n.color == Blocked)
    && start in distances && distances[start] == Fin(0)
    && (found ==> Reached(frames, expanded, popped, path, distances, cells, start, end, c0))
    && (!found ==> Unreached(frames, expanded, cells, start, c0))
  }

  /** The main loop's last pass, once end is dequeued, with the loop's
      records brought up to date. */
  method Found(s: State, i: nat, start: Node, end: Node, ghost cells: set<Node>, ghost c0: map<Node, Color>,
               ghost expanded: seq<Node>, ghost popped: seq<nat>, ghost floor: nat, frames: nat, ghost ns: seq<Node>)
    returns (frames': nat, ghost expanded': seq<Node>, ghost popped': seq<nat>, ghost path: seq<Node>)
    requires Searching(s, cells, start, end, c0, expanded, floor, ns)
    requires Least(s.pq, i) && s.pq[i].node == end
    requires frames == |expanded| && |popped| == |expanded| && Ordered(popped, floor)
    modifies cells`color
    ensures Finished(true, frames', expanded', popped', path, s.distances, cells, start, end, c0)
  {
    var steps;
    steps, path := Stop(s, i, start, end, cells, c0, expanded, floor, ns);
    OffPathWithEnd(cells, start, end, c0, expanded, path);
    OrderedAppend(popped, floor, s.pq[i].dist);
    frames' := frames + steps;
    expanded', popped' := expanded + [end], popped + [s.pq[i].dist];
  }

  /** The loop's records once the queue runs empty without end being
      dequeued. */
  lemma Exhausted(s: State, cells: set<Node>, start: Node, end: Node, c0: map<Node, Color>,
                  expanded: seq<Node>, popped: seq<nat>, floor: nat, frames: nat, ns: seq<Node>)
    requires Searching(s, cells, start, end, c0, expanded, floor, ns) && s.pq == []
    requires frames == |expanded| && |popped| == |expanded| && Ordered(popped, floor)
    ensures Finished(false, frames, expanded, popped, [], s.distances, cells, start, end, c0)
  {
    ExhaustedColors(s, cells, start, end, c0, expanded, floor, ns);
    ExhaustedClosed(s, cells, start, end, c0, expanded, floor, ns);
  }

  /** One pass of the main loop: dequeue an entry of least distance; if it
      is end's, paint the path and report the search done, else expand its
      cell. Either the distances strictly progress or the queue shrinks. */
  method Step(s: State, start: Node, end: Node, ghost cells: set<Node>, ghost c0: map<Node, Color>,
              ghost expanded: seq<Node>, ghost popped: seq<nat>, ghost floor: nat, frames: nat, ghost ns: seq<Node>)
    returns (done: bool, s': State, frames': nat, ghost expanded': seq<Node>, ghost popped': seq<nat>,
             ghost floor': nat, ghost path: seq<Node>)
    requires Searching(s, cells, start, end, c0, expanded, floor, ns) && s.pq != []
    requires frames == |expanded| && |popped| == |expanded| && Ordered(popped, floor)
    modifies cells`color
    ensures done ==> Finished(true, frames', expanded', popped', path, s.distances, cells, start, end, c0)
    ensures !done ==> Searching(s', cells, start, end, c0, expanded', floor', ns)
    ensures !done ==> frames' == |expanded'| && |popped'| == |expanded'| && Ordered(popped', floor')
    ensures !done ==> Progress(s'.distances, s.distances, ns) || (s'.distances == s.distances && |s'.pq| < |s.pq|)
  {
    var i := PickLeast(s.pq);
    if s.pq[i].node == end {
      frames', expanded', popped', path := Found(s, i, start, end, cells, c0, expanded, popped, floor, frames, ns);
      done, s', floor' := true, s, floor;
      return;
    }
    ghost var e := s.pq[i];
    s' := Advance(s, i, start, end, cells, c0, expanded, floor, ns);
    OrderedAppend(popped, floor, e.dist);
    done, path := false, [];
    expanded', popped', floor' := expanded + [e.node], popped + [e.dist], e.dist;
    frames' := frames + 1;  // draw()
  }

  /** The main loop of algorithm, from the state holding only start's entry.
      The ghost results record the expanded cells and the distances of their
      entries in dequeue order, the painted path and the final distances. */
  method Search(s0: State, start: Node, end: Node, ghost cells: set<Node>, ghost c0: map<Node, Color>,
                ghost ns: seq<Node>)
    returns (found: bool, frames: nat, ghost expanded: seq<Node>, ghost popped: seq<nat>, ghost path: seq<Node>,
             ghost distances: map<Node, Dist>)
    requires Searching(s0, cells, start, end, c0, [], 0, ns)
    modifies cells`color
    ensures Finished(found, frames, expanded, popped, path, distances, cells, start, end, c0)
  {
    var s := s0;
    expanded, popped := [], [];
    ghost var floor: nat := 0;
    frames := 0;
    while s.pq != []
      invariant Searching(s, cells, start, end, c0, expanded, floor, ns)
      invariant frames == |expanded| && |popped| == |expanded|
      invariant Ordered(popped, floor)
      decreases InfCount(s.distances, ns), FinSum(s.distances, ns), |s.pq|
    {
      var done, s';
      ghost var before := s.distances;
      done, s', frames, expanded, popped, floor, path := Step(s, start, end, cells, c0, expanded, popped, floor,
                                                             frames, ns);
      if done {
        found, distances := true, before;
        return;
      }
      s := s';
    }
    Exhausted(s, cells, start, end, c0, expanded, popped, floor, frames, ns);
    found, path, distances := false, [], s.distances;
  }

  /** algorithm: uniform-cost search from start to end. Returns whether end
      was dequeued, and the number of draw calls made. The ghost results
      record the expanded cells and their entries' distances in dequeue
      order, the painted path (from start up to end's predecessor) and the
      final distances. When end is found, no walk along the neighbour lists
      from start to end is shorter than the path; when it is not found, no
      such walk exists. */
  method Algorithm(grid: Grid, start: Node, end: Node)
    returns (found: bool, frames: nat, ghost expanded: seq<Node>, ghost popped: seq<nat>, ghost path: seq<Node>,
             ghost distances: map<Node, Dist>)
    requires start in Cells(grid) && end in Cells(grid)
    requires NeighborsInside(grid) && NoBlockedNeighbors(grid)
    modifies Cells(grid)`color
    ensures Finished(found, frames, expanded, popped, path, distances, Cells(grid), start, end, old(Colors(Cells(grid))))
    ensures !found ==> forall p: seq<Node> :: p != [] && p[0] == start && Walk(p) ==> end !in p
    ensures found ==> forall p: seq<Node> :: p != [] && p[0] == start && p[|p| - 1] == end && Walk(p) ==>
      |path| <= |p| - 1
  {
    ghost var cells := Cells(grid);
    ghost var c0 := Colors(cells);
    ghost var ns := Flatten(grid);
    forall n | n in cells ensures n in ns {
      CellsAreListed(grid, n);
    }
    forall n, m | n in cells && m in n.neighbors ensures m in cells && c0[m] != Blocked {
      assert m in Cells(grid) && !m.IsBlocked();
      assert c0[m] == m.color;
    }
    var d := (map n | n in Cells(grid) :: Inf)[start := Fin(0)];
    var s := State([QEntry(0, start, [])], d);
    InitialSearch(s, cells, start, end, c0, ns);
    found, frames, expanded, popped, path, distances := Search(s, start, end, cells, c0, ns);
    if !found {
      Unreachable(expanded, start, end);
    } else {
      forall p: seq<Node> | p != [] && p[0] == start && p[|p| - 1] == end && Walk(p) ensures |path| <= |p| - 1 {
        WalkStaysIn(p, cells);
        assert WalkIn(p, cells);
      }
    }
  }
}
