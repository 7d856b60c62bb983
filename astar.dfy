/** The A* script: neighbour lists built with Python's negative indexing, the
    Manhattan heuristic, the search loop over a priority queue keyed by
    (f_score, count), and path reconstruction through `came_from`. */
module AStar {
  import opened Board
  import Dijkstra

  // ---------------------------------------------------------------------
  // Neighbours
  // ---------------------------------------------------------------------

  /** Python's `seq[k]` index for -n <= k < n: a negative index counts from
      the end, so -1 names the last row (or column). */
  function PyIndex(k: int, n: int): (i: int)
    requires -n <= k < n
    ensures 0 <= i < n
  {
    if k < 0 then k + n else k
  }

  /** The list update_neighbors builds for the cell at (r, c), in its order:
      down, up, right, left. The up and left guards are `>= 0`, so on row 0
      "up" is row R-1 and on column 0 "left" is column R-1. */
  function WrapNeighbors(grid: Grid, r: int, c: int): (ns: seq<Node>)
    requires Shaped(grid, |grid|) && 0 <= r < |grid| && 0 <= c < |grid|
    reads Cells(grid)`color
    ensures |ns| <= 4 && forall k :: k in ns ==> !k.IsBlocked()
  {
    var total := |grid|;
    (if r < total - 1 then Unblocked(grid[r + 1][c]) else [])
    + (if r >= 0 then Unblocked(grid[PyIndex(r - 1, total)][c]) else [])
    + (if c < total - 1 then Unblocked(grid[r][c + 1]) else [])
    + (if c >= 0 then Unblocked(grid[r][PyIndex(c - 1, total)]) else [])
  }

  /** Position q is one of the four candidates update_neighbors looks at for
      position p in an R x R grid, counting Python's wrapped index -1. */
  predicate WrapAdjacent(total: int, p: (int, int), q: (int, int)) {
    || (p.0 < total - 1 && q == (p.0 + 1, p.1))
    || (q == (if p.0 == 0 then total - 1 else p.0 - 1, p.1))
    || (p.1 < total - 1 && q == (p.0, p.1 + 1))
    || (q == (p.0, if p.1 == 0 then total - 1 else p.1 - 1))
  }

  /** Every listed cell is a cell of the grid. */
  lemma WrapNeighborsInside(grid: Grid, r: int, c: int)
    requires Shaped(grid, |grid|) && 0 <= r < |grid| && 0 <= c < |grid|
    ensures forall k :: k in WrapNeighbors(grid, r, c) ==> k in Cells(grid)
  {
  }

  /** The list holds exactly the unblocked wrapped-adjacent cells. */
  lemma WrapNeighborsExactly(grid: Grid, r: int, c: int, m: Node)
    requires Shaped(grid, |grid|) && 0 <= r < |grid| && 0 <= c < |grid| && m in Cells(grid)
    ensures m in WrapNeighbors(grid, r, c) <==> !m.IsBlocked() && WrapAdjacent(|grid|, (r, c), m.GetPos())
  {
    ShapedCell(grid, |grid|, m);
    var total := |grid|;
    var upRow, leftCol := PyIndex(r - 1, total), PyIndex(c - 1, total);
    var down := if r < total - 1 then Unblocked(grid[r + 1][c]) else [];
    var up := Unblocked(grid[upRow][c]);
    var right := if c < total - 1 then Unblocked(grid[r][c + 1]) else [];
    var left := Unblocked(grid[r][leftCol]);
    assert WrapNeighbors(grid, r, c) == down + up + right + left;
    if m in down {
      assert m == grid[r + 1][c];
    } else if m in up {
      assert m == grid[upRow][c];
    } else if m in right {
      assert m == grid[r][c + 1];
    } else if m in left {
      assert m == grid[r][leftCol];
    }
    if !m.IsBlocked() && WrapAdjacent(total, (r, c), m.GetPos()) {
      if r < total - 1 && m.GetPos() == (r + 1, c) {
        assert m in down;
      } else if m.GetPos() == (upRow, c) {
        assert m in up;
      } else if c < total - 1 && m.GetPos() == (r, c + 1) {
        assert m in right;
      } else {
        assert m in left;
      }
    }
  }

  /** The wrap: a cell on the top row lists the bottom cell of its column as its
      "up" neighbour, although the Manhattan distance between them is R-1. */
  lemma WrapsTopToBottom(grid: Grid, c: int)
    requires Shaped(grid, |grid|) && 0 <= c < |grid|
    requires !grid[|grid| - 1][c].IsBlocked()
    ensures grid[|grid| - 1][c] in WrapNeighbors(grid, 0, c)
    ensures H(grid[0][c].GetPos(), grid[|grid| - 1][c].GetPos()) == |grid| - 1
  {
  }

  /** Likewise a cell in the left column lists the rightmost cell of its row. */
  lemma WrapsLeftToRight(grid: Grid, r: int)
    requires Shaped(grid, |grid|) && 0 <= r < |grid|
    requires !grid[r][|grid| - 1].IsBlocked()
    ensures grid[r][|grid| - 1] in WrapNeighbors(grid, r, 0)
    ensures H(grid[r][0].GetPos(), grid[r][|grid| - 1].GetPos()) == |grid| - 1
  {
  }

  /** The wrap is one-way: the bottom and right edges add nothing, so in a grid
      of at least three rows a bottom-row cell lists no top-row cell and a
      right-column cell lists no left-column cell. */
  lemma WrapIsOneWay(grid: Grid, r: int, c: int)
    requires Shaped(grid, |grid|) && |grid| >= 3 && 0 <= r < |grid| && 0 <= c < |grid|
    ensures r == |grid| - 1 ==> forall m :: m in WrapNeighbors(grid, r, c) ==> m.row != 0
    ensures c == |grid| - 1 ==> forall m :: m in WrapNeighbors(grid, r, c) ==> m.col != 0
  {
  }

  /** update_neighbors: clears the cell's list and appends, in order, each
      candidate that is not blocked. The list is built in a local and stored
      once; nothing reads the field in between. */
  method UpdateNeighbors(node: Node, grid: Grid)
    requires Shaped(grid, |grid|) && 0 <= node.row < |grid| && 0 <= node.col < |grid|
    requires grid[node.row][node.col] == node
    modifies node`neighbors
    ensures node.neighbors == old(WrapNeighbors(grid, node.row, node.col))
  {
    var r, c, total := node.row, node.col, node.totalRows;
    var upRow, leftCol := PyIndex(r - 1, total), PyIndex(c - 1, total);
    ghost var down := if r < total - 1 then Unblocked(grid[r + 1][c]) else [];
    ghost var up := if r >= 0 then Unblocked(grid[upRow][c]) else [];
    ghost var right := if c < total - 1 then Unblocked(grid[r][c + 1]) else [];
    ghost var left := if c >= 0 then Unblocked(grid[r][leftCol]) else [];
    assert WrapNeighbors(grid, r, c) == down + up + right + left;
    var neighbors: seq<Node> := [];
    if r < total - 1 && !grid[r + 1][c].IsBlocked() {
      neighbors := neighbors + [grid[r + 1][c]];
    }
    assert neighbors == down;
    if r >= 0 && !grid[upRow][c].IsBlocked() {
      neighbors := neighbors + [grid[upRow][c]];
    }
    assert neighbors == down + up;
    if c < total - 1 && !grid[r][c + 1].IsBlocked() {
      neighbors := neighbors + [grid[r][c + 1]];
    }
    assert neighbors == down + up + right;
    if c >= 0 && !grid[r][leftCol].IsBlocked() {
      neighbors := neighbors + [grid[r][leftCol]];
    }
    assert neighbors == down + up + right + left;
    node.neighbors := neighbors;
  }

  /** Every cell's list is the one update_neighbors builds for it. */
  ghost predicate Refreshed(grid: Grid)
    requires Shaped(grid, |grid|)
    reads Cells(grid)`neighbors, Cells(grid)`color
  {
    forall i, j :: 0 <= i < |grid| && 0 <= j < |grid| ==> grid[i][j].neighbors == WrapNeighbors(grid, i, j)
  }

  /** update_neighbors on each cell of row i, left to right. */
  method RefreshRow(grid: Grid, i: int)
    requires Shaped(grid, |grid|) && 0 <= i < |grid|
    modifies Row(grid, i)`neighbors
    ensures forall j :: 0 <= j < |grid| ==> grid[i][j].neighbors == WrapNeighbors(grid, i, j)
  {
    for j := 0 to |grid|
      invariant forall b :: 0 <= b < j ==> grid[i][b].neighbors == WrapNeighbors(grid, i, b)
    {
      var node := grid[i][j];
      assert node in Row(grid, i) && node in Cells(grid);
      label before:
      UpdateNeighbors(node, grid);
      forall b | 0 <= b <= j ensures grid[i][b].neighbors == WrapNeighbors(grid, i, b) {
        if b < j {
          assert grid[i][b].neighbors == old@before(grid[i][b].neighbors);
        }
        assert WrapNeighbors(grid, i, b) == old@before(WrapNeighbors(grid, i, b));
      }
    }
  }

  /** The main loop's refresh before a search: update_neighbors on every cell,
      row by row. Colours are untouched, so refreshing an already refreshed
      grid changes nothing. */
  method RefreshNeighbors(grid: Grid)
    requires Shaped(grid, |grid|)
    modifies Cells(grid)`neighbors
    ensures Refreshed(grid)
    ensures NeighborsInside(grid) && NoBlockedNeighbors(grid)
    ensures old(Refreshed(grid)) ==>
      forall i, j :: 0 <= i < |grid| && 0 <= j < |grid| ==> grid[i][j].neighbors == old(grid[i][j].neighbors)
  {
    RefreshRows(grid);
    RefreshedIsClosed(grid);
  }

  /** The row loop of the refresh. */
  method RefreshRows(grid: Grid)
    requires Shaped(grid, |grid|)
    modifies Cells(grid)`neighbors
    ensures forall i, j :: 0 <= i < |grid| && 0 <= j < |grid| ==>
      grid[i][j].neighbors == WrapNeighbors(grid, i, j) == old(WrapNeighbors(grid, i, j))
  {
    for i := 0 to |grid|
      invariant forall a, b :: 0 <= a < i && 0 <= b < |grid| ==>
        grid[a][b].neighbors == WrapNeighbors(grid, a, b)
    {
      RefreshNextRow(grid, i);
    }
    forall a, b | 0 <= a < |grid| && 0 <= b < |grid|
      ensures WrapNeighbors(grid, a, b) == old(WrapNeighbors(grid, a, b))
    {
    }
  }

  /** One pass of the row loop: row i is refreshed, the rows above keep the
      lists they were given. */
  method RefreshNextRow(grid: Grid, i: int)
    requires Shaped(grid, |grid|) && 0 <= i < |grid|
    requires forall a, b :: 0 <= a < i && 0 <= b < |grid| ==> grid[a][b].neighbors == WrapNeighbors(grid, a, b)
    modifies Cells(grid)`neighbors
    ensures forall a, b :: 0 <= a <= i && 0 <= b < |grid| ==> grid[a][b].neighbors == WrapNeighbors(grid, a, b)
  {
    forall n | n in Row(grid, i) ensures n in Cells(grid) && n.row == i {
      var j :| 0 <= j < |grid[i]| && grid[i][j] == n;
    }
    label before:
    RefreshRow(grid, i);
    forall a, b | 0 <= a <= i && 0 <= b < |grid|
      ensures grid[a][b].neighbors == WrapNeighbors(grid, a, b)
    {
      if a < i {
        assert grid[a][b] !in Row(grid, i);
        assert grid[a][b].neighbors == old@before(grid[a][b].neighbors);
        assert WrapNeighbors(grid, a, b) == old@before(WrapNeighbors(grid, a, b));
      }
    }
  }

  /** Once every list is the one update_neighbors builds, all neighbours are
      unblocked cells of the grid. */
  lemma RefreshedIsClosed(grid: Grid)
    requires Shaped(grid, |grid|) && Refreshed(grid)
    ensures NeighborsInside(grid) && NoBlockedNeighbors(grid)
  {
    forall n | n in Cells(grid)
      ensures forall m :: m in n.neighbors ==> m in Cells(grid) && !m.IsBlocked()
    {
      ShapedCell(grid, |grid|, n);
      WrapNeighborsInside(grid, n.row, n.col);
      assert n.neighbors == WrapNeighbors(grid, n.row, n.col);
    }
    assert NeighborsInside(grid);
  }

  // ---------------------------------------------------------------------
  // Heuristic
  // ---------------------------------------------------------------------

  function Abs(k: int): nat {
    if k < 0 then -k else k
  }

  /** h: the Manhattan distance between two positions. */
  function H(p1: (int, int), p2: (int, int)): (d: nat)
    ensures d == 0 <==> p1 == p2
  {
    Abs(p1.0 - p2.0) + Abs(p1.1 - p2.1)
  }

  lemma HSymmetric(p1: (int, int), p2: (int, int))
    ensures H(p1, p2) == H(p2, p1)
  {
  }

  lemma HTriangle(p1: (int, int), p2: (int, int), p3: (int, int))
    ensures H(p1, p3) <= H(p1, p2) + H(p2, p3)
  {
  }

  /** Over one orthogonal step the estimate changes by at most one (the
      heuristic is consistent on such steps)... */
  lemma HOneStep(p: (int, int), q: (int, int), goal: (int, int))
    requires H(p, q) == 1
    ensures H(p, goal) <= H(q, goal) + 1 && H(q, goal) <= H(p, goal) + 1
  {
  }

  /** ...but not over a wrapped step: from the top-left cell of a grid of at
      least three rows, the cell one step "up" is estimated R-1 away. */
  lemma WrapStepOverestimates(grid: Grid, c: int)
    requires Shaped(grid, |grid|) && |grid| >= 3 && 0 <= c < |grid|
    requires !grid[|grid| - 1][c].IsBlocked()
    ensures grid[|grid| - 1][c] in WrapNeighbors(grid, 0, c)
    ensures H(grid[0][c].GetPos(), grid[|grid| - 1][c].GetPos()) > 1
  {
    WrapsTopToBottom(grid, c);
  }

  /** One orthogonal step is exactly a Manhattan distance of one. */
  lemma AdjacentIsUnit(p: (int, int), q: (int, int))
    ensures Dijkstra.Adjacent(p, q) <==> H(p, q) == 1
  {
  }

  /** With the bounded neighbour lists of the Dijkstra script every edge is
      a step of Manhattan length one, so the estimate is consistent along it. */
  lemma BoundedStepIsUnit(grid: Grid, r: int, c: int, m: Node, goal: (int, int))
    requires Shaped(grid, |grid|) && 0 <= r < |grid| && 0 <= c < |grid| && m in Cells(grid)
    requires m in Dijkstra.BoundedNeighbors(grid, r, c)
    ensures H((r, c), m.GetPos()) == 1
    ensures H((r, c), goal) <= H(m.GetPos(), goal) + 1
  {
    Dijkstra.BoundedNeighborsExactly(grid, r, c, m);
    AdjacentIsUnit((r, c), m.GetPos());
    HOneStep((r, c), m.GetPos(), goal);
  }

  // ---------------------------------------------------------------------
  // The priority queue
  // ---------------------------------------------------------------------

  /** A queue entry (f_score, count, node). */
  datatype Entry = Entry(f: nat, count: nat, node: Node)

  /** Python's tuple order on the keys (f_score, count). */
  predicate Before(a: Entry, b: Entry) {
    a.f < b.f || (a.f == b.f && a.count < b.count)
  }

  /** The entry PriorityQueue.get hands out: one that no other entry precedes. */
  function MinIndex(q: seq<Entry>): (i: nat)
    requires q != []
    ensures i < |q|
    ensures forall j :: 0 <= j < |q| ==> !Before(q[j], q[i])
  {
    if |q| == 1 then 0
    else
      var k := MinIndex(q[1..]) + 1;
      if Before(q[k], q[0]) then k else 0
  }

  /** Counts increase along the queue, so no two keys are equal. */
  ghost predicate CountsIncrease(q: seq<Entry>) {
    forall a, b :: 0 <= a < b < |q| ==> q[a].count < q[b].count
  }

  /** With distinct counts a least entry is unique: the dequeue order is fully
      determined and never falls through to comparing cells. */
  lemma MinimumIsUnique(q: seq<Entry>, i: nat, j: nat)
    requires CountsIncrease(q) && i < |q| && j < |q|
    requires forall k :: 0 <= k < |q| ==> !Before(q[k], q[i])
    requires forall k :: 0 <= k < |q| ==> !Before(q[k], q[j])
    ensures i == j
  {
    assert q[i].count == q[j].count;
  }

  /** The cells that have an entry in the queue. */
  function Queued(q: seq<Entry>): set<Node> {
    set k | 0 <= k < |q| :: q[k].node
  }

  lemma QueuedAfterPush(q: seq<Entry>, e: Entry)
    ensures Queued(q + [e]) == Queued(q) + {e.node}
  {
    var r := q + [e];
    assert r[|q|] == e;
    forall n | n in Queued(q) ensures n in Queued(r) {
      var k :| 0 <= k < |q| && q[k].node == n;
      assert r[k] == q[k];
    }
  }

  lemma {:induction false} QueuedAfterRemove(q: seq<Entry>, i: nat)
    requires i < |q|
    requires forall a, b :: 0 <= a < b < |q| ==> q[a].node != q[b].node
    ensures Queued(RemoveAt(q, i)) == Queued(q) - {q[i].node}
    ensures CountsIncrease(q) ==> CountsIncrease(RemoveAt(q, i))
    ensures forall a, b :: 0 <= a < b < |RemoveAt(q, i)| ==> RemoveAt(q, i)[a].node != RemoveAt(q, i)[b].node
    ensures forall k :: 0 <= k < |RemoveAt(q, i)| ==> RemoveAt(q, i)[k] == q[if k < i then k else k + 1]
  {
    var r := RemoveAt(q, i);
    assert forall k :: 0 <= k < |r| ==> r[k] == if k < i then q[k] else q[k + 1];
    forall n | n in Queued(q) - {q[i].node} ensures n in Queued(r) {
      var k :| 0 <= k < |q| && q[k].node == n;
      assert r[if k < i then k else k - 1] == q[k];
    }
  }

  // ---------------------------------------------------------------------
  // The came_from chain
  // ---------------------------------------------------------------------

  function Rank(g: map<Node, Dist>, n: Node): nat {
    if n in g && g[n].Fin? then g[n].n else 0
  }

  /** Every recorded predecessor has a finite score strictly below its
      successor's. */
  ghost predicate Ranked(cameFrom: map<Node, Node>, g: map<Node, Dist>) {
    forall n {:trigger cameFrom[n]} :: n in cameFrom ==>
      && n in g && cameFrom[n] in g && g[n].Fin? && g[cameFrom[n]].Fin?
      && g[cameFrom[n]].n < g[n].n
  }

  /** The cells reconstruct_path visits from `cur`: came_from[cur],
      came_from[came_from[cur]], ... until a cell with no predecessor. */
  ghost function Chain(cameFrom: map<Node, Node>, g: map<Node, Dist>, cur: Node): (r: seq<Node>)
    requires Ranked(cameFrom, g)
    ensures forall n :: n in r ==> n in cameFrom.Values
    ensures r == [] <==> cur !in cameFrom
    decreases Rank(g, cur)
  {
    if cur in cameFrom then [cameFrom[cur]] + Chain(cameFrom, g, cameFrom[cur]) else []
  }

  /** Scores fall strictly along the chain, so the chain never returns to
      `cur` and has at most g_score[cur] cells. */
  lemma {:induction false} ChainDescends(cameFrom: map<Node, Node>, g: map<Node, Dist>, cur: Node)
    requires Ranked(cameFrom, g) && cur in g && g[cur].Fin?
    ensures |Chain(cameFrom, g, cur)| <= g[cur].n
    ensures forall n :: n in Chain(cameFrom, g, cur) ==> n in g && g[n].Fin? && g[n].n < g[cur].n
    ensures cur !in Chain(cameFrom, g, cur)
    decreases g[cur].n
  {
    if cur in cameFrom {
      ChainDescends(cameFrom, g, cameFrom[cur]);
    }
  }

  /** If every cell of finite score other than start has a predecessor, the
      chain from any cell with a predecessor ends at start. */
  lemma {:induction false} ChainEndsAtStart(cameFrom: map<Node, Node>, g: map<Node, Dist>, cur: Node, start: Node)
    requires Ranked(cameFrom, g) && cur in cameFrom
    requires forall n :: n in g && g[n].Fin? ==> n == start || n in cameFrom
    ensures Chain(cameFrom, g, cur) != []
    ensures Chain(cameFrom, g, cur)[|Chain(cameFrom, g, cur)| - 1] == start
    decreases Rank(g, cur)
  {
    var p := cameFrom[cur];
    if p in cameFrom {
      ChainEndsAtStart(cameFrom, g, p, start);
    }
  }

  /** Each chain cell lists its successor as a neighbour. */
  lemma {:induction false} ChainIsWalk(cameFrom: map<Node, Node>, g: map<Node, Dist>, cur: Node)
    requires Ranked(cameFrom, g)
    requires forall n {:trigger cameFrom[n]} :: n in cameFrom ==> n in cameFrom[n].neighbors
    ensures var c := Chain(cameFrom, g, cur);
      (c != [] ==> cur in c[0].neighbors) && forall k :: 0 <= k < |c| - 1 ==> c[k] in c[k + 1].neighbors
    decreases Rank(g, cur)
  {
    if cur in cameFrom {
      ChainIsWalk(cameFrom, g, cameFrom[cur]);
    }
  }

  /** Each chain cell is a recorded predecessor. */
  lemma {:induction false} ChainWithin(cameFrom: map<Node, Node>, g: map<Node, Dist>, cur: Node, s: set<Node>)
    requires Ranked(cameFrom, g)
    requires forall n {:trigger cameFrom[n]} :: n in cameFrom ==> cameFrom[n] in s
    ensures forall n :: n in Chain(cameFrom, g, cur) ==> n in s
    decreases Rank(g, cur)
  {
    if cur in cameFrom {
      ChainWithin(cameFrom, g, cameFrom[cur], s);
    }
  }

  /** reconstruct_path: walks came_from back from `cur`, painting every cell
      it reaches except start and calling draw once per step (the returned
      count). `cur` itself is not repainted. */
  method ReconstructPath(cameFrom: map<Node, Node>, cur: Node, start: Node, ghost g: map<Node, Dist>, ghost cells: set<Node>)
    returns (frames: nat)
    requires Ranked(cameFrom, g)
    requires forall n {:trigger cameFrom[n]} :: n in cameFrom ==> cameFrom[n] in cells
    modifies cells`color
    ensures frames == |Chain(cameFrom, g, cur)|
    ensures forall n :: n in Chain(cameFrom, g, cur) && n != start ==> n.color == Path
    ensures forall n :: n in cells && n !in Chain(cameFrom, g, cur) ==> n.color == old(n.color)
    ensures start.color == old(start.color)
  {
    ChainWithin(cameFrom, g, cur, cells);
    var node := cur;
    ghost var done: seq<Node> := [];
    frames := 0;
    while node in cameFrom
      invariant Chain(cameFrom, g, cur) == done + Chain(cameFrom, g, node)
      invariant frames == |done|
      invariant forall n {:trigger n in cells} :: n in cells ==> n.color == if n in done && n != start then Path else old(n.color)
      invariant start.color == old(start.color)
      invariant forall n :: n in done ==> n in cells
      decreases Rank(g, node)
    {
      ChainStep(cameFrom, g, cur, node, done);
      node := cameFrom[node];
      if node != start {
        node.MakePath();
      }
      frames := frames + 1;
      done := done + [node];
    }
  }

  /** One step of the walk moves the next chain cell from the rest of the
      chain to the cells already visited. */
  lemma ChainStep(cameFrom: map<Node, Node>, g: map<Node, Dist>, cur: Node, node: Node, done: seq<Node>)
    requires Ranked(cameFrom, g) && node in cameFrom
    requires Chain(cameFrom, g, cur) == done + Chain(cameFrom, g, node)
    ensures Chain(cameFrom, g, cur) == (done + [cameFrom[node]]) + Chain(cameFrom, g, cameFrom[node])
  {
    assert Chain(cameFrom, g, node) == [cameFrom[node]] + Chain(cameFrom, g, cameFrom[node]);
  }

  // ---------------------------------------------------------------------
  // The search
  // ---------------------------------------------------------------------

  /** The loop's variables pq, count, came_from, g_score, f_score and the
      membership set `set` (here `open`). */
  datatype State = State(
    pq: seq<Entry>, count: nat, cameFrom: map<Node, Node>,
    gScore: map<Node, Dist>, fScore: map<Node, Dist>, open: set<Node>)

  /** `set` holds exactly the queued cells, no cell is queued twice, and every
      count is at most the current one and increases along the queue. */
  ghost predicate QueueOk(s: State) {
    && s.open == Queued(s.pq)
    && CountsIncrease(s.pq)
    && (forall a, b :: 0 <= a < b < |s.pq| ==> s.pq[a].node != s.pq[b].node)
    && (forall a :: 0 <= a < |s.pq| ==> s.pq[a].count <= s.count)
  }

  /** The score maps cover the grid; start keeps score 0 and no predecessor;
      queued cells have finite scores; predecessors rank below successors;
      every reached cell other than start has a predecessor. */
  ghost predicate ScoresOk(s: State, cells: set<Node>, start: Node) {
    && start in cells
    && s.gScore.Keys == cells && s.fScore.Keys == cells
    && s.gScore[start] == Fin(0)
    && start !in s.cameFrom
    && (forall a :: 0 <= a < |s.pq| ==> s.pq[a].node in cells && s.gScore[s.pq[a].node].Fin?)
    && Ranked(s.cameFrom, s.gScore)
    && (forall n :: n in s.cameFrom ==> n in cells)
    && (forall n {:trigger s.cameFrom[n]} :: n in s.cameFrom ==> s.cameFrom[n] in cells)
    && (forall n :: n in s.gScore && s.gScore[n].Fin? ==> n == start || n in s.cameFrom)
  }

  /** Each predecessor lists its successor as a neighbour. */
  ghost predicate Linked(s: State, cells: set<Node>)
    reads cells`neighbors
  {
    forall n {:trigger s.cameFrom[n]} :: n in s.cameFrom && s.cameFrom[n] in cells ==> n in s.cameFrom[n].neighbors
  }

  /** Expanded cells are grid cells other than end; only start and cells that
      were not blocked when the search began are ever queued or expanded;
      every predecessor has been expanded. */
  ghost predicate HistoryOk(s: State, cells: set<Node>, start: Node, end: Node, c0: map<Node, Color>, expanded: seq<Node>) {
    && c0.Keys == cells
    && (forall n :: n in expanded ==> n in cells && n != end && (n == start || c0[n] != Blocked))
    && (forall n :: n in s.open ==> n in cells && (n == start || c0[n] != Blocked))
    && (forall n {:trigger s.cameFrom[n]} :: n in s.cameFrom ==> s.cameFrom[n] in expanded)
  }

  /** One pass of the inner loop's body on the search variables, for the edge
      from `cur` to `nb`: a shorter route through `cur` is recorded, and `nb`
      is queued with the next count unless it is in the set already. */
  function RelaxEdge(s: State, cur: Node, nb: Node, goal: (int, int)): (r: State)
    requires cur in s.gScore && s.gScore[cur].Fin? && nb in s.gScore
    ensures r.gScore.Keys == s.gScore.Keys
    ensures NoMore(r.gScore[nb], Fin(s.gScore[cur].n + 1)) && NoMore(r.gScore[nb], s.gScore[nb])
    ensures forall n :: n in s.gScore && n != nb ==> r.gScore[n] == s.gScore[n]
    ensures r == s || (r.cameFrom == s.cameFrom[nb := cur] && r.open == s.open + {nb})
  {
    var temp := s.gScore[cur].n + 1;
    if !Below(temp, s.gScore[nb]) then s
    else
      var f := temp + H(nb.GetPos(), goal);
      var t := s.(cameFrom := s.cameFrom[nb := cur], gScore := s.gScore[nb := Fin(temp)],
                  fScore := s.fScore[nb := Fin(f)]);
      if nb in s.open then t
      else t.(count := s.count + 1, pq := s.pq + [Entry(f, s.count + 1, nb)], open := s.open + {nb})
  }

  /** Relaxing an edge keeps the queue bookkeeping, and it adds `nb` to the
      set exactly when the route through `cur` is shorter. */
  lemma RelaxKeepsQueue(s: State, cur: Node, nb: Node, goal: (int, int))
    requires cur in s.gScore && s.gScore[cur].Fin? && nb in s.gScore
    requires QueueOk(s)
    ensures QueueOk(RelaxEdge(s, cur, nb, goal))
    ensures RelaxEdge(s, cur, nb, goal).open ==
      if Below(s.gScore[cur].n + 1, s.gScore[nb]) then s.open + {nb} else s.open
  {
    var r := RelaxEdge(s, cur, nb, goal);
    if Below(s.gScore[cur].n + 1, s.gScore[nb]) && nb !in s.open {
      var e := r.pq[|s.pq|];
      assert r.pq == s.pq + [e];
      QueuedAfterPush(s.pq, e);
    }
  }

  /** Relaxing an edge out of a reached cell keeps the score invariants. */
  lemma RelaxKeepsScores(s: State, cells: set<Node>, start: Node, cur: Node, nb: Node, goal: (int, int))
    requires ScoresOk(s, cells, start) && cur in cells && nb in cells && s.gScore[cur].Fin?
    ensures ScoresOk(RelaxEdge(s, cur, nb, goal), cells, start)
  {
    var temp := s.gScore[cur].n + 1;
    if Below(temp, s.gScore[nb]) {
      RelaxKeepsRanks(s, cur, nb, goal);
      var r := RelaxEdge(s, cur, nb, goal);
      assert r.gScore == s.gScore[nb := Fin(temp)];
      assert r.cameFrom == s.cameFrom[nb := cur];
      assert forall a :: 0 <= a < |r.pq| ==> r.pq[a].node in cells && r.gScore[r.pq[a].node].Fin?;
    }
  }

  /** Relaxing never raises a score, leaves `cur`'s own score and start
      alone, and either changes nothing or strictly lowers the termination
      measure. */
  lemma RelaxLowers(s: State, cells: set<Node>, start: Node, cur: Node, nb: Node, goal: (int, int), ns: seq<Node>)
    requires s.gScore.Keys == cells && cur in cells && nb in cells && s.gScore[cur].Fin?
    requires start in cells && s.gScore[start] == Fin(0) && nb in ns
    ensures RelaxEdge(s, cur, nb, goal).gScore[cur] == s.gScore[cur]
    ensures RelaxEdge(s, cur, nb, goal) == s || Progress(RelaxEdge(s, cur, nb, goal).gScore, s.gScore, ns)
    ensures forall n :: n in cells ==> NoMore(RelaxEdge(s, cur, nb, goal).gScore[n], s.gScore[n])
    ensures RelaxEdge(s, cur, nb, goal) != s ==> nb != start && nb != cur
    ensures RelaxEdge(s, cur, nb, goal).gScore[nb].Fin?
  {
    var temp := s.gScore[cur].n + 1;
    if Below(temp, s.gScore[nb]) {
      LowerScore(s.gScore, nb, temp, ns);
      var r := RelaxEdge(s, cur, nb, goal);
      assert r.gScore == s.gScore[nb := Fin(temp)];
      assert r != s;
    }
  }

  /** Recording cur as nb's predecessor at cur's score plus one, when that is
      below nb's score, keeps predecessors ranked below successors. */
  lemma RelaxKeepsRanks(s: State, cur: Node, nb: Node, goal: (int, int))
    requires cur in s.gScore && s.gScore[cur].Fin? && nb in s.gScore
    requires Ranked(s.cameFrom, s.gScore) && Below(s.gScore[cur].n + 1, s.gScore[nb])
    ensures Ranked(RelaxEdge(s, cur, nb, goal).cameFrom, RelaxEdge(s, cur, nb, goal).gScore)
  {
    var c := s.cameFrom[nb := cur];
    var g := s.gScore[nb := Fin(s.gScore[cur].n + 1)];
    assert RelaxEdge(s, cur, nb, goal).cameFrom == c && RelaxEdge(s, cur, nb, goal).gScore == g;
    forall n | n in c
      ensures n in g && c[n] in g && g[n].Fin? && g[c[n]].Fin? && g[c[n]].n < g[n].n
    {
      if n != nb {
        assert c[n] == s.cameFrom[n] && g[n] == s.gScore[n];
      }
    }
  }

  /** Relaxing an edge to a cell that was not blocked from an expanded cell
      keeps the history invariants. */
  lemma RelaxKeepsHistory(s: State, cells: set<Node>, start: Node, end: Node, c0: map<Node, Color>,
                          expanded: seq<Node>, cur: Node, nb: Node, goal: (int, int))
    requires cur in s.gScore && s.gScore[cur].Fin? && nb in s.gScore
    requires HistoryOk(s, cells, start, end, c0, expanded)
    requires cur in expanded && nb in cells && c0[nb] != Blocked
    ensures HistoryOk(RelaxEdge(s, cur, nb, goal), cells, start, end, c0, expanded)
  {
  }

  /** Relaxing an edge of `cur`'s neighbour list keeps every predecessor
      linked to its successor. */
  lemma RelaxKeepsLinks(s: State, cells: set<Node>, cur: Node, nb: Node, goal: (int, int))
    requires cur in s.gScore && s.gScore[cur].Fin? && nb in s.gScore
    requires Linked(s, cells) && nb in cur.neighbors
    ensures Linked(RelaxEdge(s, cur, nb, goal), cells)
  {
  }

  /** Every reached cell is in the set or has been expanded. */
  ghost predicate Witnessed(s: State, expanded: seq<Node>) {
    forall n :: n in s.gScore && s.gScore[n].Fin? ==> n in s.open || n in expanded
  }

  /** A cell whose score drops is put in the set, so relaxing keeps every
      reached cell witnessed. */
  lemma RelaxKeepsWitnessed(s: State, cur: Node, nb: Node, goal: (int, int), expanded: seq<Node>)
    requires cur in s.gScore && s.gScore[cur].Fin? && nb in s.gScore
    requires Witnessed(s, expanded)
    ensures Witnessed(RelaxEdge(s, cur, nb, goal), expanded)
  {
    var r := RelaxEdge(s, cur, nb, goal);
    if r != s {
      assert nb in r.open && r.gScore == s.gScore[nb := Fin(s.gScore[cur].n + 1)] && s.open <= r.open;
    }
  }

  /** All invariants of the search variables. */
  ghost predicate SearchOk(s: State, cells: set<Node>, start: Node, end: Node, c0: map<Node, Color>, expanded: seq<Node>)
    reads cells`neighbors
  {
    QueueOk(s) && ScoresOk(s, cells, start) && Linked(s, cells) && HistoryOk(s, cells, start, end, c0, expanded)
  }

  /** Relaxing an edge of an expanded cell keeps every invariant; the set
      grows by `nb` exactly when its score drops. */
  lemma RelaxKeepsSearch(s: State, cells: set<Node>, start: Node, end: Node, c0: map<Node, Color>,
                         expanded: seq<Node>, cur: Node, nb: Node, goal: (int, int), ns: seq<Node>)
    requires SearchOk(s, cells, start, end, c0, expanded)
    requires cur in cells && cur in expanded && s.gScore[cur].Fin?
    requires nb in cur.neighbors && nb in cells && c0[nb] != Blocked && nb in ns
    ensures SearchOk(RelaxEdge(s, cur, nb, goal), cells, start, end, c0, expanded)
    ensures RelaxEdge(s, cur, nb, goal).gScore[cur] == s.gScore[cur]
    ensures RelaxEdge(s, cur, nb, goal) == s || Progress(RelaxEdge(s, cur, nb, goal).gScore, s.gScore, ns)
    ensures forall n :: n in cells ==> NoMore(RelaxEdge(s, cur, nb, goal).gScore[n], s.gScore[n])
    ensures RelaxEdge(s, cur, nb, goal) != s ==> nb != start && nb != cur
    ensures RelaxEdge(s, cur, nb, goal).open == s.open || RelaxEdge(s, cur, nb, goal).open == s.open + {nb}
    ensures RelaxEdge(s, cur, nb, goal).gScore[nb].Fin?
  {
    RelaxKeepsQueue(s, cur, nb, goal);
    RelaxKeepsScores(s, cells, start, cur, nb, goal);
    RelaxLowers(s, cells, start, cur, nb, goal, ns);
    RelaxKeepsHistory(s, cells, start, end, c0, expanded, cur, nb, goal);
    RelaxKeepsLinks(s, cells, cur, nb, goal);
  }

  /** The relaxation loop over the neighbours of the dequeued cell `cur`
      (the inner `for` of algorithm). */
  method Relax(cur: Node, start: Node, end: Node, s0: State,
               ghost cells: set<Node>, ghost c0: map<Node, Color>, ghost expanded: seq<Node>, ghost ns: seq<Node>)
    returns (s: State)
    requires cur in cells && cur in expanded && cur !in s0.open
    requires SearchOk(s0, cells, start, end, c0, expanded)
    requires Painted(cells, start, c0, expanded, s0.open, {cur})
    requires s0.gScore[cur].Fin? && Witnessed(s0, expanded)
    requires forall m :: m in cur.neighbors ==> m in cells && c0[m] != Blocked
    requires forall n :: n in cells ==> n in ns
    modifies cells`color
    ensures SearchOk(s, cells, start, end, c0, expanded) && Witnessed(s, expanded)
    ensures Painted(cells, start, c0, expanded, s.open, {cur})
    ensures cur !in s.open && cur.color == old(cur.color)
    ensures s == s0 || Progress(s.gScore, s0.gScore, ns)
    ensures forall n :: n in cells ==> NoMore(s.gScore[n], s0.gScore[n])
    ensures forall m :: m in cur.neighbors ==> s.gScore[m].Fin?
  {
    s := s0;
    for k := 0 to |cur.neighbors|
      invariant Relaxing(s, s0, cur, start, end, cells, c0, expanded, ns)
      invariant Painted(cells, start, c0, expanded, s.open, {cur})
      invariant cur.color == old(cur.color)
      invariant forall j :: 0 <= j < k ==> s.gScore[cur.neighbors[j]].Fin?
    {
      ghost var before := s.gScore;
      s := RelaxNext(cur, cur.neighbors[k], start, end, s, s0, cells, c0, expanded, ns);
      StillReached(before, s.gScore, cells, cur.neighbors, k);
    }
  }

  /** What holds of the variables throughout the relaxation loop that started
      from `s0`. */
  ghost predicate Relaxing(s: State, s0: State, cur: Node, start: Node, end: Node,
                           cells: set<Node>, c0: map<Node, Color>, expanded: seq<Node>, ns: seq<Node>)
    reads cells`neighbors
  {
    && cur in cells && cur in expanded && start in cells
    && SearchOk(s, cells, start, end, c0, expanded)
    && Witnessed(s, expanded)
    && s0.gScore.Keys == cells
    && s.gScore[cur] == s0.gScore[cur] && s.gScore[cur].Fin?
    && cur !in s.open
    && (s == s0 || Progress(s.gScore, s0.gScore, ns))
    && (forall n :: n in cells ==> NoMore(s.gScore[n], s0.gScore[n]))
    && (forall m :: m in cur.neighbors ==> m in cells && c0[m] != Blocked)
    && (forall n :: n in cells ==> n in ns)
  }

  /** One iteration of the relaxation loop, for `neighbor`. */
  method RelaxNext(cur: Node, neighbor: Node, start: Node, end: Node, s: State, ghost s0: State,
                   ghost cells: set<Node>, ghost c0: map<Node, Color>, ghost expanded: seq<Node>, ghost ns: seq<Node>)
    returns (r: State)
    requires Relaxing(s, s0, cur, start, end, cells, c0, expanded, ns)
    requires Painted(cells, start, c0, expanded, s.open, {cur})
    requires neighbor in cur.neighbors
    modifies neighbor`color
    ensures Relaxing(r, s0, cur, start, end, cells, c0, expanded, ns)
    ensures Painted(cells, start, c0, expanded, r.open, {cur})
    ensures cur.color == old(cur.color)
    ensures r.gScore[neighbor].Fin?
    ensures forall n :: n in cells ==> NoMore(r.gScore[n], s.gScore[n])
  {
    RelaxingAfterEdge(s, s0, cur, neighbor, start, end, cells, c0, expanded, ns);
    r := RelaxStep(s, cur, neighbor, end, start, cells, c0, expanded);
  }

  /** Cells reached stay reached when no score rises. */
  lemma StillReached(g: map<Node, Dist>, r: map<Node, Dist>, cells: set<Node>, nbs: seq<Node>, k: nat)
    requires g.Keys == cells && r.Keys == cells && k < |nbs|
    requires forall n :: n in cells ==> NoMore(r[n], g[n])
    requires forall j :: 0 <= j < |nbs| ==> nbs[j] in cells
    requires forall j :: 0 <= j < k ==> g[nbs[j]].Fin?
    requires r[nbs[k]].Fin?
    ensures forall j :: 0 <= j <= k ==> r[nbs[j]].Fin?
  {
    forall j | 0 <= j < k ensures r[nbs[j]].Fin? {
      assert NoMore(r[nbs[j]], g[nbs[j]]);
    }
  }

  /** Relaxing one more edge of `cur` keeps the loop's invariant and reaches
      the edge's far cell. */
  lemma RelaxingAfterEdge(s: State, s0: State, cur: Node, nb: Node, start: Node, end: Node,
                          cells: set<Node>, c0: map<Node, Color>, expanded: seq<Node>, ns: seq<Node>)
    requires Relaxing(s, s0, cur, start, end, cells, c0, expanded, ns)
    requires nb in cur.neighbors
    ensures var r := RelaxEdge(s, cur, nb, end.GetPos());
      && Relaxing(r, s0, cur, start, end, cells, c0, expanded, ns)
      && r.gScore[nb].Fin?
      && (forall n :: n in cells ==> NoMore(r.gScore[n], s.gScore[n]))
  {
    var r := RelaxEdge(s, cur, nb, end.GetPos());
    RelaxKeepsSearch(s, cells, start, end, c0, expanded, cur, nb, end.GetPos(), ns);
    RelaxKeepsWitnessed(s, cur, nb, end.GetPos(), expanded);
    RelaxStaysBelow(s0, s, r, cells, ns);
  }

  /** Over the whole relaxation loop, from `s0` through `s` to `r`, no score
      rises, and the scores either are all unchanged or have strictly
      progressed. */
  lemma RelaxStaysBelow(s0: State, s: State, r: State, cells: set<Node>, ns: seq<Node>)
    requires s0.gScore.Keys == cells && s.gScore.Keys == cells && r.gScore.Keys == cells
    requires s == s0 || Progress(s.gScore, s0.gScore, ns)
    requires forall n :: n in cells ==> NoMore(s.gScore[n], s0.gScore[n])
    requires r == s || Progress(r.gScore, s.gScore, ns)
    requires forall n :: n in cells ==> NoMore(r.gScore[n], s.gScore[n])
    ensures r == s0 || Progress(r.gScore, s0.gScore, ns)
    ensures forall n :: n in cells ==> NoMore(r.gScore[n], s0.gScore[n])
  {
    if r != s && s != s0 {
      ProgressTransitive(r.gScore, s.gScore, s0.gScore, ns);
    }
    forall n | n in cells ensures NoMore(r.gScore[n], s0.gScore[n]) {
      assert NoMore(r.gScore[n], s.gScore[n]) && NoMore(s.gScore[n], s0.gScore[n]);
    }
  }

  /** The body of the inner loop for one neighbour: records a shorter route,
      queues the neighbour when it is not in the set, and paints it Open. */
  method RelaxStep(s0: State, cur: Node, neighbor: Node, end: Node,
                   ghost start: Node, ghost cells: set<Node>, ghost c0: map<Node, Color>, ghost expanded: seq<Node>)
    returns (s: State)
    requires cur in s0.gScore && s0.gScore[cur].Fin? && neighbor in s0.gScore
    requires c0.Keys == cells && start in cells && neighbor in cells
    requires start in s0.gScore && s0.gScore[start] == Fin(0)
    requires Painted(cells, start, c0, expanded, s0.open, {cur})
    modifies neighbor`color
    ensures s == RelaxEdge(s0, cur, neighbor, end.GetPos())
    ensures Painted(cells, start, c0, expanded, s.open, {cur})
    ensures neighbor != cur ==> neighbor !in s0.open && neighbor in s.open ==> neighbor.color == Open
    ensures cur.color == old(cur.color)
  {
    s := s0;
    var temp := s.gScore[cur].n + 1;
    if Below(temp, s.gScore[neighbor]) {
      s := s.(cameFrom := s.cameFrom[neighbor := cur],
              gScore := s.gScore[neighbor := Fin(temp)],
              fScore := s.fScore[neighbor := Fin(temp + H(neighbor.GetPos(), end.GetPos()))]);
      if neighbor !in s.open {
        s := s.(count := s.count + 1);
        s := s.(pq := s.pq + [Entry(s.fScore[neighbor].n, s.count, neighbor)],
                open := s.open + {neighbor});
        neighbor.SetOpen();
      }
    }
  }

  /** What holds of the search variables at the head of the main loop. */
  ghost predicate Searching(s: State, cells: set<Node>, start: Node, end: Node, c0: map<Node, Color>,
                            expanded: seq<Node>, ns: seq<Node>)
    reads cells`neighbors, cells`color
  {
    && SearchOk(s, cells, start, end, c0, expanded)
    && Witnessed(s, expanded)
    && Complete(s.gScore, cells, expanded)
    && Painted(cells, start, c0, expanded, s.open, {})
    && end !in expanded
    && (forall n, m {:trigger m in n.neighbors} :: n in cells && m in n.neighbors ==> m in cells && c0[m] != Blocked)
    && (forall n :: n in cells ==> n in ns)
  }

  /** The state after `pq.get()` of entry i and `set.remove` of its cell. */
  function Dequeue(s: State, i: nat): (r: State)
    requires i < |s.pq|
    ensures multiset(r.pq) + multiset{s.pq[i]} == multiset(s.pq)
    ensures s.pq[i].node !in r.open && forall n :: n in s.open && n != s.pq[i].node ==> n in r.open
    ensures r.gScore == s.gScore && r.fScore == s.fScore && r.cameFrom == s.cameFrom && r.count == s.count
  {
    s.(pq := RemoveAt(s.pq, i), open := s.open - {s.pq[i].node})
  }

  /** Taking a cell other than end off the queue and counting it as expanded
      keeps every invariant except the colour of that cell, which is about to
      change. */
  lemma DequeueKeeps(s: State, i: nat, cells: set<Node>, start: Node, end: Node, c0: map<Node, Color>,
                     expanded: seq<Node>, ns: seq<Node>)
    requires Searching(s, cells, start, end, c0, expanded, ns)
    requires i < |s.pq| && s.pq[i].node != end
    ensures var cur := s.pq[i].node; var t := Dequeue(s, i);
      && cur in cells && cur !in t.open && t.gScore[cur].Fin?
      && SearchOk(t, cells, start, end, c0, expanded + [cur])
      && Painted(cells, start, c0, expanded + [cur], t.open, {cur})
      && Witnessed(t, expanded + [cur])
      && end !in expanded + [cur]
      && t.gScore == s.gScore && |t.pq| < |s.pq|
  {
    var cur := s.pq[i].node;
    var t := Dequeue(s, i);
    QueuedAfterRemove(s.pq, i);
  }

  /** Taking end off the queue keeps the search invariants, and end was
      reachable and not blocked (unless it is start). */
  lemma DequeueEnd(s: State, i: nat, cells: set<Node>, start: Node, end: Node, c0: map<Node, Color>,
                   expanded: seq<Node>, ns: seq<Node>)
    requires SearchOk(s, cells, start, end, c0, expanded) && Painted(cells, start, c0, expanded, s.open, {})
    requires i < |s.pq| && s.pq[i].node == end
    ensures var t := Dequeue(s, i);
      && SearchOk(t, cells, start, end, c0, expanded)
      && Painted(cells, start, c0, expanded, t.open, {end})
      && end in cells && t.gScore[end].Fin? && (end == start || c0[end] != Blocked)
  {
    QueuedAfterRemove(s.pq, i);
  }

  /** The loop body for a dequeued cell other than end: relax its edges, draw,
      and paint it Closed unless it is start. */
  method Visit(cur: Node, start: Node, end: Node, s0: State,
               ghost cells: set<Node>, ghost c0: map<Node, Color>, ghost prior: seq<Node>, ghost ns: seq<Node>)
    returns (s: State)
    requires SearchOk(s0, cells, start, end, c0, prior + [cur]) && Witnessed(s0, prior + [cur])
    requires cur in cells && cur !in s0.open && s0.gScore[cur].Fin?
    requires Painted(cells, start, c0, prior + [cur], s0.open, {cur})
    requires Complete(s0.gScore, cells, prior)
    requires end !in prior + [cur]
    requires forall n, m {:trigger m in n.neighbors} :: n in cells && m in n.neighbors ==> m in cells && c0[m] != Blocked
    requires forall n :: n in cells ==> n in ns
    modifies cells`color
    ensures Searching(s, cells, start, end, c0, prior + [cur], ns)
    ensures s == s0 || Progress(s.gScore, s0.gScore, ns)
  {
    s := Relax(cur, start, end, s0, cells, c0, prior + [cur], ns);
    CompleteAfterVisit(s0.gScore, s.gScore, cells, prior, cur);
    Close(cur, start, s.open, cells, c0, prior + [cur]);
  }

  /** The state before the main loop: only start is queued, with score 0. */
  lemma InitialSearch(s: State, cells: set<Node>, start: Node, end: Node, c0: map<Node, Color>, ns: seq<Node>)
    requires start in cells && c0.Keys == cells
    requires s.pq == [Entry(0, 0, start)] && s.count == 0 && s.cameFrom == map[] && s.open == {start}
    requires s.gScore == (map n | n in cells :: Inf)[start := Fin(0)]
    requires s.fScore.Keys == cells
    requires forall n :: n in cells ==> n.color == c0[n]
    requires forall n, m {:trigger m in n.neighbors} :: n in cells && m in n.neighbors ==> m in cells && c0[m] != Blocked
    requires forall n :: n in cells ==> n in ns
    ensures Searching(s, cells, start, end, c0, [], ns)
  {
    QueuedAfterPush([], Entry(0, 0, start));
    assert [] + [Entry(0, 0, start)] == s.pq;
  }

  /** The main loop's records when end was dequeued: end is the last
      expanded cell and was not expanded before; `path` is the came_from chain
      behind end, from its predecessor back to start, painted Path and no
      longer than end's score; `frames` counts one draw per expanded cell
      before end and one per cell of `path`; every other cell keeps the
      colouring the loop left on it. */
  ghost predicate Reached(frames: nat, expanded: seq<Node>, path: seq<Node>, gScore: map<Node, Dist>,
                          cells: set<Node>, start: Node, end: Node, c0: map<Node, Color>)
    reads cells`neighbors, cells`color, end`color
    requires c0.Keys == cells
  {
    && expanded != [] && expanded[|expanded| - 1] == end && end !in expanded[..|expanded| - 1]
    && frames == |expanded| - 1 + |path|
    && end.color == End
    && (forall n :: n in path ==> n in expanded && n in cells && (n != start ==> n.color == Path))
    && end !in path && (path == [] <==> start == end)
    && (path != [] ==> path[|path| - 1] == start && end in path[0].neighbors)
    && (forall k :: 0 <= k < |path| - 1 ==> path[k] in path[k + 1].neighbors)
    && end in gScore && gScore[end].Fin? && |path| <= gScore[end].n
    && OffPath(cells, start, end, c0, expanded, path)
  }

  /** What the main loop has done once it stops: `found` says whether end was
      dequeued; start keeps its colour and so does every blocked cell;
      predecessors rank below their successors, start has none and keeps
      score 0. */
  ghost predicate Finished(found: bool, frames: nat, expanded: seq<Node>, path: seq<Node>,
                           cameFrom: map<Node, Node>, gScore: map<Node, Dist>, cells: set<Node>, start: Node,
                           end: Node, c0: map<Node, Color>)
    reads cells`neighbors, cells`color, start`color, end`color
    requires c0.Keys == cells
  {
    && (found <==> end in expanded)
    && (start != end && start in cells ==> start.color == c0[start])
    && (forall n :: n in cells && c0[n] == Blocked && n != start ==> n.color == Blocked)
    && Ranked(cameFrom, gScore) && start !in cameFrom && start in gScore && gScore[start] == Fin(0)
    && (found ==> Reached(frames, expanded, path, gScore, cells, start, end, c0))
    && (!found ==> Unreached(frames, expanded, cells, start, c0))
  }

  /** With the queue empty the set is empty, so every reached cell has been
      expanded: start, and every neighbour of an expanded cell. */
  lemma Exhausted(s: State, cells: set<Node>, start: Node, end: Node, c0: map<Node, Color>,
                  expanded: seq<Node>, frames: nat, ns: seq<Node>)
    requires Searching(s, cells, start, end, c0, expanded, ns) && s.pq == [] && frames == |expanded|
    ensures Finished(false, frames, expanded, [], s.cameFrom, s.gScore, cells, start, end, c0)
  {
    assert s.open == {};
    forall n, m | n in expanded && m in n.neighbors ensures m in expanded {
      assert n in cells;
      assert m in s.gScore && s.gScore[m].Fin?;
    }
  }

  /** The loop body once end is dequeued: paint it, then reconstruct_path. */
  method Finish(s: State, start: Node, end: Node, ghost cells: set<Node>, ghost c0: map<Node, Color>,
                ghost expanded: seq<Node>)
    returns (steps: nat, ghost path: seq<Node>)
    requires SearchOk(s, cells, start, end, c0, expanded)
    requires Painted(cells, start, c0, expanded, s.open, {end})
    requires end in cells && s.gScore[end].Fin? && (end == start || c0[end] != Blocked)
    modifies cells`color
    ensures steps == |path| && path == Chain(s.cameFrom, s.gScore, end)
    ensures end.color == End
    ensures end !in path && (path == [] <==> start == end)
    ensures path != [] ==> path[|path| - 1] == start && end in path[0].neighbors
    ensures forall k :: 0 <= k < |path| - 1 ==> path[k] in path[k + 1].neighbors
    ensures forall n :: n in path ==> n in expanded && (n != start ==> n.color == Path)
    ensures |path| <= s.gScore[end].n
    ensures start != end ==> start.color == c0[start]
    ensures forall n :: n in cells && c0[n] == Blocked && n != start ==> n.color == Blocked
    ensures OffPath(cells, start, end, c0, expanded, path)
  {
    path := Chain(s.cameFrom, s.gScore, end);
    FoundPath(s, start, end, cells, c0, expanded);
    label painting:
    steps := Paint(s, start, end, cells, c0, expanded);
    forall n | n in cells ensures n.neighbors == old@painting(n.neighbors) {
    }
    forall n | n in cells && n != end && n !in path
      ensures n.color == c0[n] || n.color == Open || (n.color == Closed && n in expanded)
    {
      assert n.color == old(n.color);
    }
    forall n | n in expanded && n in cells && n != start && n != end && n !in path
      ensures n.color == Closed || n.color == Open
    {
      assert n.color == old(n.color);
    }
  }

  /** What the search invariants say about the path behind a dequeued end. */
  lemma FoundPath(s: State, start: Node, end: Node, cells: set<Node>, c0: map<Node, Color>, expanded: seq<Node>)
    requires SearchOk(s, cells, start, end, c0, expanded)
    requires end in cells && s.gScore[end].Fin?
    ensures var path := Chain(s.cameFrom, s.gScore, end);
      && end !in path && (path == [] <==> start == end)
      && (path != [] ==> path[|path| - 1] == start && end in path[0].neighbors)
      && (forall k :: 0 <= k < |path| - 1 ==> path[k] in path[k + 1].neighbors)
      && (forall n :: n in path ==> n in expanded && n in cells)
      && |path| <= s.gScore[end].n
  {
    ChainDescends(s.cameFrom, s.gScore, end);
    ChainWithin(s.cameFrom, s.gScore, end, set n | n in expanded);
    ChainWithin(s.cameFrom, s.gScore, end, cells);
    if end != start {
      ChainEndsAtStart(s.cameFrom, s.gScore, end, start);
    }
    ChainIsWalk(s.cameFrom, s.gScore, end);
  }

  /** Paints end, then the path behind it, leaving every other cell alone. */
  method Paint(s: State, start: Node, end: Node, ghost cells: set<Node>, ghost c0: map<Node, Color>,
               ghost expanded: seq<Node>)
    returns (steps: nat)
    requires ScoresOk(s, cells, start) && HistoryOk(s, cells, start, end, c0, expanded)
    requires Painted(cells, start, c0, expanded, s.open, {end})
    requires end in cells && (end == start || c0[end] != Blocked)
    requires end !in Chain(s.cameFrom, s.gScore, end)
    requires forall n :: n in Chain(s.cameFrom, s.gScore, end) ==> n in expanded
    modifies cells`color
    ensures steps == |Chain(s.cameFrom, s.gScore, end)|
    ensures end.color == End
    ensures forall n :: n in Chain(s.cameFrom, s.gScore, end) && n != start ==> n.color == Path
    ensures forall n :: n in cells && n != end && n !in Chain(s.cameFrom, s.gScore, end) ==> n.color == old(n.color)
    ensures start != end ==> start.color == c0[start]
    ensures forall n :: n in cells && c0[n] == Blocked && n != start ==> n.color == Blocked
  {
    end.SetEnd();
    steps := ReconstructPath(s.cameFrom, end, start, s.gScore, cells);
  }

  /** One pass of the main loop for a dequeued cell other than end. The
      scores strictly progress, or stay put while the queue shrinks. */
  method Advance(s: State, i: nat, start: Node, end: Node, ghost cells: set<Node>, ghost c0: map<Node, Color>,
                 ghost expanded: seq<Node>, ghost ns: seq<Node>)
    returns (r: State)
    requires Searching(s, cells, start, end, c0, expanded, ns)
    requires i < |s.pq| && s.pq[i].node != end
    modifies cells`color
    ensures Searching(r, cells, start, end, c0, expanded + [s.pq[i].node], ns)
    ensures Progress(r.gScore, s.gScore, ns) || (r.gScore == s.gScore && |r.pq| < |s.pq|)
  {
    var cur := s.pq[i].node;
    DequeueKeeps(s, i, cells, start, end, c0, expanded, ns);
    QueuedAfterRemove(s.pq, i);
    r := s.(pq := RemoveAt(s.pq, i));
    assert cur in r.open;  // set.remove(cur) never fails
    r := r.(open := r.open - {cur});
    r := Visit(cur, start, end, r, cells, c0, expanded, ns);
  }

  /** The last pass of the main loop, once end is dequeued. */
  method Stop(s: State, i: nat, start: Node, end: Node, ghost cells: set<Node>, ghost c0: map<Node, Color>,
              ghost expanded: seq<Node>, ghost ns: seq<Node>)
    returns (steps: nat, ghost path: seq<Node>)
    requires Searching(s, cells, start, end, c0, expanded, ns)
    requires i < |s.pq| && s.pq[i].node == end
    modifies cells`color
    ensures ScoresOk(s, cells, start)
    ensures steps == |path| && path == Chain(s.cameFrom, s.gScore, end)
    ensures end.color == End && end in cells && s.gScore[end].Fin?
    ensures end !in path && (path == [] <==> start == end)
    ensures path != [] ==> path[|path| - 1] == start && end in path[0].neighbors
    ensures forall k :: 0 <= k < |path| - 1 ==> path[k] in path[k + 1].neighbors
    ensures forall n :: n in path ==> n in expanded && (n != start ==> n.color == Path)
    ensures |path| <= s.gScore[end].n
    ensures start != end ==> start.color == c0[start]
    ensures forall n :: n in cells && c0[n] == Blocked && n != start ==> n.color == Blocked
    ensures OffPath(cells, start, end, c0, expanded, path)
  {
    DequeueEnd(s, i, cells, start, end, c0, expanded, ns);
    QueuedAfterRemove(s.pq, i);
    var t := s.(pq := RemoveAt(s.pq, i));
    assert end in t.open;  // set.remove(cur) never fails
    t := t.(open := t.open - {end});
    steps, path := Finish(t, start, end, cells, c0, expanded);
  }

  /** The main loop's last pass, once end is dequeued, with the loop's
      records brought up to date. */
  method Found(s: State, i: nat, start: Node, end: Node, ghost cells: set<Node>, ghost c0: map<Node, Color>,
               ghost expanded: seq<Node>, frames: nat, ghost ns: seq<Node>)
    returns (frames': nat, ghost expanded': seq<Node>, ghost path: seq<Node>)
    requires Searching(s, cells, start, end, c0, expanded, ns) && frames == |expanded|
    requires i < |s.pq| && s.pq[i].node == end
    modifies cells`color
    ensures Finished(true, frames', expanded', path, s.cameFrom, s.gScore, cells, start, end, c0)
  {
    var steps;
    steps, path := Stop(s, i, start, end, cells, c0, expanded, ns);
    frames' := frames + steps;
    OffPathWithEnd(cells, start, end, c0, expanded, path);
    expanded' := expanded + [end];
  }

  /** One pass of the main loop: dequeue the entry of least (f_score, count);
      if it is end's, paint the path and report the search done, else expand
      its cell. Either the scores strictly progress or the queue shrinks. */
  method Step(s: State, start: Node, end: Node, ghost cells: set<Node>, ghost c0: map<Node, Color>,
              ghost expanded: seq<Node>, frames: nat, ghost ns: seq<Node>)
    returns (done: bool, s': State, frames': nat, ghost expanded': seq<Node>, ghost path: seq<Node>)
    requires Searching(s, cells, start, end, c0, expanded, ns) && s.pq != [] && frames == |expanded|
    modifies cells`color
    ensures done ==> Finished(true, frames', expanded', path, s.cameFrom, s.gScore, cells, start, end, c0)
    ensures !done ==> Searching(s', cells, start, end, c0, expanded', ns) && frames' == |expanded'|
    ensures !done ==> Progress(s'.gScore, s.gScore, ns) || (s'.gScore == s.gScore && |s'.pq| < |s.pq|)
  {
    var i := MinIndex(s.pq);
    if s.pq[i].node == end {
      frames', expanded', path := Found(s, i, start, end, cells, c0, expanded, frames, ns);
      done, s' := true, s;
      return;
    }
    ghost var cur := s.pq[i].node;
    s' := Advance(s, i, start, end, cells, c0, expanded, ns);
    done, path := false, [];
    expanded' := expanded + [cur];
    frames' := frames + 1;  // draw()
  }

  /** The main loop of algorithm, from the state holding only start. */
  method Search(s0: State, start: Node, end: Node, ghost cells: set<Node>, ghost c0: map<Node, Color>, ghost ns: seq<Node>)
    returns (found: bool, frames: nat, ghost expanded: seq<Node>, ghost path: seq<Node>,
             ghost cameFrom: map<Node, Node>, ghost gScore: map<Node, Dist>)
    requires Searching(s0, cells, start, end, c0, [], ns)
    modifies cells`color
    ensures Finished(found, frames, expanded, path, cameFrom, gScore, cells, start, end, c0)
  {
    var s := s0;
    expanded := [];
    frames := 0;
    while s.pq != []
      invariant Searching(s, cells, start, end, c0, expanded, ns)
      invariant frames == |expanded|
      decreases InfCount(s.gScore, ns), FinSum(s.gScore, ns), |s.pq|
    {
      var done, s';
      done, s', frames, expanded, path := Step(s, start, end, cells, c0, expanded, frames, ns);
      if done {
        found, cameFrom, gScore := true, s.cameFrom, s.gScore;
        return;
      }
      s := s';
    }
    Exhausted(s, cells, start, end, c0, expanded, frames, ns);
    found, path, cameFrom, gScore := false, [], s.cameFrom, s.gScore;
  }

  /** algorithm: A* from start to end. Returns whether end was dequeued, and
      the number of draw calls made. The ghost results record the expanded
      cells in order, the reconstructed path (from end's predecessor back to
      start) and the final came_from and g_score. When end is not found, no
      walk along the neighbour lists leads from start to end. */
  method Algorithm(grid: Grid, start: Node, end: Node)
    returns (found: bool, frames: nat, ghost expanded: seq<Node>, ghost path: seq<Node>,
             ghost cameFrom: map<Node, Node>, ghost gScore: map<Node, Dist>)
    requires start in Cells(grid) && end in Cells(grid)
    requires NeighborsInside(grid) && NoBlockedNeighbors(grid)
    modifies Cells(grid)`color
    ensures Finished(found, frames, expanded, path, cameFrom, gScore, Cells(grid), start, end,
                     old(Colors(Cells(grid))))
    ensures !found ==> forall p: seq<Node> :: p != [] && p[0] == start && Walk(p) ==> end !in p
  {
    ghost var cells := Cells(grid);
    ghost var c0 := Colors(cells);
    ghost var ns := Flatten(grid);
    forall n | n in cells ensures n in ns {
      CellsAreListed(grid, n);
    }
    forall n, m | n in cells && m in n.neighbors ensures m in cells && c0[m] != Blocked {
      assert m in Cells(grid) && !m.IsBlocked();
      assert c0[m] == m.color;
    }
    var count := 0;
    var g := (map n | n in Cells(grid) :: Inf)[start := Fin(0)];
    var f := (map n | n in Cells(grid) :: Inf)[start := Fin(H(start.GetPos(), end.GetPos()))];
    var s := State([Entry(0, count, start)], count, map[], g, f, {start});
    InitialSearch(s, cells, start, end, c0, ns);
    found, frames, expanded, path, cameFrom, gScore := Search(s, start, end, cells, c0, ns);
    if !found {
      Unreachable(expanded, start, end);
    }
  }
}
