/** The grid of cells that both search scripts share: the cell class with its
    colour-as-state, the grid's shape, grid construction and the mapping from a
    mouse pixel to a cell. */
module Board {

  /** The colour a cell is painted, read as its search state. */
  datatype Color =
    | Unvisited  // WHITE
    | Closed     // RED: expanded by a search
    | Open       // GREEN: put on a search frontier
    | Blocked    // BLACK: an obstacle
    | Start      // ORANGE
    | End        // TURQUOISE
    | Path       // PURPLE: on the reconstructed path

  /** A cost that may still be the "unreached" sentinel `float("inf")`. */
  datatype Dist = Inf | Fin(n: nat)

  datatype Option<T> = None | Some(value: T)

  /** `k < d` for a step count k and a score d that may be infinite. */
  predicate Below(k: nat, d: Dist) {
    d.Inf? || k < d.n
  }

  /** The order on scores in which infinity is the top. */
  predicate NoMore(a: Dist, b: Dist) {
    b.Inf? || (a.Fin? && a.n <= b.n)
  }

  class Node {
    const row: int
    const col: int
    const x: int
    const y: int
    const width: int
    const totalRows: int
    var color: Color
    var neighbors: seq<Node>

    constructor (row: int, col: int, width: int, totalRows: int)
      ensures this.row == row && this.col == col
      ensures x == row * width && y == col * width
      ensures this.width == width && this.totalRows == totalRows
      ensures color == Unvisited && neighbors == []
    {
      this.row := row;
      this.col := col;
      x := row * width;
      y := col * width;
      this.width := width;
      this.totalRows := totalRows;
      color := Unvisited;
      neighbors := [];
    }

    function GetPos(): (int, int) {
      (row, col)
    }

    predicate IsAlreadyVisited() reads this`color { color == Closed }
    predicate IsNotVisited() reads this`color { color == Open }
    predicate IsBlocked() reads this`color { color == Blocked }
    predicate IsStart() reads this`color { color == Start }
    predicate IsEnd() reads this`color { color == End }

    /** The colour tag is one state at a time: at most one of the five state
        predicates holds, and none does for a white or a path cell. */
    lemma AtMostOneState()
      ensures (if IsAlreadyVisited() then 1 else 0) + (if IsNotVisited() then 1 else 0)
        + (if IsBlocked() then 1 else 0) + (if IsStart() then 1 else 0) + (if IsEnd() then 1 else 0) <= 1
      ensures color == Unvisited || color == Path <==>
        !IsAlreadyVisited() && !IsNotVisited() && !IsBlocked() && !IsStart() && !IsEnd()
    {
    }

    method Reset()
      modifies this`color
      ensures color == Unvisited
      ensures !IsAlreadyVisited() && !IsNotVisited() && !IsBlocked() && !IsStart() && !IsEnd()
    {
      color := Unvisited;
    }

    method SetClosed()
      modifies this`color
      ensures color == Closed && IsAlreadyVisited()
    {
      color := Closed;
    }

    method SetOpen()
      modifies this`color
      ensures color == Open && IsNotVisited()
    {
      color := Open;
    }

    method SetBlock()
      modifies this`color
      ensures color == Blocked && IsBlocked()
    {
      color := Blocked;
    }

    method SetEnd()
      modifies this`color
      ensures color == End && IsEnd()
    {
      color := End;
    }

    method SetStart()
      modifies this`color
      ensures color == Start && IsStart()
    {
      color := Start;
    }

    method MakePath()
      modifies this`color
      ensures color == Path
      ensures !IsAlreadyVisited() && !IsNotVisited() && !IsBlocked() && !IsStart() && !IsEnd()
    {
      color := Path;
    }
  }

  /** A grid is a list of rows, each a list of cells. */
  type Grid = seq<seq<Node>>

  /** Every cell of the grid. */
  function Cells(grid: Grid): set<Node> {
    set i, j | 0 <= i < |grid| && 0 <= j < |grid[i]| :: grid[i][j]
  }

  /** The colour of every cell, as a snapshot. */
  ghost function Colors(cells: set<Node>): map<Node, Color>
    reads cells`color
  {
    map n | n in cells :: n.color
  }

  /** The cells row by row, as a list (used to measure a search's progress). */
  function Flatten(grid: Grid): seq<Node> {
    if grid == [] then [] else grid[0] + Flatten(grid[1..])
  }

  /** `grid` is the `rows` x `rows` square that make_grid builds: cell (i, j)
      knows its own row, column and the grid's size. */
  ghost predicate Shaped(grid: Grid, rows: int) {
    && |grid| == rows
    && (forall i :: 0 <= i < rows ==> |grid[i]| == rows)
    && (forall i, j :: 0 <= i < rows && 0 <= j < rows ==>
          grid[i][j].row == i && grid[i][j].col == j && grid[i][j].totalRows == rows)
  }

  /** The cells of row i. */
  function Row(grid: Grid, i: int): set<Node>
    requires 0 <= i < |grid|
  {
    set j | 0 <= j < |grid[i]| :: grid[i][j]
  }

  /** The list q without its entry at index i (what a queue's get leaves). */
  function RemoveAt<T>(q: seq<T>, i: nat): (r: seq<T>)
    requires i < |q|
    ensures |r| == |q| - 1
    ensures multiset(r) + multiset{q[i]} == multiset(q)
  {
    assert q == q[..i] + [q[i]] + q[i + 1..];
    q[..i] + q[i + 1..]
  }

  /** Every neighbour of every cell is itself a cell of the grid. */
  ghost predicate NeighborsInside(grid: Grid)
    reads Cells(grid)`neighbors
  {
    forall n, m {:trigger m in n.neighbors} :: n in Cells(grid) && m in n.neighbors ==> m in Cells(grid)
  }

  /** No cell lists a blocked cell as a neighbour. */
  ghost predicate NoBlockedNeighbors(grid: Grid)
    reads Cells(grid)`neighbors, Cells(grid)`color
    requires NeighborsInside(grid)
  {
    forall n, m {:trigger m in n.neighbors} :: n in Cells(grid) && m in n.neighbors ==> !m.IsBlocked()
  }

  /** The one-element list [n] unless n is blocked. */
  function Unblocked(n: Node): seq<Node>
    reads n`color
  {
    if n.IsBlocked() then [] else [n]
  }

  /** The colouring a search keeps: a cell outside `except` still has its
      colour from before the search (`c0`), or is Open and on the frontier, or
      is Closed and expanded; each expanded cell is start, Closed, or Open and
      on the frontier again. Start keeps its colour throughout. */
  ghost predicate Painted(cells: set<Node>, start: Node, c0: map<Node, Color>, expanded: seq<Node>,
                          frontier: set<Node>, except: set<Node>)
    reads cells`color
    requires c0.Keys == cells && start in cells
  {
    && start.color == c0[start]
    && (forall n {:trigger n in cells} :: n in cells && n !in except ==>
          n.color == c0[n] || (n.color == Open && n in frontier) || (n.color == Closed && n in expanded))
    && (forall n {:trigger n in expanded} :: n in expanded && n in cells && n !in except ==>
          n == start || n.color == Closed || (n.color == Open && n in frontier))
  }

  /** The colours a search leaves on the cells it did not paint as the
      path: every such cell other than end still has its colour from before
      the search, or is Open, or is Closed and expanded; each expanded one
      other than start is Closed, or Open again. */
  ghost predicate OffPath(cells: set<Node>, start: Node, end: Node, c0: map<Node, Color>, expanded: seq<Node>,
                          path: seq<Node>)
    reads cells`color
    requires c0.Keys == cells
  {
    && (forall n :: n in cells && n != end && n !in path ==>
          n.color == c0[n] || n.color == Open || (n.color == Closed && n in expanded))
    && (forall n :: n in expanded && n in cells && n != start && n != end && n !in path ==>
          n.color == Closed || n.color == Open)
  }

  /** Paints the expanded cell `cur` Closed unless it is start (both scripts'
      `if cur != start: cur.set_closed()`). */
  method Close(cur: Node, start: Node, ghost frontier: set<Node>, ghost cells: set<Node>, ghost c0: map<Node, Color>,
               ghost expanded: seq<Node>)
    requires c0.Keys == cells && start in cells && cur in cells && cur in expanded
    requires Painted(cells, start, c0, expanded, frontier, {cur})
    modifies cur`color
    ensures Painted(cells, start, c0, expanded, frontier, {})
    ensures cur != start ==> cur.color == Closed
    ensures cur == start ==> cur.color == old(cur.color)
  {
    if cur != start {
      cur.SetClosed();
    }
  }

  /** `s` is a walk along neighbour lists: each cell lists the next one. */
  ghost predicate Walk(s: seq<Node>)
    reads (set k | 0 <= k < |s| :: s[k])`neighbors
  {
    forall k :: 0 <= k < |s| - 1 ==> s[k + 1] in s[k].neighbors
  }

  /** `p` is a walk through cells of `cells`. */
  ghost predicate WalkIn(older p: seq<Node>, cells: set<Node>)
    reads cells`neighbors
  {
    (forall k :: 0 <= k < |p| ==> p[k] in cells) && Walk(p)
  }

  /** Counting end as expanded changes nothing OffPath says. */
  lemma OffPathWithEnd(cells: set<Node>, start: Node, end: Node, c0: map<Node, Color>, expanded: seq<Node>,
                       path: seq<Node>)
    requires c0.Keys == cells && OffPath(cells, start, end, c0, expanded, path)
    ensures OffPath(cells, start, end, c0, expanded + [end], path)
  {
  }

  /** A walk that starts inside a set closed under neighbour lists never
      leaves it. */
  lemma {:induction false} WalkStaysIn(p: seq<Node>, inside: set<Node>)
    requires p != [] && p[0] in inside && Walk(p)
    requires forall n, m {:trigger m in n.neighbors} :: n in inside && m in n.neighbors ==> m in inside
    ensures forall k :: 0 <= k < |p| ==> p[k] in inside
    decreases |p|
  {
    if |p| > 1 {
      var q := p[..|p| - 1];
      forall k | 0 <= k < |q| - 1 ensures q[k + 1] in q[k].neighbors {
        assert q[k] == p[k] && q[k + 1] == p[k + 1];
      }
      WalkStaysIn(q, inside);
      assert p[|p| - 2] == q[|q| - 1];
      assert p[|p| - 1] in p[|p| - 2].neighbors;
      forall k | 0 <= k < |p| ensures p[k] in inside {
        if k < |q| {
          assert p[k] == q[k];
        }
      }
    }
  }

  /** A set of cells that holds start but not end and is closed under
      neighbour lists cuts every walk from start off from end. */
  lemma Unreachable(inside: seq<Node>, start: Node, end: Node)
    requires start in inside && end !in inside
    requires forall n, m {:trigger m in n.neighbors} :: n in inside && m in n.neighbors ==> m in inside
    ensures forall p: seq<Node> :: p != [] && p[0] == start && Walk(p) ==> end !in p
  {
    var cut := set n | n in inside;
    forall p: seq<Node> | p != [] && p[0] == start && Walk(p) ensures end !in p {
      WalkStaysIn(p, cut);
    }
  }

  /** Every neighbour of an expanded cell has been reached (has a finite
      score). */
  ghost predicate Complete(d: map<Node, Dist>, cells: set<Node>, expanded: seq<Node>)
    reads cells`neighbors
  {
    forall n, m {:trigger m in n.neighbors} :: n in cells && n in expanded && m in n.neighbors ==> m in d && d[m].Fin?
  }

  /** Once cur's neighbours are reached, and no score has risen, the expanded
      cells with cur added are complete. */
  lemma CompleteAfterVisit(d0: map<Node, Dist>, d: map<Node, Dist>, cells: set<Node>, prior: seq<Node>, cur: Node)
    requires Complete(d0, cells, prior) && d0.Keys == cells && d.Keys == cells && cur in cells
    requires forall n :: n in cells ==> NoMore(d[n], d0[n])
    requires forall m :: m in cur.neighbors ==> m in d && d[m].Fin?
    ensures Complete(d, cells, prior + [cur])
  {
  }

  /** What a search loop leaves when its queue runs empty: one draw per
      expanded cell; start was expanded, and so is every neighbour of an
      expanded cell; every cell keeps its colour or is an expanded cell
      painted Closed; each expanded cell but start is Closed. */
  ghost predicate Unreached(frames: nat, expanded: seq<Node>, cells: set<Node>, start: Node, c0: map<Node, Color>)
    reads cells`neighbors, cells`color
    requires c0.Keys == cells
  {
    && frames == |expanded|
    && start in expanded
    && (forall n :: n in expanded ==> n in cells)
    && (forall n :: n in cells ==> n.color == c0[n] || (n.color == Closed && n in expanded))
    && (forall n :: n in expanded && n != start ==> n.color == Closed)
    && (forall n, m {:trigger m in n.neighbors} :: n in expanded && m in n.neighbors ==> m in expanded)
  }

  lemma {:induction false} CellsAreListed(grid: Grid, n: Node)
    requires n in Cells(grid)
    ensures n in Flatten(grid)
  {
    var i, j :| 0 <= i < |grid| && 0 <= j < |grid[i]| && grid[i][j] == n;
    if i > 0 {
      assert n == grid[1..][i - 1][j];
      CellsAreListed(grid[1..], n);
    } else {
      assert n == grid[0][j];
    }
  }

  lemma ShapedCell(grid: Grid, rows: int, n: Node)
    requires Shaped(grid, rows) && n in Cells(grid)
    ensures n.totalRows == rows && 0 <= n.row < rows && 0 <= n.col < rows
    ensures grid[n.row][n.col] == n && grid[n.GetPos().0][n.GetPos().1] == n
  {
  }

  /** make_grid: `rows` rows of `rows` fresh white cells, cell (i, j) at pixel
      (i * gap, j * gap) with gap = width // rows. */
  method MakeGrid(rows: int, width: int) returns (grid: Grid)
    requires rows > 0
    ensures Shaped(grid, rows)
    ensures forall i, j :: 0 <= i < rows && 0 <= j < rows ==>
      && fresh(grid[i][j])
      && grid[i][j].x == i * (width / rows) && grid[i][j].y == j * (width / rows)
      && grid[i][j].width == width / rows
      && grid[i][j].color == Unvisited && grid[i][j].neighbors == []
  {
    grid := [];
    var gap := width / rows;
    for i := 0 to rows
      invariant |grid| == i
      invariant forall a :: 0 <= a < i ==> |grid[a]| == rows
      invariant forall a, b :: 0 <= a < i && 0 <= b < rows ==>
        && fresh(grid[a][b])
        && grid[a][b].row == a && grid[a][b].col == b && grid[a][b].totalRows == rows
        && grid[a][b].x == a * gap && grid[a][b].y == b * gap && grid[a][b].width == gap
        && grid[a][b].color == Unvisited && grid[a][b].neighbors == []
    {
      var line: seq<Node> := [];
      for j := 0 to rows
        invariant |line| == j
        invariant forall b :: 0 <= b < j ==>
          && fresh(line[b])
          && line[b].row == i && line[b].col == b && line[b].totalRows == rows
          && line[b].x == i * gap && line[b].y == b * gap && line[b].width == gap
          && line[b].color == Unvisited && line[b].neighbors == []
        invariant forall a, b :: 0 <= a < i && 0 <= b < rows ==>
          grid[a][b].color == Unvisited && grid[a][b].neighbors == []
      {
        var node := new Node(i, j, gap, rows);
        line := line + [node];
      }
      grid := grid + [line];
    }
  }

  /** get_clicked_pos: the (row, col) of the cell under pixel `pos`, by floor
      division by the cell size. */
  function GetClickedPos(pos: (int, int), rows: int, width: int): (cell: (int, int))
    requires rows > 0 && width / rows > 0
    ensures cell.0 * (width / rows) <= pos.0 < (cell.0 + 1) * (width / rows)
    ensures cell.1 * (width / rows) <= pos.1 < (cell.1 + 1) * (width / rows)
  {
    var gap := width / rows;
    (pos.0 / gap, pos.1 / gap)
  }

  /** A pixel inside the `rows * gap` square lands on a cell of the grid. */
  lemma ClickLandsInGrid(pos: (int, int), rows: int, width: int)
    requires rows > 0 && width / rows > 0
    requires 0 <= pos.0 < rows * (width / rows) && 0 <= pos.1 < rows * (width / rows)
    ensures 0 <= GetClickedPos(pos, rows, width).0 < rows
    ensures 0 <= GetClickedPos(pos, rows, width).1 < rows
  {
    var gap := width / rows;
    var cell := GetClickedPos(pos, rows, width);
    MulCancel(cell.0, rows, gap);
    MulCancel(cell.1, rows, gap);
    MulCancel(-1, cell.0, gap);
    MulCancel(-1, cell.1, gap);
  }

  lemma MulCancel(a: int, b: int, c: int)
    requires c > 0 && a * c < b * c
    ensures a < b
  {
    assert (b - a) * c == b * c - a * c;
  }

  /** With the scripts' 800-pixel window and 50 rows, every pixel of the window
      lands on a cell (the gap, 16, divides the width exactly). */
  lemma WindowLandsInGrid(pos: (int, int))
    requires 0 <= pos.0 < 800 && 0 <= pos.1 < 800
    ensures 0 <= GetClickedPos(pos, 50, 800).0 < 50
    ensures 0 <= GetClickedPos(pos, 50, 800).1 < 50
  {
    assert 800 / 50 == 16;
    ClickLandsInGrid(pos, 50, 800);
  }

  /** Number of listed keys whose score is still infinite. */
  function InfCount<K>(d: map<K, Dist>, ks: seq<K>): nat {
    if ks == [] then 0
    else (if ks[0] in d && d[ks[0]].Inf? then 1 else 0) + InfCount(d, ks[1..])
  }

  /** Sum of the finite scores of the listed keys. */
  function FinSum<K>(d: map<K, Dist>, ks: seq<K>): nat {
    if ks == [] then 0
    else (if ks[0] in d && d[ks[0]].Fin? then d[ks[0]].n else 0) + FinSum(d, ks[1..])
  }

  /** `e` is below `d` in the lexicographic order on (InfCount, FinSum). */
  ghost predicate Progress<K>(e: map<K, Dist>, d: map<K, Dist>, ks: seq<K>) {
    || InfCount(e, ks) < InfCount(d, ks)
    || (InfCount(e, ks) == InfCount(d, ks) && FinSum(e, ks) < FinSum(d, ks))
  }

  lemma ProgressTransitive<K>(a: map<K, Dist>, b: map<K, Dist>, c: map<K, Dist>, ks: seq<K>)
    requires Progress(a, b, ks) && Progress(b, c, ks)
    ensures Progress(a, c, ks)
  {
  }

  /** Lowering one score (the relaxation step of both searches) lowers the pair
      (InfCount, FinSum) lexicographically; this is what makes both search loops
      terminate. */
  lemma {:induction false} LowerScore<K>(d: map<K, Dist>, k: K, v: nat, ks: seq<K>)
    requires k in d && Below(v, d[k]) && k in ks
    ensures Progress(d[k := Fin(v)], d, ks)
  {
    var e := d[k := Fin(v)];
    if ks[0] == k {
      if k in ks[1..] {
        LowerScore(d, k, v, ks[1..]);
      } else {
        Untouched(d, k, v, ks[1..]);
      }
    } else {
      LowerScore(d, k, v, ks[1..]);
    }
  }

  lemma {:induction false} Untouched<K>(d: map<K, Dist>, k: K, v: nat, ks: seq<K>)
    requires k !in ks
    ensures InfCount(d[k := Fin(v)], ks) == InfCount(d, ks)
    ensures FinSum(d[k := Fin(v)], ks) == FinSum(d, ks)
  {
    if ks != [] {
      Untouched(d, k, v, ks[1..]);
    }
  }
}
