# Grid path-finding visualiser: a verified model

The repository has two scripts, `astar.py` and `djistras.py`. Each one draws a square grid of
cells. The user picks a start cell and an end cell with the mouse and blocks other cells. One key
press then runs a search: A* in the first script, uniform-cost (Dijkstra) search in the second. The
search paints the cells it opens, closes and finally puts on the path. This project models that
engine in Dafny and proves what it does.

- `board.dfy` (module `Board`) holds the parts both scripts share:
  - the `Node` class, whose mutable fields are the colour tag and the neighbour list;
  - the colour setters and the `is_*` predicates;
  - `make_grid` and `get_clicked_pos`;
  - the colour bookkeeping and the reachability facts both searches end with;
  - the termination measure of both search loops.
- `editor.dfy` (module `Editor`): the mouse handling of the main loop, modelled as a transition
  on the chosen `(start, end)` pair, plus the method that applies a click to a cell.
- `astar.dfy` (module `AStar`) models `astar.py`:
  - neighbour lists that keep Python's negative-index wrap-around;
  - the Manhattan heuristic `h`;
  - the priority queue keyed by `(f_score, count)`, together with the membership set;
  - `came_from`, `g_score` and `f_score`;
  - `reconstruct_path` and `algorithm`.
- `dijkstra.dfy` (module `Dijkstra`) models `djistras.py`:
  - neighbour lists bounded by the grid's edges;
  - queue entries `(dist, node, path)` that carry their whole path, with no membership set and
    ties broken arbitrarily;
  - the `distances` map, `reconstruct_path` over the carried list, and `algorithm`.

Each search is an imperative loop over an explicit state value: the queue as a `seq`, and the
dictionaries and the set as `map`s and a `set`. The cells' colour fields are updated in place.

- Each loop body is one `Step` method, and the loop ends in a `Finished` predicate.
- When the end cell is dequeued, `Finished` states:
  - the painted path leads along the neighbour lists from start to end's predecessor, and end's predecessor lists end. The A* path holds end's predecessor first and start last, so that walk reads it from the back. The Dijkstra path holds start first.
  - its cells are painted Path, except start;
  - end is painted End;
  - every other cell keeps its colour from before the search, or is Open, or is an expanded cell painted Closed;
  - `draw` was called once per expanded cell before end and once per path cell. The pass that dequeues end draws nothing itself.
  - the path's length is bounded by end's score (A*). For Dijkstra it equals end's distance, and no walk from start to end is shorter.
- When the queue runs empty, `Finished` states:
  - the expanded cells are closed under the neighbour relation;
  - every other cell keeps its colour.

  From that closure, `Algorithm` proves that no walk from start reaches end.
- Both loops provably terminate.
  - The measure is the number of unreached cells, then the sum of the finite scores, then the queue length.
  - A relaxation lowers this measure lexicographically, and a pop without a relaxation shortens the queue.

The `draw` callback is a counter of frames. `float("inf")` is the `Inf` case of `Dist = Inf | Fin(n)`.

## Model

| member | source | states |
|---|---|---|
| Board.Node.constructor | astar.py:23-31 | a new cell records its row, column, pixel origin `row*width`, `col*width`, width and grid size, is white and has no neighbours |
| Board.Node.AtMostOneState | astar.py:37-50 | at most one of `is_already_visited`, `is_not_visited`, `is_blocked`, `is_start` and `is_end` holds, and none holds exactly for a white or path cell |
| Board.ShapedCell | astar.py:34-35 | `get_pos` of a grid cell is the index pair at which `make_grid` stored it, inside the grid |
| Board.Node.Reset | astar.py:52-54 | the cell becomes white, and none of the five state predicates holds |
| Board.Node.SetClosed | astar.py:56-57 | the cell becomes red, so `is_already_visited` holds |
| Board.Node.SetOpen | astar.py:59-60 | the cell becomes green, so `is_not_visited` holds |
| Board.Node.SetBlock | astar.py:62-63 | the cell becomes black, so `is_blocked` holds |
| Board.Node.SetEnd | astar.py:65-66 | the cell becomes turquoise, so `is_end` holds |
| Board.Node.SetStart | astar.py:68-69 | the cell becomes orange, so `is_start` holds |
| Board.Node.MakePath | astar.py:71-72 | the cell becomes purple, and none of the five state predicates holds |
| Board.RemoveAt | astar.py:123 | taking entry i out of the queue removes exactly that entry and keeps all the others, as multisets |
| Board.Close | astar.py:146-147 | after expanding a cell, it is closed unless it is start; the colour invariant moves the cell from the frontier to the expanded cells |
| Board.WalkStaysIn | astar.py:132-142 | a walk along neighbour lists that begins inside a neighbour-closed set of cells never leaves it |
| Board.Unreachable | astar.py:149 | when the expanded cells are closed under neighbours and exclude end, no walk from start reaches end |
| Board.CompleteAfterVisit | astar.py:132-142 | after a cell's neighbours are relaxed, each of them has a finite score, and earlier cells keep that property because scores only fall |
| Board.MakeGrid | djistras.py:141-151 | returns `rows` rows of `rows` freshly allocated white cells with empty lists; cell `[i][j]` has row `i`, column `j` and pixel origin `i*gap`, `j*gap` with `gap = width / rows` |
| Board.GetClickedPos | djistras.py:174-180 | the returned cell is the one whose `gap`-wide pixel square holds the pointer |
| Board.ClickLandsInGrid | djistras.py:174-180 | a pointer inside a `rows*gap` square lands on a cell index in `[0, rows)` |
| Board.WindowLandsInGrid | djistras.py:198-202 | with 50 rows in the 800-pixel window, every pointer position inside the window names a cell of the grid |
| Board.LowerScore | djistras.py:127-128 | lowering one score strictly decreases the measure (unreached count, then the sum of finite scores); this is the loops' termination argument |
| Board.Untouched | djistras.py:127-128 | changing the score of a cell outside the measured list leaves the measure unchanged |
| Board.ProgressTransitive | djistras.py:125-130 | two successive decreases of the measure compose into one |
| Editor.LeftClick | astar.py:213-227 | with no start, a click on a cell other than end picks it as start and paints it Start; with start but no end, a click on a cell other than start picks it as end and paints it End; with both chosen, a click on any other cell blocks it; a click on start or end changes nothing; start and end stay apart |
| Editor.RightClick | astar.py:231-240 | a right click whitens the cell; if the cell is start, start is cleared and end kept; otherwise, if it is end, end is cleared and start kept; otherwise the selection is unchanged; start and end stay apart |
| Editor.ClicksKeepApart | astar.py:201-253 | from the empty selection (the initial one, and the one after the `c` key), no sequence of clicks makes start and end the same cell |
| Editor.Press | astar.py:213-240 | a click of either button keeps start and end apart, and only a right click whitens the cell |
| Editor.Clicks | astar.py:213-240 | after a sequence of clicks, the chosen start (and end) is the one chosen before or one of the clicked cells |
| Editor.Click | astar.py:213-240 | applies one click: the result is the transition's new selection, and the cell is repainted as the transition says, or left as it was |
| AStar.PyIndex | astar.py:82-83 | Python's index `-1` on a row list selects the last element, always giving an in-range index |
| AStar.WrapNeighbors | astar.py:78-87 | the list `update_neighbors` builds has at most four cells, none blocked |
| AStar.WrapNeighborsExactly | astar.py:78-87 | a cell's list holds exactly the unblocked cells one step down, up, right or left, where up from row 0 is the last row and left from column 0 is the last column |
| AStar.WrapNeighborsInside | astar.py:78-87 | every listed cell is a cell of the grid |
| AStar.WrapsTopToBottom | astar.py:82-83 | an unblocked last-row cell is listed as the "up" neighbour of the row-0 cell in its column, although it is `R-1` steps away |
| AStar.WrapsLeftToRight | astar.py:86-87 | an unblocked last-column cell is listed as the "left" neighbour of the column-0 cell in its row |
| AStar.WrapIsOneWay | astar.py:80-87 | the bottom and right edges add nothing, so a wrap edge has no reverse edge |
| AStar.UpdateNeighbors | astar.py:78-87 | the list is rebuilt from nothing, in the order down, up, right, left, keeping only unblocked candidates, with Python's wrap-around |
| AStar.RefreshRow | astar.py:245-247 | every cell of one row gets its rebuilt list |
| AStar.RefreshRows | astar.py:245-247 | every cell of the grid gets the list built from the current colours, and the colours do not change |
| AStar.RefreshNeighbors | astar.py:244-247 | after the refresh, every list is the rebuilt one, lists only grid cells and never a blocked one; a second refresh with no colour change leaves every list as it was |
| AStar.RefreshedIsClosed | astar.py:244-247 | refreshed lists point only into the grid and never at a blocked cell |
| AStar.H | astar.py:94-97 | the Manhattan distance is a natural number, and it is zero exactly when the two positions are equal |
| AStar.HSymmetric | astar.py:94-97 | `h` is symmetric |
| AStar.HTriangle | astar.py:94-97 | `h` satisfies the triangle inequality |
| AStar.HOneStep | astar.py:94-97 | across one orthogonal step, `h` to the goal changes by at most one |
| AStar.AdjacentIsUnit | astar.py:94-97 | two positions are one orthogonal step apart exactly when `h` between them is 1 |
| AStar.BoundedStepIsUnit | astar.py:94-97 | along an edge of the bounded neighbour lists `h` is exactly 1, so the estimate to any goal falls by at most one per edge |
| AStar.WrapStepOverestimates | astar.py:82-83 | on a grid of three or more rows, a wrap edge joins cells whose `h` differs by more than one step, so `h` is not consistent along the graph being searched |
| AStar.MinIndex | astar.py:123 | `pq.get()` returns an entry that no other entry precedes in `(f_score, count)` order |
| AStar.MinimumIsUnique | astar.py:139-140 | because counts strictly increase, the least entry is unique and the order never falls through to comparing cells |
| AStar.QueuedAfterPush | astar.py:140-141 | pushing an entry adds exactly its cell to the queued cells |
| AStar.QueuedAfterRemove | astar.py:123-124 | removing one entry from a queue without duplicate cells removes exactly its cell, keeps counts increasing and keeps the other entries in order |
| AStar.Chain | astar.py:101-103 | the walk back through `came_from` holds only recorded predecessors, and is empty exactly when the cell has none |
| AStar.ChainDescends | astar.py:99-104 | along `came_from`, scores strictly fall, so the walk back from a cell is no longer than that cell's score and does not revisit the cell |
| AStar.ChainEndsAtStart | astar.py:101-103 | when every reached cell other than start has a predecessor, the walk back from any cell with a predecessor stops exactly at start |
| AStar.ChainIsWalk | astar.py:101-102 | each cell on the walk back lists the cell after it as a neighbour |
| AStar.ChainWithin | astar.py:101-102 | the walk back stays within any set that holds every recorded predecessor |
| AStar.ReconstructPath | astar.py:99-104 | terminates; paints every predecessor on the chain except start; calls `draw` once per step; leaves all other cells and start unchanged |
| AStar.RelaxEdge | astar.py:133-141 | one relaxation leaves the scored cells as they were, leaves the neighbour's score at most `g_score[cur] + 1` and never raises it, changes no other score, and when it changes anything records `cur` as the neighbour's predecessor and has the neighbour in the set |
| AStar.RelaxKeepsQueue | astar.py:138-141 | a relaxation keeps the membership set equal to the queued cells, the counts strictly increasing and the queue free of duplicates; the set gains the neighbour only if its score dropped |
| AStar.RelaxKeepsScores | astar.py:133-137 | a relaxation keeps start at score 0 with no predecessor, keeps every queued cell scored, and keeps every predecessor's score below its successor's |
| AStar.RelaxLowers | astar.py:133-136 | a relaxation only lowers scores, strictly by the measure when it changes anything, never touches start or the cell being expanded, and leaves the neighbour scored |
| AStar.RelaxKeepsRanks | astar.py:134-136 | recording `came_from[n] = cur` with `g_score[n] = g_score[cur] + 1` keeps predecessors ranked below successors |
| AStar.RelaxKeepsHistory | astar.py:135-141 | every recorded predecessor is an expanded cell, and every cell in the set is start or a cell that was not blocked |
| AStar.RelaxKeepsLinks | astar.py:132-135 | every predecessor lists its successor as a neighbour |
| AStar.RelaxKeepsWitnessed | astar.py:134-141 | every cell with a finite score is in the set or already expanded |
| AStar.RelaxKeepsSearch | astar.py:132-142 | one relaxation keeps all the search invariants together and changes the set by at most the neighbour |
| AStar.RelaxNext | astar.py:133-142 | one pass of the inner loop keeps the search invariants and the colour invariant, leaves the expanded cell's colour alone and leaves the neighbour scored |
| AStar.RelaxStep | astar.py:133-142 | the pass computes the relaxed state; a cell newly put in the set is painted open |
| AStar.RelaxingAfterEdge | astar.py:132-142 | the loop invariant of the inner loop survives one more edge |
| AStar.Relax | astar.py:132-142 | relaxing all of a cell's neighbours keeps the invariants, makes every neighbour scored and only lowers scores |
| AStar.Dequeue | astar.py:123-124 | `pq.get()` with `set.remove` takes exactly the entry out, takes its cell out of the set and keeps every other cell there, and changes no score |
| AStar.DequeueKeeps | astar.py:123-124 | removing a non-end entry keeps the invariants with that cell counted as expanded, and `set.remove(cur)` always finds the cell |
| AStar.DequeueEnd | astar.py:123-126 | when the least entry is end's, removing it keeps the invariants, and end is a scored cell that was not blocked (or is start) |
| AStar.Visit | astar.py:132-147 | expanding a cell keeps the loop invariant and lowers the measure or leaves the scores as they were |
| AStar.Advance | astar.py:123-147 | a pass that expands a cell other than end keeps the loop invariant and lowers the measure or shortens the queue |
| AStar.InitialSearch | astar.py:108-117 | the initial queue `[(0, 0, start)]`, set `{start}` and scores (infinite except `g_score[start] = 0`) satisfy the loop invariant |
| AStar.FoundPath | astar.py:126-130 | the chain behind end excludes end, is empty exactly when end is start, ends at start, is a walk into end over expanded cells, and is no longer than end's score |
| AStar.Paint | astar.py:128-129 | end is painted End, the chain is painted Path except start, and start, blocked cells and every cell off the chain keep their colours |
| AStar.Finish | astar.py:126-130 | the last pass paints end and the path; `draw` is called once per path cell; blocked cells stay blocked; every cell off the path other than end keeps its colour from before the search, or is Open, or is an expanded cell painted Closed |
| AStar.Stop | astar.py:123-130 | popping end's entry and painting behaves as `Finish` says, including the colouring of the cells off the path |
| AStar.Found | astar.py:126-130 | the last pass establishes `Finished` with `found` true |
| AStar.Exhausted | astar.py:149 | with the queue empty, the set is empty, so start and every neighbour of an expanded cell were expanded; this establishes `Finished` with `found` false |
| AStar.Step | astar.py:119-147 | one pass either finishes as `Finished` says, or keeps the loop invariant and lowers the termination measure |
| AStar.Search | astar.py:119-149 | the loop terminates; it returns true exactly when end was dequeued; it paints and counts as `Finished` states; start and blocked cells keep their colours |
| AStar.Algorithm | astar.py:107-149 | the whole search, from the refreshed grid and the initial queue, ends as `Finished` states; when it returns false, no walk along the neighbour lists leads from start to end |
| Dijkstra.BoundedNeighborsExactly | djistras.py:80-89 | a cell's list holds exactly the unblocked cells one orthogonal step away inside the grid |
| Dijkstra.BoundedNeighbors | djistras.py:80-89 | the list `update_neighbors` builds has at most four cells, none blocked |
| Dijkstra.BoundedNeighborsInside | djistras.py:80-89 | every listed cell is a cell of the grid |
| Dijkstra.BoundedIsSymmetric | djistras.py:84-88 | between two unblocked cells, each lists the other or neither does |
| Dijkstra.UpdateNeighbors | djistras.py:80-89 | the list is rebuilt from nothing, in the order down, up, right, left, keeping only unblocked candidates inside the grid |
| Dijkstra.RefreshRow | djistras.py:229-231 | every cell of one row gets its rebuilt list |
| Dijkstra.RefreshRows | djistras.py:229-231 | every cell gets the list built from the current colours, and the colours do not change |
| Dijkstra.RefreshNeighbors | djistras.py:228-231 | after the refresh, every list is the rebuilt one, lists only grid cells and never a blocked one; a second refresh with no colour change leaves every list as it was |
| Dijkstra.RefreshedIsClosed | djistras.py:228-231 | refreshed lists point only into the grid and never at a blocked cell |
| Dijkstra.RefreshedIsSymmetric | djistras.py:228-231 | after the refresh, the neighbour relation between unblocked cells is symmetric |
| Dijkstra.LeastIndex | djistras.py:114 | a non-empty queue has an entry of least distance |
| Dijkstra.PickLeast | djistras.py:114-117 | `pq.get()` returns some entry of least distance; which one among ties is left open, because `__lt__` on cells is always false |
| Dijkstra.QueuedAfterPush | djistras.py:129 | a push adds exactly its cell, and its (cell, distance) pair, to what the queue holds |
| Dijkstra.QueuedAfterRemove | djistras.py:114 | removing one entry keeps every other entry's cell and (cell, distance) pair in the queue |
| Dijkstra.RelaxEdge | djistras.py:126-129 | one relaxation leaves the set of cells with a distance as it was, leaves the neighbour's distance at most `cur_dis + 1` and never raises it, changes no other distance, and when it changes anything queues `(cur_dis + 1, neighbor, path)` |
| Dijkstra.RelaxKeepsEntries | djistras.py:124-130 | every queued entry `(d, n, p)` keeps `len(p) == d`, a path that starts at start and steps along neighbour lists, and a last cell that lists `n` |
| Dijkstra.RelaxKeepsWitnessed | djistras.py:127-129 | every reached cell not yet expanded has an entry carrying its current distance |
| Dijkstra.RelaxLowers | djistras.py:126-128 | a relaxation only lowers distances, by strict `<`, and strictly lowers the measure when it changes anything; start stays 0, the neighbour ends up at most `cur_dis + 1`, and every distance is as before or that value |
| Dijkstra.RelaxKeepsSearch | djistras.py:124-130 | one relaxation keeps all the search invariants |
| Dijkstra.RelaxNext | djistras.py:125-130 | one pass of the inner loop keeps the invariants and the colour invariant, and leaves the neighbour's distance at most `cur_dis + 1` |
| Dijkstra.RelaxStep | djistras.py:126-130 | the pass computes the relaxed state, and a pushed neighbour is painted open |
| Dijkstra.RelaxingAfterEdge | djistras.py:125-130 | the inner loop's invariant survives one more edge |
| Dijkstra.Relax | djistras.py:125-130 | relaxing all of a cell's neighbours keeps the invariants, only lowers distances, sets each changed one to `cur_dis + 1`, and leaves every neighbour at most `cur_dis + 1` |
| Dijkstra.SettledAfterVisit | djistras.py:124-130 | relaxing the edges of a cell dequeued no lower than every expanded cell leaves the expanded cells' distances alone; each of their neighbours stays within one step of them |
| Dijkstra.Visit | djistras.py:124-136 | expanding a cell keeps the loop invariant, including settled distances for the expanded cells, and lowers the measure or leaves the distances as they were |
| Dijkstra.EntryGrows | djistras.py:124 | an entry's facts stay true as more cells are expanded |
| Dijkstra.DequeueEntries | djistras.py:114-117 | after a least entry is removed, every remaining entry's distance is at least the removed one's |
| Dijkstra.DequeueWitnessed | djistras.py:114-117 | removing an entry keeps every reached cell that is not expanded witnessed by an entry |
| Dijkstra.DequeueExtends | djistras.py:124 | `path + [cur_node]` is a route from start ending at the dequeued cell, one cell longer than its distance |
| Dijkstra.DequeuePainted | djistras.py:114-136 | the colour invariant carries over to the dequeued cell becoming expanded |
| Dijkstra.DequeuedAtDistance | djistras.py:114-117 | a least entry for a cell not yet expanded carries exactly that cell's recorded distance |
| Dijkstra.DequeueKeeps | djistras.py:114-124 | dequeuing a non-end entry keeps the invariants, with its distance as the new floor |
| Dijkstra.Advance | djistras.py:114-136 | a pass that expands a cell other than end keeps the loop invariant, dequeues no lower than the last dequeued distance, and lowers the measure or shortens the queue |
| Dijkstra.DequeueEnd | djistras.py:119-122 | end's dequeued entry carries a route from start, of exactly the entry's distance, ending next to end, not containing end, and equal to end's recorded distance |
| Dijkstra.DequeueEndColors | djistras.py:133-136 | during the search, start and every blocked cell keep their colours |
| Dijkstra.PrefixBound | djistras.py:125-129 | along a walk from start whose first k cells are expanded, the k-th cell's distance is at most k |
| Dijkstra.LeastWithin | djistras.py:114 | the least entry's distance is no larger than the length of any walk from start to end |
| Dijkstra.EndIsShortest | djistras.py:119-123 | when end's entry is the least, no walk along the neighbour lists from start to end is shorter than its distance |
| Dijkstra.ReconstructPath | djistras.py:97-101 | paints each path cell except start, calls `draw` exactly `len(path)` times, and leaves other cells and start unchanged |
| Dijkstra.Paint | djistras.py:121-122 | end is painted End, the path is painted Path except start, and start, blocked cells and every cell off the path keep their colours |
| Dijkstra.Stop | djistras.py:119-123 | the last pass paints the carried path, which runs from start and steps along neighbour lists to a cell next to end, never holds end, has length equal to end's distance, and is no longer than any walk from start to end; other cells keep the loop's colouring |
| Dijkstra.InitialSearch | djistras.py:105-108 | the initial queue `[(0, start, [])]` and distances (infinite except `distances[start] = 0`) satisfy the loop invariant |
| Dijkstra.ExhaustedColors | djistras.py:133-138 | when the queue empties, every cell keeps its colour or is an expanded cell now closed; start and blocked cells keep theirs |
| Dijkstra.ExhaustedClosed | djistras.py:110-138 | when the queue empties, start and every neighbour of an expanded cell were expanded |
| Dijkstra.OrderedAppend | djistras.py:114-115 | the dequeued distances stay non-decreasing when the next one is at least the floor |
| Dijkstra.Found | djistras.py:119-123 | the last pass establishes `Finished` with `found` true |
| Dijkstra.Exhausted | djistras.py:138 | an empty queue establishes `Finished` with `found` false |
| Dijkstra.Step | djistras.py:110-136 | one pass either finishes as `Finished` says, or keeps the loop invariant, keeps the dequeued distances ordered and lowers the termination measure |
| Dijkstra.Search | djistras.py:110-138 | the loop terminates; it returns true exactly when end was dequeued; the dequeued distances never decrease; the painted path's length equals end's distance and no walk from start to end is shorter |
| Dijkstra.Algorithm | djistras.py:104-138 | the whole search ends as `Finished` states; when it returns true, no walk along the neighbour lists from start to end is shorter than the painted path; when it returns false, no such walk exists |

## Left out

- Rendering is not modelled: `set_mode`, `set_caption`, `Node.draw`, `draw_grid`, `draw` and `display.update`. It is screen output. `draw` appears only as a counter of the frames the search requests.
- Events are not modelled. This covers `pygame.event.get()` and `pygame.quit()` inside the search loops, and the outer event loop of `main`. They are event I/O. Of `main`, only the click effects are modelled (`Editor`), with the mouse abstracted to a button and a cell.
- The `c` key appears only as the empty selection that `ClicksKeepApart` starts from. The model does not rebuild the grid at that point, because that is another call of `MakeGrid`.
- The space key is modelled by its two calls: `RefreshNeighbors` and then `Algorithm`. The guard `start and end` becomes `Algorithm`'s requirement that both are grid cells.
- `queue.PriorityQueue` is not modelled. It is a library heap. An abstract min-queue over a sequence takes its place:
  - A* removes the entry that is least in `(f_score, count)` order;
  - Dijkstra removes any entry of least distance.
- `float("inf")` is only the "not reached" sentinel. It becomes `Inf`, and no floating point is modelled.
- Colours are tags, not RGB tuples. Pixel fields are kept only as the integer arithmetic of `make_grid` and `get_clicked_pos`.
- Board.MakeGrid requires `rows > 0`. With zero rows, `width // rows` raises `ZeroDivisionError`. With a negative row count, `make_grid` returns `[]`, which is not modelled. The scripts always pass 50 rows.
- Board.GetClickedPos requires `rows > 0` and a positive gap `width // rows`. Zero rows or a zero gap raise `ZeroDivisionError`. A negative row count or gap divides without error under Python's floor division, which is not modelled. The scripts always pass 50 rows and an 800-pixel width.
- `Node.__hash__` in `djistras.py` is not modelled. Cells are compared and used as map keys by identity. The scripts never build two cells at one position in a grid, so this is enough.
- AStar.FoundPath: the model bounds the painted path by end's `g_score` and does not prove equality. A cell that was already closed can have its score lowered later, because `set` tracks only the open cells and such a cell is pushed again. A predecessor's score can therefore fall after it was recorded. The same weaker bound appears in `AStar.Finish`, `AStar.Stop` and `AStar.Reached`.
- AStar.Algorithm: it does not prove that the painted path is a shortest one. With the wrap-around edges, `h` can overestimate (see Findings), so the source does not promise optimality.
- Dijkstra.Algorithm: shortest-walk optimality is proved for end only: no walk from start to end is shorter than the painted path. It does not state that every other entry of `distances` is a shortest walk length, because the script reads only end's entry.

## Findings

| source | as written | input that shows it | evidently intended | confidence | as-written member | corrected member |
|---|---|---|---|---|---|---|
| astar.py:82 | The guards of the "up" and "left" candidates are `row >= 0` and `col >= 0`, so they always hold. On row 0, `grid[-1][col]` is Python's last row. On column 0, `grid[row][-1]` is the last column. Row 0 therefore lists the bottom cell of its column as a neighbour, and column 0 the right-most cell of its row. The edge is one-way, and `h` changes by `R-1` across it. | a 50-row grid with start at (0, 0) and end at (49, 0), nothing blocked: start's list holds end, so end gets `g_score` 1 and the reported path is start alone, though the cells are 49 rows apart | Only cells inside the grid are neighbours: the guards are `row > 0` and `col > 0`, as in djistras.py:84 and djistras.py:88. Adjacency is then symmetric, and `h` changes by exactly one per edge. | not executed | AStar.WrapStepOverestimates | Dijkstra.BoundedIsSymmetric |

The as-written behaviour is stated by three members:

- `AStar.WrapsTopToBottom` and `AStar.WrapsLeftToRight` show the wrap edges;
- `AStar.WrapIsOneWay` shows that the bottom and right edges add no reverse edge;
- `AStar.WrapStepOverestimates` shows that such an edge spans more than one step of `h`.

The corrected definition is `Dijkstra.BoundedNeighbors`, which the uniform-cost model uses:

- `Dijkstra.BoundedNeighborsExactly` proves that it lists exactly the orthogonally adjacent unblocked cells;
- `Dijkstra.BoundedIsSymmetric` and `Dijkstra.RefreshedIsSymmetric` prove that the relation is symmetric.
- `AStar.BoundedStepIsUnit` proves that `h` changes by exactly one along each of its edges, so the estimate is consistent on the corrected graph.

The A* module keeps the wrapping lists, because it models `astar.py` as written.
