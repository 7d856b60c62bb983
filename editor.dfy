/** The mouse handling of both scripts' main loop, with the mouse abstracted
    away: a click is a button and the cell under the pointer. A click changes
    which cells are the chosen start and end and may repaint the clicked cell. */
module Editor {
  import opened Board

  /** The main loop's `start` and `end` variables (`None` before a choice). */
  datatype Selection = Selection(start: Option<Node>, end: Option<Node>)

  datatype Button = LeftButton | RightButton

  /** What one click does: the new selection, and the colour the clicked cell
      is given (None: it is left as it is). */
  datatype Outcome = Outcome(sel: Selection, paint: Option<Color>)

  /** Start and end are never the same cell. */
  predicate Apart(sel: Selection) {
    !(sel.start.Some? && sel.end.Some? && sel.start == sel.end)
  }

  /** A left click: the first free choice picks the start, the next the end,
      and every later click blocks a cell other than those two. */
  function LeftClick(sel: Selection, node: Node): (r: Outcome)
    ensures Apart(sel) ==> Apart(r.sel)
    ensures r.paint == Some(Blocked) ==> Some(node) != sel.start && Some(node) != sel.end && r.sel == sel
    ensures r.paint == Some(Start) <==> r.sel.start != sel.start
    ensures r.paint == Some(End) <==> r.sel.end != sel.end
    ensures r.sel.start.Some? ==> r.sel.start == sel.start || (sel.start.None? && r.sel.start == Some(node))
    ensures r.sel.end.Some? ==> r.sel.end == sel.end || (sel.end.None? && r.sel.end == Some(node))
    ensures sel.start.Some? ==> r.sel.start == sel.start
    ensures sel.end.Some? ==> r.sel.end == sel.end
    ensures sel.start.None? && Some(node) != sel.end ==>
      r.sel.start == Some(node) && r.sel.end == sel.end && r.paint == Some(Start)
    ensures sel.start.Some? && sel.end.None? && Some(node) != sel.start ==>
      r.sel.end == Some(node) && r.sel.start == sel.start && r.paint == Some(End)
    ensures sel.start.Some? && sel.end.Some? && Some(node) != sel.start && Some(node) != sel.end ==>
      r.sel == sel && r.paint == Some(Blocked)
    ensures Some(node) == sel.start || Some(node) == sel.end ==> r.sel == sel && r.paint.None?
  {
    if sel.start.None? && Some(node) != sel.end then
      Outcome(Selection(Some(node), sel.end), Some(Start))
    else if sel.end.None? && Some(node) != sel.start then
      Outcome(Selection(sel.start, Some(node)), Some(End))
    else if Some(node) != sel.start && Some(node) != sel.end then
      Outcome(sel, Some(Blocked))
    else
      Outcome(sel, None)
  }

  /** A right click: the clicked cell is reset to white; if it was the start
      (else, if it was the end) that choice is forgotten. */
  function RightClick(sel: Selection, node: Node): (r: Outcome)
    ensures r.paint == Some(Unvisited)
    ensures Apart(sel) ==> Apart(r.sel)
    ensures Apart(sel) ==> r.sel.start != Some(node) && r.sel.end != Some(node)
    ensures r.sel.start == sel.start || r.sel.start.None?
    ensures r.sel.end == sel.end || r.sel.end.None?
    ensures sel.start != Some(node) && sel.end != Some(node) ==> r.sel == sel
    ensures sel.start == Some(node) ==> r.sel == Selection(None, sel.end)
    ensures sel.start != Some(node) && sel.end == Some(node) ==> r.sel == Selection(sel.start, None)
  {
    if sel.start == Some(node) then
      Outcome(Selection(None, sel.end), Some(Unvisited))
    else if sel.end == Some(node) then
      Outcome(Selection(sel.start, None), Some(Unvisited))
    else
      Outcome(sel, Some(Unvisited))
  }

  /** One click of either button. Only a right click whitens the cell, and
      no click brings start and end together. */
  function Press(sel: Selection, b: Button, node: Node): (r: Outcome)
    ensures Apart(sel) ==> Apart(r.sel)
    ensures b == RightButton <==> r.paint == Some(Unvisited)
  {
    match b
    case LeftButton => LeftClick(sel, node)
    case RightButton => RightClick(sel, node)
  }

  /** The selection after a sequence of clicks: each chosen cell is the one
      chosen before the clicks or a cell that was clicked. */
  function Clicks(sel: Selection, clicks: seq<(Button, Node)>): (r: Selection)
    ensures r.start.Some? ==> r.start == sel.start || exists k :: 0 <= k < |clicks| && r.start == Some(clicks[k].1)
    ensures r.end.Some? ==> r.end == sel.end || exists k :: 0 <= k < |clicks| && r.end == Some(clicks[k].1)
    decreases |clicks|
  {
    if clicks == [] then sel
    else Clicks(Press(sel, clicks[0].0, clicks[0].1).sel, clicks[1..])
  }

  /** From the initial empty selection (and after the 'c' key, which empties it
      again), no sequence of clicks ever makes start and end the same cell. */
  lemma {:induction false} ClicksKeepApart(sel: Selection, clicks: seq<(Button, Node)>)
    requires Apart(sel)
    ensures Apart(Clicks(sel, clicks))
    decreases |clicks|
  {
    if clicks != [] {
      var next := Press(sel, clicks[0].0, clicks[0].1).sel;
      ClicksKeepApart(next, clicks[1..]);
    }
  }

  /** Handles one click on `node`: repaints it as the transition says and
      returns the new selection. */
  method Click(sel: Selection, b: Button, node: Node) returns (next: Selection)
    modifies node`color
    ensures next == Press(sel, b, node).sel
    ensures Press(sel, b, node).paint.Some? ==> node.color == Press(sel, b, node).paint.value
    ensures Press(sel, b, node).paint.None? ==> node.color == old(node.color)
  {
    next := sel;
    match b {
      case LeftButton =>
        if sel.start.None? && Some(node) != sel.end {
          next := Selection(Some(node), sel.end);
          node.SetStart();
        } else if sel.end.None? && Some(node) != sel.start {
          next := Selection(sel.start, Some(node));
          node.SetEnd();
        } else if Some(node) != sel.start && Some(node) != sel.end {
          node.SetBlock();
        }
      case RightButton =>
        node.Reset();
        if sel.start == Some(node) {
          next := Selection(None, sel.end);
        } else if sel.end == Some(node) {
          next := Selection(sel.start, None);
        }
    }
  }
}
