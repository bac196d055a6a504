/** The panes tile the area exactly, operations change only what they should, and navigation finds
    the neighbour that the tiling puts next to a pane. */
module LayoutTiling {
  import opened Machine
  import opened Layout

  predicate Inside(r: Rect, x: int, y: int) {
    r.x <= x < r.x + r.width && r.y <= y < r.y + r.height
  }

  predicate Within(r: Rect, area: Rect) {
    && area.x <= r.x && r.x + r.width <= area.x + area.width
    && area.y <= r.y && r.y + r.height <= area.y + area.height
  }

  /** How many panes cover a cell. */
  function Owners(panes: seq<PaneInfo>, x: int, y: int): nat {
    if panes == [] then 0
    else (if Inside(panes[0].rect, x, y) then 1 else 0) + Owners(panes[1..], x, y)
  }

  lemma {:induction false} OwnersConcat(a: seq<PaneInfo>, b: seq<PaneInfo>, x: int, y: int)
    ensures Owners(a + b, x, y) == Owners(a, x, y) + Owners(b, x, y)
  {
    if a == [] {
      assert a + b == b;
    } else {
      assert (a + b)[1..] == a[1..] + b;
      OwnersConcat(a[1..], b, x, y);
    }
  }

  /** Every cell of the area lies in exactly one pane, and no pane covers a cell outside it. */
  lemma {:induction false} ExactTiling(node: Node, area: Rect, x: int, y: int)
    ensures Owners(CollectPanes(node, area), x, y) == if Inside(area, x, y) then 1 else 0
  {
    match node {
      case Pane(id) =>
        assert CollectPanes(node, area)[1..] == [];
      case Split(direction, ratio, first, second) =>
        var (a, b) := SplitRect(area, direction, ratio);
        ExactTiling(first, a, x, y);
        ExactTiling(second, b, x, y);
        OwnersConcat(CollectPanes(first, a), CollectPanes(second, b), x, y);
    }
  }

  lemma {:induction false} PanesWithinArea(node: Node, area: Rect)
    ensures forall i :: 0 <= i < |CollectPanes(node, area)| ==> Within(CollectPanes(node, area)[i].rect, area)
  {
    if node.Split? {
      var (a, b) := SplitRect(area, node.direction, node.ratio);
      PanesWithinArea(node.first, a);
      PanesWithinArea(node.second, b);
    }
  }

  lemma {:induction false} PaneIds(node: Node, area: Rect)
    ensures |CollectPanes(node, area)| == |CollectIds(node)|
    ensures forall i :: 0 <= i < |CollectIds(node)| ==> CollectPanes(node, area)[i].id == CollectIds(node)[i]
  {
    if node.Split? {
      var (a, b) := SplitRect(area, node.direction, node.ratio);
      PaneIds(node.first, a);
      PaneIds(node.second, b);
    }
  }

  // ----- owners by index -----

  lemma {:induction false} SomeOwner(panes: seq<PaneInfo>, x: int, y: int) returns (i: nat)
    requires Owners(panes, x, y) >= 1
    ensures i < |panes| && Inside(panes[i].rect, x, y)
  {
    if Inside(panes[0].rect, x, y) {
      i := 0;
    } else {
      i := SomeOwner(panes[1..], x, y);
      i := i + 1;
    }
  }

  lemma {:induction false} OwnersAtLeast(panes: seq<PaneInfo>, x: int, y: int, i: nat)
    requires i < |panes| && Inside(panes[i].rect, x, y)
    ensures Owners(panes, x, y) >= 1
  {
    if i > 0 {
      OwnersAtLeast(panes[1..], x, y, i - 1);
    }
  }

  lemma {:induction false} OneOwner(panes: seq<PaneInfo>, x: int, y: int, i: nat, j: nat)
    requires Owners(panes, x, y) <= 1
    requires i < |panes| && Inside(panes[i].rect, x, y)
    requires j < |panes| && Inside(panes[j].rect, x, y)
    ensures i == j
  {
    if i == 0 && j > 0 {
      OwnersAtLeast(panes[1..], x, y, j - 1);
    } else if i > 0 && j == 0 {
      OwnersAtLeast(panes[1..], x, y, i - 1);
    } else if i > 0 && j > 0 {
      OneOwner(panes[1..], x, y, i - 1, j - 1);
    }
  }

  // ----- local changes -----

  function ReplaceAt<T>(xs: seq<T>, at: nat, ys: seq<T>): seq<T>
    requires at < |xs|
  {
    xs[..at] + ys + xs[at + 1..]
  }

  lemma ReplaceInConcat<T>(a: seq<T>, b: seq<T>, at: nat, ys: seq<T>)
    requires at < |a| + |b|
    ensures at < |a| ==> ReplaceAt(a + b, at, ys) == ReplaceAt(a, at, ys) + b
    ensures at >= |a| ==> ReplaceAt(a + b, at, ys) == a + ReplaceAt(b, at - |a|, ys)
  {
    if at < |a| {
      assert (a + b)[..at] == a[..at] && (a + b)[at + 1..] == a[at + 1..] + b;
    } else {
      assert (a + b)[..at] == a + b[..at - |a|] && (a + b)[at + 1..] == b[at - |a| + 1..];
    }
  }

  /** The two panes that take the place of a split one. */
  function Halves(pane: PaneInfo, direction: Direction, newId: nat, ratio: Ratio): seq<PaneInfo> {
    var (a, b) := SplitRect(pane.rect, direction, ratio);
    [PaneInfo(pane.id, a), PaneInfo(newId, b)]
  }

  /** Splitting replaces the target by the two halves of its rectangle and moves nothing else. */
  lemma {:induction false} SplitIsLocal(node: Node, area: Rect, target: nat, direction: Direction, newId: nat, ratio: Ratio)
    requires NoDuplicates(CollectIds(node)) && target in CollectIds(node)
    ensures var before, at := CollectPanes(node, area), Position(CollectIds(node), target);
      && at < |before| && before[at].id == target
      && CollectPanes(SplitAt(node, target, direction, newId, ratio), area)
         == ReplaceAt(before, at, Halves(before[at], direction, newId, ratio))
    decreases node, 1
  {
    PaneIds(node, area);
    if node.Split? {
      var (a, b) := SplitRect(area, node.direction, node.ratio);
      var at := Position(CollectIds(node), target);
      PaneIds(node.first, a);
      PaneIds(node.second, b);
      ConcatNoDuplicates(CollectIds(node.first), CollectIds(node.second));
      PositionInConcat(CollectIds(node.first), CollectIds(node.second), target);
      ReplaceInConcat(CollectPanes(node.first, a), CollectPanes(node.second, b), at,
                      Halves(CollectPanes(node, area)[at], direction, newId, ratio));
      if target in CollectIds(node.first) {
        SplitInFirst(node, area, target, direction, newId, ratio);
      } else {
        SplitInSecond(node, area, target, direction, newId, ratio);
      }
    }
  }

  lemma SplitInFirst(node: Node, area: Rect, target: nat, direction: Direction, newId: nat, ratio: Ratio)
    requires node.Split? && NoDuplicates(CollectIds(node.first))
    requires target in CollectIds(node.first) && target !in CollectIds(node.second)
    ensures var (a, b) := SplitRect(area, node.direction, node.ratio);
      var left, at := CollectPanes(node.first, a), Position(CollectIds(node.first), target);
      && at < |left| && left[at].id == target
      && CollectPanes(SplitAt(node, target, direction, newId, ratio), area)
         == ReplaceAt(left, at, Halves(left[at], direction, newId, ratio)) + CollectPanes(node.second, b)
    decreases node, 0
  {
    var (a, b) := SplitRect(area, node.direction, node.ratio);
    SplitIsLocal(node.first, a, target, direction, newId, ratio);
    SplitElsewhere(node.second, target, direction, newId, ratio);
  }

  lemma SplitInSecond(node: Node, area: Rect, target: nat, direction: Direction, newId: nat, ratio: Ratio)
    requires node.Split? && NoDuplicates(CollectIds(node.second))
    requires target in CollectIds(node.second) && target !in CollectIds(node.first)
    ensures var (a, b) := SplitRect(area, node.direction, node.ratio);
      var right, at := CollectPanes(node.second, b), Position(CollectIds(node.second), target);
      && at < |right| && right[at].id == target
      && CollectPanes(SplitAt(node, target, direction, newId, ratio), area)
         == CollectPanes(node.first, a) + ReplaceAt(right, at, Halves(right[at], direction, newId, ratio))
    decreases node, 0
  {
    var (a, b) := SplitRect(area, node.direction, node.ratio);
    SplitIsLocal(node.second, b, target, direction, newId, ratio);
    SplitElsewhere(node.first, target, direction, newId, ratio);
  }

  /** Closing the pane that a split has just made gives back the very tree it was made in. */
  lemma {:induction false} CloseUndoesSplit(node: Node, target: nat, direction: Direction, newId: nat, ratio: Ratio)
    requires NoDuplicates(CollectIds(node)) && target in CollectIds(node) && newId !in CollectIds(node)
    ensures RemovePane(SplitAt(node, target, direction, newId, ratio), newId) == Some(node)
  {
    if node.Split? {
      ConcatNoDuplicates(CollectIds(node.first), CollectIds(node.second));
      if target in CollectIds(node.first) {
        CloseUndoesSplit(node.first, target, direction, newId, ratio);
        SplitElsewhere(node.second, target, direction, newId, ratio);
        RemoveElsewhere(node.second, newId);
      } else {
        SplitElsewhere(node.first, target, direction, newId, ratio);
        CloseUndoesSplit(node.second, target, direction, newId, ratio);
        RemoveElsewhere(node.first, newId);
      }
    }
  }

  /** The focus then goes to the pane that followed the target, or back to the target. */
  lemma FocusAfterUndoneSplit(node: Node, target: nat, direction: Direction, newId: nat, ratio: Ratio)
    requires NoDuplicates(CollectIds(node)) && target in CollectIds(node) && newId !in CollectIds(node)
    ensures var ids, at := CollectIds(node), Position(CollectIds(node), target);
      var after := CollectIds(SplitAt(node, target, direction, newId, ratio));
      newId in after && |after| > 1
      && FocusAfterClose(after, newId) == if at + 1 < |ids| then ids[at + 1] else target
  {
    var ids, at := CollectIds(node), Position(CollectIds(node), target);
    var after := CollectIds(SplitAt(node, target, direction, newId, ratio));
    SplitIds(node, target, direction, newId, ratio);
    assert after[at + 1] == newId && after[at] == target;
    PositionIs(after, newId, at + 1);
  }

  /** Split and close, run on the layout itself, restore it; only the focus may have moved on. */
  method SplitThenClose(layout: TileLayout, direction: Direction, ratio: real, newId: nat)
    requires layout.Valid() && newId !in CollectIds(layout.root)
    modifies layout
    ensures layout.Valid() && layout.root == old(layout.root)
    ensures var ids := CollectIds(old(layout.root));
      var at := Position(ids, old(layout.focus));
      layout.focus == if at + 1 < |ids| then ids[at + 1] else old(layout.focus)
  {
    ghost var node, target := layout.root, layout.focus;
    layout.SplitFocusedWithRatio(direction, ratio, newId);
    CloseUndoesSplit(node, target, direction, newId, ClampRatio(ratio));
    FocusAfterUndoneSplit(node, target, direction, newId, ClampRatio(ratio));
    var _ := layout.CloseFocused();
  }

  lemma {:induction false} SwapTwice(node: Node, first: nat, second: nat)
    ensures SwapPaneIds(SwapPaneIds(node, first, second), first, second) == node
  {
    if node.Split? {
      SwapTwice(node.first, first, second);
      SwapTwice(node.second, first, second);
    }
  }

  /** A swap exchanges the occupants of two rectangles and moves no rectangle. */
  lemma {:induction false} SwapMovesNoRectangle(node: Node, area: Rect, first: nat, second: nat)
    ensures var before, after := CollectPanes(node, area), CollectPanes(SwapPaneIds(node, first, second), area);
      && |after| == |before|
      && forall i :: 0 <= i < |before| ==>
           after[i] == PaneInfo(SwapId(before[i].id, first, second), before[i].rect)
  {
    if node.Split? {
      var (a, b) := SplitRect(area, node.direction, node.ratio);
      SwapMovesNoRectangle(node.first, a, first, second);
      SwapMovesNoRectangle(node.second, b, first, second);
    }
  }

  // ----- navigation -----

  predicate AllPositive(panes: seq<PaneInfo>) {
    forall i :: 0 <= i < |panes| ==> panes[i].rect.width > 0 && panes[i].rect.height > 0
  }

  predicate AtAreaEdge(r: Rect, area: Rect, nav: NavDirection) {
    Edge(r, nav) == Edge(area, nav)
  }

  /** The pane shares the focused pane's edge on that side. */
  predicate Touches(r: Rect, focused: Rect, nav: NavDirection) {
    Edge(r, Opposite(nav)) == Edge(focused, nav) && RangesOverlap(r, focused, Across(Along(nav)))
  }

  /** A cell just outside the focused pane on that side, and its neighbour inside. */
  function StepOut(r: Rect, nav: NavDirection): (int, int) {
    match nav
    case Left => (r.x - 1, r.y)
    case Right => (r.x + r.width, r.y)
    case Up => (r.x, r.y - 1)
    case Down => (r.x, r.y + r.height)
  }

  lemma NeighbourTouches(panes: seq<PaneInfo>, area: Rect, k: nat, nav: NavDirection) returns (j: nat)
    requires k < |panes| && AllPositive(panes)
    requires forall x, y :: Owners(panes, x, y) == if Inside(area, x, y) then 1 else 0
    requires Within(panes[k].rect, area) && !AtAreaEdge(panes[k].rect, area, nav)
    ensures j < |panes| && j != k && Touches(panes[j].rect, panes[k].rect, nav)
  {
    var focused := panes[k].rect;
    var (x, y) := StepOut(focused, nav);
    assert Inside(area, x, y);
    j := SomeOwner(panes, x, y);
    var r := panes[j].rect;
    var (inX, inY) := match nav {
      case Left => (x + 1, y)
      case Right => (x - 1, y)
      case Up => (x, y + 1)
      case Down => (x, y - 1)
    };
    assert Inside(focused, inX, inY);
    if Inside(r, inX, inY) {
      OneOwner(panes, inX, inY, j, k);
    }
  }

  lemma TouchingIsNearest(r: PaneInfo, focused: PaneInfo, nav: NavDirection)
    requires Candidate(r, focused, nav)
    ensures EdgeDistance(r.rect, focused.rect, nav) == 0 <==> Touches(r.rect, focused.rect, nav)
  {}

  lemma NothingBeyondTheArea(panes: seq<PaneInfo>, area: Rect, k: nat, nav: NavDirection, i: nat)
    requires k < |panes| && i < |panes| && AllPositive(panes)
    requires Within(panes[i].rect, area) && AtAreaEdge(panes[k].rect, area, nav)
    ensures !Candidate(panes[i], panes[k], nav)
  {}

  /** Another pane on the focused pane's edge, with the longest stretch in common with it. */
  ghost predicate ClosestNeighbour(panes: seq<PaneInfo>, k: nat, j: nat, nav: NavDirection)
    requires k < |panes|
  {
    && j < |panes| && j != k && Touches(panes[j].rect, panes[k].rect, nav)
    && forall i :: 0 <= i < |panes| && Touches(panes[i].rect, panes[k].rect, nav) ==>
         RangeOverlapAmount(panes[i].rect, panes[k].rect, Across(Along(nav)))
         <= RangeOverlapAmount(panes[j].rect, panes[k].rect, Across(Along(nav)))
  }

  /** Navigation gives nothing exactly at the edge of the area. Elsewhere it gives a different
      pane that shares the focused pane's edge, and no pane sharing it does so over a longer stretch. */
  lemma NavigationFindsNeighbour(node: Node, area: Rect, k: nat, nav: NavDirection)
    requires NoDuplicates(CollectIds(node)) && k < |CollectPanes(node, area)|
    requires AllPositive(CollectPanes(node, area))
    ensures var panes := CollectPanes(node, area);
      var found := FindInDirection(panes[k], nav, panes);
      && (found.None? <==> AtAreaEdge(panes[k].rect, area, nav))
      && (found.Some? ==> exists j: nat :: ClosestNeighbour(panes, k, j, nav) && panes[j].id == found.value)
  {
    var panes := CollectPanes(node, area);
    PanesWithinArea(node, area);
    PaneIds(node, area);
    forall x, y ensures Owners(panes, x, y) == if Inside(area, x, y) then 1 else 0 {
      ExactTiling(node, area, x, y);
    }
    if AtAreaEdge(panes[k].rect, area, nav) {
      forall i | 0 <= i < |panes| ensures !Candidate(panes[i], panes[k], nav) {
        NothingBeyondTheArea(panes, area, k, nav, i);
      }
    } else {
      var j := NeighbourTouches(panes, area, k, nav);
      BestIsClosest(panes, k, j, nav);
    }
  }

  lemma BestIsClosest(panes: seq<PaneInfo>, k: nat, j: nat, nav: NavDirection)
    requires k < |panes| && j < |panes| && AllPositive(panes)
    requires forall a, b :: 0 <= a < b < |panes| ==> panes[a].id != panes[b].id
    requires Touches(panes[j].rect, panes[k].rect, nav)
    ensures var best := BestCandidate(panes[k], nav, panes);
      best.Some? && ClosestNeighbour(panes, k, best.value, nav)
  {
    TouchIsCandidate(panes, k, j, nav);
    var found := BestCandidate(panes[k], nav, panes).value;
    BestTouches(panes, k, j, found, nav);
    forall i | 0 <= i < |panes| && Touches(panes[i].rect, panes[k].rect, nav)
      ensures RangeOverlapAmount(panes[i].rect, panes[k].rect, Across(Along(nav)))
           <= RangeOverlapAmount(panes[found].rect, panes[k].rect, Across(Along(nav)))
    {
      TouchIsCandidate(panes, k, i, nav);
      TouchingIsNearest(panes[i], panes[k], nav);
    }
  }

  lemma TouchIsCandidate(panes: seq<PaneInfo>, k: nat, i: nat, nav: NavDirection)
    requires k < |panes| && i < |panes| && AllPositive(panes)
    requires forall a, b :: 0 <= a < b < |panes| ==> panes[a].id != panes[b].id
    requires Touches(panes[i].rect, panes[k].rect, nav)
    ensures i != k && Candidate(panes[i], panes[k], nav)
  {}

  lemma BestTouches(panes: seq<PaneInfo>, k: nat, j: nat, best: nat, nav: NavDirection)
    requires k < |panes| && j < |panes| && best < |panes|
    requires Candidate(panes[j], panes[k], nav) && Touches(panes[j].rect, panes[k].rect, nav)
    requires Candidate(panes[best], panes[k], nav) && !Better(panes[j], panes[best], panes[k], nav)
    ensures best != k && Touches(panes[best].rect, panes[k].rect, nav)
    ensures EdgeDistance(panes[best].rect, panes[k].rect, nav) == 0
  {
    TouchingIsNearest(panes[j], panes[k], nav);
    TouchingIsNearest(panes[best], panes[k], nav);
  }
}
