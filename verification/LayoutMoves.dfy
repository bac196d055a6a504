/** Where a resize moves things, what a split's ratio means in cells, what closing a pane leaves in
    place, and how navigation breaks ties. */
module LayoutMoves {
  import opened Machine
  import opened Layout
  import opened LayoutTiling
  import opened LayoutResize

  // ----- what a ratio means -----

  /** The first part of a split is the share nearest to the ratio, half cells going to it; together
      the parts fill the area. */
  lemma SplitSharesByRatio(area: Rect, d: Direction, ratio: Ratio)
    ensures var (a, b) := SplitRect(area, d, ratio);
      && Len(area, d) as real * ratio - 0.5 < Len(a, d) as real <= Len(area, d) as real * ratio + 0.5
      && Lo(a, d) == Lo(area, d) && Lo(b, d) == Hi(a, d) && Hi(b, d) == Hi(area, d)
      && Lo(a, Across(d)) == Lo(b, Across(d)) == Lo(area, Across(d))
      && Len(a, Across(d)) == Len(b, Across(d)) == Len(area, Across(d))
  {
    FloorIsNear(Len(area, d) as real * ratio + 0.5);
  }

  lemma FloorIsNear(x: real)
    ensures x - 1.0 < x.Floor as real <= x
  {}

  // ----- a pane on the side of its container -----

  /** Every split along the axis on the way down is left on that side. */
  predicate OnSide(node: Node, path: seq<bool>, nav: NavDirection)
    decreases node
  {
    path == []
    || (node.Split? && (node.direction == Along(nav) ==> path[0] == Forward(nav))
        && OnSide(if path[0] then node.second else node.first, path[1..], nav))
  }

  lemma {:induction false} SideSharesEdge(node: Node, area: Rect, path: seq<bool>, nav: NavDirection)
    requires IsPath(node, path) && OnSide(node, path, nav)
    ensures Edge(AreaAt(node, area, path), nav) == Edge(area, nav)
    decreases node
  {
    if path != [] {
      PartsOf(area, node.direction, node.ratio);
      SideSharesEdge(if path[0] then node.second else node.first,
                     ChildArea(area, node.direction, node.ratio, path[0]), path[1..], nav);
    }
  }

  lemma {:induction false} EdgeMeansSide(node: Node, area: Rect, path: seq<bool>, nav: NavDirection)
    requires AllPositive(CollectPanes(node, area)) && IsPath(node, path)
    requires Edge(AreaAt(node, area, path), nav) == Edge(area, nav)
    ensures OnSide(node, path, nav)
    decreases node
  {
    if path != [] {
      var child, part := if path[0] then node.second else node.first, ChildArea(area, node.direction, node.ratio, path[0]);
      PositiveThroughout(node, area, [path[0]]);
      PartsOf(area, node.direction, node.ratio);
      LeafWithin(child, part, path[1..]);
      assert AreaAt(node, area, path) == AreaAt(child, part, path[1..]);
      assert [path[0]][1..] == [];
      assert NodeAt(node, [path[0]]) == child && AreaAt(node, area, [path[0]]) == part;
      EdgeMeansSide(child, part, path[1..], nav);
    }
  }

  // ----- a divider that moves takes the edges on it along -----

  lemma {:induction false} RatioStandsInPlace(node: Node, area: Rect, p: seq<bool>, ratio: Ratio)
    requires IsPath(node, p) && NodeAt(node, p).Split?
    ensures var changed := SetRatioAt(node, p, ratio);
      && IsPath(changed, p) && NodeAt(changed, p) == NodeAt(node, p).(ratio := ratio)
      && AreaAt(changed, area, p) == AreaAt(node, area, p)
    decreases node
  {
    if p != [] {
      RatioStandsInPlace(if p[0] then node.second else node.first,
                         ChildArea(area, node.direction, node.ratio, p[0]), p[1..], ratio);
    }
  }

  function DividerOf(area: Rect, d: Direction, ratio: Ratio): nat {
    Hi(FirstPart(area, d, ratio), d)
  }

  function ChildOf(split: Node, second: bool): Node
    requires split.Split?
  {
    if second then split.second else split.first
  }

  lemma EdgeOfPart(area: Rect, d: Direction, ratio: Ratio, side: NavDirection)
    requires d == Along(side)
    ensures Edge(ChildArea(area, d, ratio, !Forward(side)), side) == DividerOf(area, d, ratio)
  {
    PartsOf(area, d, ratio);
  }

  lemma PaneBesideDivider(split: Node, space: Rect, rest: seq<bool>, side: NavDirection)
    requires AllPositive(CollectPanes(split, space)) && split.Split? && split.direction == Along(side)
    requires IsPath(split, rest) && rest != [] && rest[0] == !Forward(side)
    requires Edge(AreaAt(split, space, rest), side) == DividerOf(space, split.direction, split.ratio)
    ensures OnSide(ChildOf(split, rest[0]), rest[1..], side)
  {
    PositiveChild(split, space, rest[0]);
    EdgeOfPart(space, split.direction, split.ratio, side);
    EdgeMeansSide(ChildOf(split, rest[0]), ChildArea(space, split.direction, split.ratio, rest[0]), rest[1..], side);
  }

  lemma PositiveChild(split: Node, space: Rect, second: bool)
    requires AllPositive(CollectPanes(split, space)) && split.Split?
    ensures AllPositive(CollectPanes(ChildOf(split, second), ChildArea(space, split.direction, split.ratio, second)))
  {
    PositiveThroughout(split, space, [second]);
    assert [second][1..] == [] && NodeAt(split, [second]) == ChildOf(split, second);
    assert AreaAt(split, space, [second]) == ChildArea(space, split.direction, split.ratio, second);
  }

  lemma PaneStaysBesideDivider(split: Node, space: Rect, rest: seq<bool>, side: NavDirection)
    requires split.Split? && split.direction == Along(side)
    requires IsPath(split, rest) && rest != [] && rest[0] == !Forward(side)
    requires OnSide(ChildOf(split, rest[0]), rest[1..], side)
    ensures Edge(AreaAt(split, space, rest), side) == DividerOf(space, split.direction, split.ratio)
  {
    EdgeOfPart(space, split.direction, split.ratio, side);
    SideSharesEdge(ChildOf(split, rest[0]), ChildArea(space, split.direction, split.ratio, rest[0]), rest[1..], side);
  }

  /** A pane whose edge is the divider of an ancestor keeps that edge on the divider. */
  lemma EdgeFollowsDivider(node: Node, area: Rect, p: seq<bool>, q: seq<bool>, side: NavDirection, ratio: Ratio)
    requires AllPositive(CollectPanes(node, area)) && IsPath(node, q)
    requires p < q && q[|p|] == !Forward(side)
    requires IsPath(node, p) && NodeAt(node, p).Split? && NodeAt(node, p).direction == Along(side)
    requires Edge(AreaAt(node, area, q), side)
          == DividerOf(AreaAt(node, area, p), Along(side), NodeAt(node, p).ratio)
    ensures var changed := SetRatioAt(node, p, ratio);
      IsPath(changed, q) && Edge(AreaAt(changed, area, q), side) == DividerOf(AreaAt(node, area, p), Along(side), ratio)
  {
    var rest := q[|p|..];
    PathsExtend(node, area, p, q);
    PositiveThroughout(node, area, p);
    PaneBesideDivider(NodeAt(node, p), AreaAt(node, area, p), rest, side);
    RatioStandsInPlace(node, area, p, ratio);
    PathBelow(node, p, q, ratio);
    PathsExtend(SetRatioAt(node, p, ratio), area, p, q);
    PaneStaysBesideDivider(NodeAt(node, p).(ratio := ratio), AreaAt(node, area, p), rest, side);
  }

  lemma {:induction false} PathBelow(node: Node, p: seq<bool>, q: seq<bool>, ratio: Ratio)
    requires IsPath(node, q) && p <= q
    ensures IsPath(SetRatioAt(node, p, ratio), q)
    decreases node
  {
    if p != [] {
      PathBelow(if p[0] then node.second else node.first, p[1..], q[1..], ratio);
    }
  }

  // ----- resizing moves an edge -----

  /** The ratio a key press asks for: right and down add, left and up take away, within a tenth of
      either end. */
  predicate Adjusted(before: real, nav: NavDirection, delta: real, after: real) {
    var asked := match nav
      case Right => before + delta
      case Down => before + delta
      case Left => before - delta
      case Up => before - delta;
    && (0.1 <= asked <= 0.9 ==> after == asked)
    && (asked < 0.1 ==> after == 0.1)
    && (asked > 0.9 ==> after == 0.9)
  }

  lemma ResizeAdjustsFoundSplit(node: Node, area: Rect, k: nat, nav: NavDirection, delta: real, s: SplitBorder)
    returns (ratio: Ratio)
    requires NoDuplicates(CollectIds(node)) && k < |CollectPanes(node, area)|
    requires SplitToResize(node, CollectPanes(node, area)[k].rect, nav, area) == Some(s)
    requires Describes(s, node, area, s.path)
    ensures ResizeFocused(node, CollectPanes(node, area)[k].id, nav, delta, area) == SetRatioAt(node, s.path, ratio)
    ensures Adjusted(s.ratio, nav, delta, ratio)
  {
    PaneIds(node, area);
    FindPaneByIndex(CollectPanes(node, area), k);
    RatioOfNode(node, s.path);
    ratio := ClampRatio(s.ratio + (if Forward(nav) then delta else -delta));
  }

  lemma PartGainsCell(length: nat, r: Ratio, s: Ratio, delta: real)
    requires s == r + delta && delta * length as real >= 1.0
    ensures RoundPart(length, s) >= RoundPart(length, r) + 1
  {
    var x, y := length as real * r, length as real * s;
    assert y == x + delta * length as real;
    FloorMonotone(x + 0.5 + 1 as real, y + 0.5);
    FloorOfSum(x + 0.5, 1);
  }

  lemma DividerIs(area: Rect, d: Direction, ratio: Ratio)
    ensures DividerOf(area, d, ratio) == Lo(area, d) + RoundPart(Len(area, d), ratio)
  {
    PartsOf(area, d, ratio);
  }

  lemma DividerGainsCell(area: Rect, d: Direction, r: Ratio, s: Ratio, delta: real)
    requires s == r + delta && WorthACell(area, d, delta)
    ensures DividerOf(area, d, s) >= DividerOf(area, d, r) + 1
  {
    DividerIs(area, d, r);
    DividerIs(area, d, s);
    PartGainsCell(Len(area, d), r, s, delta);
  }

  /** What a resize does to the found split and to the pane's edge on it. */
  ghost predicate MovesEdge(node: Node, area: Rect, k: nat, nav: NavDirection, delta: real, side: NavDirection,
                            s: SplitBorder, ratio: Ratio) {
    var before := CollectPanes(node, area);
    k < |before| && Describes(s, node, area, s.path) && s.direction == Along(nav)
    && var changed := ResizeFocused(node, before[k].id, nav, delta, area);
       var after := CollectPanes(changed, area);
       && changed == SetRatioAt(node, s.path, ratio) && Adjusted(s.ratio, nav, delta, ratio)
       && |after| == |before| && after[k].id == before[k].id
       && Edge(before[k].rect, side) == s.pos == DividerOf(s.area, s.direction, s.ratio)
       && Edge(after[k].rect, side) == DividerOf(s.area, s.direction, ratio)
  }

  lemma FoundSplitMovesEdge(node: Node, area: Rect, k: nat, nav: NavDirection, delta: real, side: NavDirection,
                            s: SplitBorder) returns (ratio: Ratio)
    requires NoDuplicates(CollectIds(node)) && AllPositive(CollectPanes(node, area))
    requires k < |CollectIds(node)| && |CollectPanes(node, area)| == |CollectIds(node)|
    requires SplitToResize(node, CollectPanes(node, area)[k].rect, nav, area) == Some(s)
    requires Describes(s, node, area, s.path) && s.direction == Along(nav) == Along(side)
    requires s.path < PathOf(node, k) && PathOf(node, k)[|s.path|] == !Forward(side)
    requires Edge(CollectPanes(node, area)[k].rect, side) == s.pos
    ensures MovesEdge(node, area, k, nav, delta, side, s, ratio)
  {
    PaneAtPath(node, area, k);
    ratio := ResizeAdjustsFoundSplit(node, area, k, nav, delta, s);
    EdgeFollowsDivider(node, area, s.path, PathOf(node, k), side, ratio);
    RatioKeepsPaths(node, s.path, ratio, k);
    PaneAtPath(SetRatioAt(node, s.path, ratio), area, k);
    PaneIds(node, area);
    PaneIds(SetRatioAt(node, s.path, ratio), area);
  }

  /** The edge on that side lies at least a cell further out. */
  predicate MovedOut(before: Rect, after: Rect, nav: NavDirection) {
    match nav
    case Right => after.x + after.width >= before.x + before.width + 1
    case Down => after.y + after.height >= before.y + before.height + 1
    case Left => after.x + 1 <= before.x
    case Up => after.y + 1 <= before.y
  }

  lemma DividerMoves(area: Rect, d: Direction, before: Ratio, nav: NavDirection, delta: real, after: Ratio)
    requires Adjusted(before, nav, delta, after) && after != 0.1 && after != 0.9
    requires WorthACell(area, d, delta)
    ensures if nav.Right? || nav.Down? then DividerOf(area, d, after) >= DividerOf(area, d, before) + 1
            else DividerOf(area, d, after) + 1 <= DividerOf(area, d, before)
  {
    if nav.Right? || nav.Down? {
      DividerGainsCell(area, d, before, after, delta);
    } else {
      DividerGainsCell(area, d, after, before, delta);
    }
  }

  lemma EdgesMoveOut(before: Rect, after: Rect, nav: NavDirection)
    requires if nav.Right? || nav.Down? then Edge(after, nav) >= Edge(before, nav) + 1
             else Edge(after, nav) + 1 <= Edge(before, nav)
    ensures MovedOut(before, after, nav)
  {}

  predicate WorthACell(area: Rect, d: Direction, delta: real) {
    delta * Len(area, d) as real >= 1.0
  }

  /** Two rectangles with one edge on the divider before and after. */
  lemma EdgeOnDividerMovesOut(before: Rect, after: Rect, area: Rect, nav: NavDirection, side: NavDirection,
                              r: Ratio, s: Ratio, delta: real)
    requires side == nav || side == Opposite(nav)
    requires Edge(before, side) == DividerOf(area, Along(nav), r) && Edge(after, side) == DividerOf(area, Along(nav), s)
    requires Adjusted(r, nav, delta, s) && s != 0.1 && s != 0.9 && WorthACell(area, Along(nav), delta)
    ensures if side == nav then MovedOut(before, after, nav) else MovedOut(after, before, side)
  {
    DividerMoves(area, Along(nav), r, nav, delta, s);
    if side == nav {
      EdgesMoveOut(before, after, nav);
    } else {
      EdgesMoveOut(after, before, side);
    }
  }

  /** Towards an inner edge a resize adjusts exactly the ancestor whose divider is that edge, in the
      direction pressed, and the edge goes with it: outwards by at least a cell once the change is
      worth a cell of the ancestor and is not cut off at a tenth. */
  lemma ResizeMovesInnerEdge(node: Node, area: Rect, k: nat, nav: NavDirection, delta: real)
    returns (s: SplitBorder, ratio: Ratio)
    requires NoDuplicates(CollectIds(node)) && k < |CollectPanes(node, area)|
    requires AllPositive(CollectPanes(node, area))
    requires !AtAreaEdge(CollectPanes(node, area)[k].rect, area, nav)
    ensures MovesEdge(node, area, k, nav, delta, nav, s, ratio)
    ensures ratio != 0.1 && ratio != 0.9 && WorthACell(s.area, s.direction, delta) ==>
      var before := CollectPanes(node, area);
      var after := CollectPanes(ResizeFocused(node, before[k].id, nav, delta, area), area);
      MovedOut(before[k].rect, after[k].rect, nav)
  {
    PaneIds(node, area);
    PaneAtPath(node, area, k);
    var p;
    s, p := InnerEdgeSplit(node, area, PathOf(node, k), nav);
    ratio := FoundSplitMovesEdge(node, area, k, nav, delta, nav, s);
    if ratio != 0.1 && ratio != 0.9 && WorthACell(s.area, s.direction, delta) {
      var before := CollectPanes(node, area);
      EdgeOnDividerMovesOut(before[k].rect, CollectPanes(ResizeFocused(node, before[k].id, nav, delta, area), area)[k].rect,
                            s.area, nav, nav, s.ratio, ratio, delta);
    }
  }

  /** At the edge of the area a resize moves the opposite edge in the direction pressed instead, and
      does nothing only if the pane spans the area. */
  lemma ResizeMovesOppositeEdge(node: Node, area: Rect, k: nat, nav: NavDirection, delta: real)
    returns (s: SplitBorder, ratio: Ratio)
    requires NoDuplicates(CollectIds(node)) && k < |CollectPanes(node, area)|
    requires AllPositive(CollectPanes(node, area))
    requires AtAreaEdge(CollectPanes(node, area)[k].rect, area, nav)
    requires !AtAreaEdge(CollectPanes(node, area)[k].rect, area, Opposite(nav))
    ensures MovesEdge(node, area, k, nav, delta, Opposite(nav), s, ratio)
    ensures ratio != 0.1 && ratio != 0.9 && WorthACell(s.area, s.direction, delta) ==>
      var before := CollectPanes(node, area);
      var after := CollectPanes(ResizeFocused(node, before[k].id, nav, delta, area), area);
      MovedOut(after[k].rect, before[k].rect, Opposite(nav))
  {
    PaneIds(node, area);
    PaneAtPath(node, area, k);
    s := SplitForOppositeEdge(node, area, PathOf(node, k), nav);
    ratio := FoundSplitMovesEdge(node, area, k, nav, delta, Opposite(nav), s);
    if ratio != 0.1 && ratio != 0.9 && WorthACell(s.area, s.direction, delta) {
      var before := CollectPanes(node, area);
      EdgeOnDividerMovesOut(before[k].rect, CollectPanes(ResizeFocused(node, before[k].id, nav, delta, area), area)[k].rect,
                            s.area, nav, Opposite(nav), s.ratio, ratio, delta);
    }
  }

  lemma SplitForOppositeEdge(node: Node, area: Rect, q: seq<bool>, nav: NavDirection) returns (s: SplitBorder)
    requires AllPositive(CollectPanes(node, area)) && IsPath(node, q) && NodeAt(node, q).Pane?
    requires AtAreaEdge(AreaAt(node, area, q), area, nav) && !AtAreaEdge(AreaAt(node, area, q), area, Opposite(nav))
    ensures SplitToResize(node, AreaAt(node, area, q), nav, area) == Some(s)
    ensures Describes(s, node, area, s.path) && s.direction == Along(nav)
    ensures s.pos == Edge(AreaAt(node, area, q), Opposite(nav)) && s.path < q && q[|s.path|] == Forward(nav)
  {
    var found, o := InnerEdgeSplit(node, area, q, Opposite(nav));
    var p := OuterEdgeSplit(node, area, q, nav);
    s := SplitToResize(node, AreaAt(node, area, q), nav, area).value;
  }

  /** A pane that spans the area along the axis is not resized, nor is anything else. */
  lemma SpanningPaneIsNotResized(node: Node, area: Rect, k: nat, nav: NavDirection, delta: real)
    requires NoDuplicates(CollectIds(node)) && k < |CollectPanes(node, area)|
    requires AllPositive(CollectPanes(node, area))
    requires AtAreaEdge(CollectPanes(node, area)[k].rect, area, nav)
    requires AtAreaEdge(CollectPanes(node, area)[k].rect, area, Opposite(nav))
    ensures ResizeFocused(node, CollectPanes(node, area)[k].id, nav, delta, area) == node
  {
    PaneIds(node, area);
    PaneAtPath(node, area, k);
    SpanningPaneHasNoSplit(node, area, PathOf(node, k), nav);
    FindPaneByIndex(CollectPanes(node, area), k);
  }

  lemma SpanningPaneHasNoSplit(node: Node, area: Rect, q: seq<bool>, nav: NavDirection)
    requires AllPositive(CollectPanes(node, area)) && IsPath(node, q) && NodeAt(node, q).Pane?
    requires AtAreaEdge(AreaAt(node, area, q), area, nav) && AtAreaEdge(AreaAt(node, area, q), area, Opposite(nav))
    ensures SplitToResize(node, AreaAt(node, area, q), nav, area).None?
  {
    var splits, leaf := CollectSplits(node, area, []), AreaAt(node, area, q);
    if NearestResizeSplit(splits, leaf, nav).Some? {
      var _ := SplitFoundAtAreaEdge(node, area, q, nav, NearestResizeSplit(splits, leaf, nav).value);
    } else if NearestResizeSplit(splits, leaf, Opposite(nav)).Some? {
      var _ := SplitFoundAtAreaEdge(node, area, q, Opposite(nav), NearestResizeSplit(splits, leaf, Opposite(nav)).value);
    }
  }

  // ----- closing a pane -----

  function Replaced(node: Node, p: seq<bool>, sub: Node): Node
    requires IsPath(node, p)
    decreases node
  {
    if p == [] then sub
    else if p[0] then node.(second := Replaced(node.second, p[1..], sub))
    else node.(first := Replaced(node.first, p[1..], sub))
  }

  predicate Parents(node: Node, target: nat, sibling: Node) {
    node.Split? && ((node.first == Pane(target) && node.second == sibling)
                    || (node.second == Pane(target) && node.first == sibling))
  }

  /** Closing a pane puts its sibling, as it is, in the place of their parent, and changes nothing
      else in the tree. */
  lemma {:induction false} CloseLeavesSibling(node: Node, target: nat) returns (p: seq<bool>, sibling: Node)
    requires NoDuplicates(CollectIds(node)) && target in CollectIds(node) && node.Split?
    ensures IsPath(node, p) && Parents(NodeAt(node, p), target, sibling)
    ensures RemovePane(node, target) == Some(Replaced(node, p, sibling))
    decreases node
  {
    UniqueParts(node, target);
    var inFirst := target in CollectIds(node.first);
    var child, other := if inFirst then node.first else node.second, if inFirst then node.second else node.first;
    RemoveElsewhere(other, target);
    if child.Pane? {
      assert child == Pane(target);
      p, sibling := [], other;
    } else {
      var rest;
      rest, sibling := CloseLeavesSibling(child, target);
      p := [!inFirst] + rest;
      assert p[1..] == rest;
    }
  }

  lemma UniqueParts(node: Node, target: nat)
    requires NoDuplicates(CollectIds(node)) && node.Split? && target in CollectIds(node)
    ensures NoDuplicates(CollectIds(node.first)) && NoDuplicates(CollectIds(node.second))
    ensures target in CollectIds(node.first) <==> target !in CollectIds(node.second)
  {
    var a, b := CollectIds(node.first), CollectIds(node.second);
    assert forall i :: 0 <= i < |a| ==> (a + b)[i] == a[i];
    assert forall i :: 0 <= i < |b| ==> (a + b)[|a| + i] == b[i];
  }

  lemma {:induction false} ReplacedPanes(node: Node, area: Rect, p: seq<bool>, sub: Node)
    returns (before: seq<PaneInfo>, after: seq<PaneInfo>)
    requires IsPath(node, p)
    ensures CollectPanes(node, area) == before + CollectPanes(NodeAt(node, p), AreaAt(node, area, p)) + after
    ensures CollectPanes(Replaced(node, p, sub), area) == before + CollectPanes(sub, AreaAt(node, area, p)) + after
    decreases node
  {
    before, after := [], [];
    if p != [] {
      var (a, b) := SplitRect(area, node.direction, node.ratio);
      if p[0] {
        before, after := ReplacedPanes(node.second, b, p[1..], sub);
        Prefixed(CollectPanes(node.first, a), before, CollectPanes(NodeAt(node, p), AreaAt(node, area, p)), after);
        Prefixed(CollectPanes(node.first, a), before, CollectPanes(sub, AreaAt(node, area, p)), after);
        before := CollectPanes(node.first, a) + before;
      } else {
        before, after := ReplacedPanes(node.first, a, p[1..], sub);
        Suffixed(before, CollectPanes(NodeAt(node, p), AreaAt(node, area, p)), after, CollectPanes(node.second, b));
        Suffixed(before, CollectPanes(sub, AreaAt(node, area, p)), after, CollectPanes(node.second, b));
        after := after + CollectPanes(node.second, b);
      }
    }
  }

  lemma Prefixed(x: seq<PaneInfo>, a: seq<PaneInfo>, b: seq<PaneInfo>, c: seq<PaneInfo>)
    ensures x + (a + b + c) == x + a + b + c
  {}

  lemma Suffixed(a: seq<PaneInfo>, b: seq<PaneInfo>, c: seq<PaneInfo>, x: seq<PaneInfo>)
    ensures a + b + c + x == a + b + (c + x)
  {}

  /** On screen the sibling's panes spread over the space of both, and no other pane moves. */
  lemma CloseGivesSpaceToSibling(node: Node, area: Rect, target: nat)
    returns (before: seq<PaneInfo>, parent: Node, sibling: Node, space: Rect, after: seq<PaneInfo>)
    requires NoDuplicates(CollectIds(node)) && target in CollectIds(node) && node.Split?
    ensures Parents(parent, target, sibling) && RemovePane(node, target).Some?
    ensures CollectPanes(node, area) == before + CollectPanes(parent, space) + after
    ensures CollectPanes(RemovePane(node, target).value, area) == before + CollectPanes(sibling, space) + after
  {
    var p;
    p, sibling := CloseLeavesSibling(node, target);
    parent, space := NodeAt(node, p), AreaAt(node, area, p);
    before, after := ReplacedPanes(node, area, p, sibling);
  }

  // ----- ties in navigation -----

  lemma BetterThanNoBetter(a: PaneInfo, b: PaneInfo, c: PaneInfo, focused: PaneInfo, nav: NavDirection)
    requires Better(a, b, focused, nav) && !Better(c, b, focused, nav)
    ensures Better(a, c, focused, nav)
  {}

  lemma BetterTransitive(a: PaneInfo, b: PaneInfo, c: PaneInfo, focused: PaneInfo, nav: NavDirection)
    requires Better(a, b, focused, nav) && Better(b, c, focused, nav)
    ensures Better(a, c, focused, nav)
  {}

  /** Earlier candidates are worse than the one chosen, not just no better. */
  lemma {:induction false} BestIsEarliest(focused: PaneInfo, nav: NavDirection, panes: seq<PaneInfo>, i: nat)
    requires BestCandidate(focused, nav, panes).Some? && i < BestCandidate(focused, nav, panes).value
    requires Candidate(panes[i], focused, nav)
    ensures Better(panes[BestCandidate(focused, nav, panes).value], panes[i], focused, nav)
  {
    var n := |panes| - 1;
    var before := BestCandidate(focused, nav, panes[..n]);
    assert panes[..n][i] == panes[i];
    var best := BestCandidate(focused, nav, panes).value;
    if best < n {
      BestIsEarliest(focused, nav, panes[..n], i);
    } else {
      var b := before.value;
      if i < b {
        BestIsEarliest(focused, nav, panes[..n], i);
        BetterTransitive(panes[n], panes[b], panes[i], focused, nav);
      } else if i > b {
        BetterThanNoBetter(panes[n], panes[b], panes[i], focused, nav);
      }
    }
  }

  /** The neighbour chosen: longest stretch in common, then nearest centre across, then first. */
  ghost predicate ChosenNeighbour(panes: seq<PaneInfo>, k: nat, j: nat, nav: NavDirection)
    requires k < |panes|
  {
    var across := Across(Along(nav));
    && ClosestNeighbour(panes, k, j, nav)
    && forall i :: 0 <= i < |panes| && i != j && Touches(panes[i].rect, panes[k].rect, nav)
                   && RangeOverlapAmount(panes[i].rect, panes[k].rect, across)
                      == RangeOverlapAmount(panes[j].rect, panes[k].rect, across)
         ==> var apartI, apartJ := CenterDistance(panes[i].rect, panes[k].rect, across),
                                   CenterDistance(panes[j].rect, panes[k].rect, across);
             apartJ < apartI || (apartJ == apartI && j < i)
  }

  lemma TieIsBroken(panes: seq<PaneInfo>, k: nat, j: nat, i: nat, nav: NavDirection)
    requires k < |panes| && AllPositive(panes)
    requires forall a, b :: 0 <= a < b < |panes| ==> panes[a].id != panes[b].id
    requires BestCandidate(panes[k], nav, panes) == Some(j) && Touches(panes[j].rect, panes[k].rect, nav)
    requires i < |panes| && i != j && Touches(panes[i].rect, panes[k].rect, nav)
    requires RangeOverlapAmount(panes[i].rect, panes[k].rect, Across(Along(nav)))
          == RangeOverlapAmount(panes[j].rect, panes[k].rect, Across(Along(nav)))
    ensures var apartI, apartJ := CenterDistance(panes[i].rect, panes[k].rect, Across(Along(nav))),
                                  CenterDistance(panes[j].rect, panes[k].rect, Across(Along(nav)));
      apartJ < apartI || (apartJ == apartI && j < i)
  {
    TouchIsCandidate(panes, k, i, nav);
    TouchingIsNearest(panes[i], panes[k], nav);
    TouchingIsNearest(panes[j], panes[k], nav);
    if i < j {
      BestIsEarliest(panes[k], nav, panes, i);
    }
  }

  /** Navigation finds exactly the chosen neighbour. */
  lemma NavigationBreaksTies(node: Node, area: Rect, k: nat, nav: NavDirection) returns (j: nat)
    requires NoDuplicates(CollectIds(node)) && k < |CollectPanes(node, area)|
    requires AllPositive(CollectPanes(node, area)) && !AtAreaEdge(CollectPanes(node, area)[k].rect, area, nav)
    ensures var panes := CollectPanes(node, area);
      ChosenNeighbour(panes, k, j, nav) && FindInDirection(panes[k], nav, panes) == Some(panes[j].id)
  {
    var panes := CollectPanes(node, area);
    PaneIds(node, area);
    NavigationFindsNeighbour(node, area, k, nav);
    j := BestCandidate(panes[k], nav, panes).value;
    var closest: nat :| ClosestNeighbour(panes, k, closest, nav)
                        && panes[closest].id == FindInDirection(panes[k], nav, panes).value;
    assert closest == j;
    forall i | 0 <= i < |panes| && i != j && Touches(panes[i].rect, panes[k].rect, nav)
               && RangeOverlapAmount(panes[i].rect, panes[k].rect, Across(Along(nav)))
                  == RangeOverlapAmount(panes[j].rect, panes[k].rect, Across(Along(nav)))
      ensures var apartI, apartJ := CenterDistance(panes[i].rect, panes[k].rect, Across(Along(nav))),
                                    CenterDistance(panes[j].rect, panes[k].rect, Across(Along(nav)));
        apartJ < apartI || (apartJ == apartI && j < i)
    {
      TieIsBroken(panes, k, j, i, nav);
    }
  }

  /** Distances between centres are exact, in half cells, in areas of up to 32767 cells. */
  lemma CentersAreExact(a: Rect, b: Rect, d: Direction)
    requires 2 * Hi(a, d) <= U16_MAX && 2 * Hi(b, d) <= U16_MAX
    ensures var x, y := Lo(a, d) + Hi(a, d), Lo(b, d) + Hi(b, d);
      CenterDistance(a, b, d) == if x >= y then x - y else y - x
  {}
}
