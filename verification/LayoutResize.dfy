/** What resizing does to the focused pane: towards an inner edge it never shrinks, towards the
    edge of the area it never grows, through any depth of nested rounding. */
module LayoutResize {
  import opened Machine
  import opened Layout
  import opened LayoutTiling

  // ----- rounding -----

  lemma ScaleMonotone(a: nat, b: nat, ratio: Ratio)
    requires a <= b
    ensures 0.0 <= b as real * ratio - a as real * ratio <= (b - a) as real
  {
    assert b as real * ratio - a as real * ratio == (b - a) as real * ratio;
    ScaledBounds(b - a, ratio);
  }

  lemma ScaleInRatio(length: nat, r: Ratio, s: Ratio)
    requires r <= s
    ensures length as real * r <= length as real * s
  {}

  lemma FloorMonotone(x: real, y: real)
    requires x <= y
    ensures x.Floor <= y.Floor
  {}

  lemma FloorOfSum(x: real, n: int)
    ensures (x + n as real).Floor == x.Floor + n
  {}

  /** Both parts of a longer stretch are at least as long as those of a shorter one. */
  lemma PartsGrowWithLength(a: nat, b: nat, ratio: Ratio)
    requires a <= b
    ensures RoundPart(a, ratio) <= RoundPart(b, ratio)
    ensures a - RoundPart(a, ratio) <= b - RoundPart(b, ratio)
  {
    ScaleMonotone(a, b, ratio);
    var x, y := a as real * ratio + 0.5, b as real * ratio + 0.5;
    FloorMonotone(x, y);
    FloorMonotone(y, x + (b - a) as real);
    FloorOfSum(x, b - a);
  }

  lemma PartGrowsWithRatio(length: nat, r: Ratio, s: Ratio)
    requires r <= s
    ensures RoundPart(length, r) <= RoundPart(length, s)
  {
    ScaleInRatio(length, r, s);
    var x, y := length as real * r, length as real * s;
    assert x + 0.5 <= y + 0.5;
    FloorMonotone(x + 0.5, y + 0.5);
  }

  // ----- one split, either axis -----

  function FirstPart(area: Rect, d: Direction, ratio: Ratio): Rect {
    SplitRect(area, d, ratio).0
  }

  function SecondPart(area: Rect, d: Direction, ratio: Ratio): Rect {
    SplitRect(area, d, ratio).1
  }

  function ChildArea(area: Rect, d: Direction, ratio: Ratio, second: bool): Rect {
    if second then SecondPart(area, d, ratio) else FirstPart(area, d, ratio)
  }

  lemma PartsOf(area: Rect, d: Direction, ratio: Ratio)
    ensures var a, b := FirstPart(area, d, ratio), SecondPart(area, d, ratio);
      && Len(a, d) == RoundPart(Len(area, d), ratio)
      && Lo(a, d) == Lo(area, d) && Hi(a, d) == Lo(b, d) && Hi(b, d) == Hi(area, d)
      && Lo(a, Across(d)) == Lo(b, Across(d)) == Lo(area, Across(d))
      && Len(a, Across(d)) == Len(b, Across(d)) == Len(area, Across(d))
  {}

  /** The second rectangle is at least as long along `d` and the same across. */
  predicate AtLeast(r: Rect, s: Rect, d: Direction) {
    Len(r, d) <= Len(s, d) && Lo(r, Across(d)) == Lo(s, Across(d)) && Len(r, Across(d)) == Len(s, Across(d))
  }

  lemma ChildrenGrowWithArea(r: Rect, s: Rect, along: Direction, d: Direction, ratio: Ratio, second: bool)
    requires AtLeast(r, s, along)
    ensures AtLeast(ChildArea(r, d, ratio, second), ChildArea(s, d, ratio, second), along)
  {
    PartsGrowWithLength(Len(r, along), Len(s, along), ratio);
  }

  lemma ChildrenGrowWithRatio(area: Rect, d: Direction, r: Ratio, s: Ratio)
    requires r <= s
    ensures AtLeast(FirstPart(area, d, r), FirstPart(area, d, s), d)
    ensures AtLeast(SecondPart(area, d, s), SecondPart(area, d, r), d)
  {
    PartGrowsWithRatio(Len(area, d), r, s);
  }

  // ----- positions in the tree -----

  predicate IsPath(node: Node, path: seq<bool>)
    decreases node
  {
    path == [] || (node.Split? && IsPath(if path[0] then node.second else node.first, path[1..]))
  }

  function NodeAt(node: Node, path: seq<bool>): Node
    requires IsPath(node, path)
    decreases node
  {
    if path == [] then node else NodeAt(if path[0] then node.second else node.first, path[1..])
  }

  function AreaAt(node: Node, area: Rect, path: seq<bool>): Rect
    requires IsPath(node, path)
    decreases node
  {
    if path == [] then area
    else AreaAt(if path[0] then node.second else node.first,
                ChildArea(area, node.direction, node.ratio, path[0]), path[1..])
  }

  /** A leaf is at least as large as before when its container is. */
  lemma {:induction false} LeafGrowsWithArea(node: Node, r: Rect, s: Rect, path: seq<bool>, along: Direction)
    requires IsPath(node, path) && AtLeast(r, s, along)
    ensures AtLeast(AreaAt(node, r, path), AreaAt(node, s, path), along)
    decreases node
  {
    if path != [] {
      ChildrenGrowWithArea(r, s, along, node.direction, node.ratio, path[0]);
      LeafGrowsWithArea(if path[0] then node.second else node.first,
                        ChildArea(r, node.direction, node.ratio, path[0]),
                        ChildArea(s, node.direction, node.ratio, path[0]), path[1..], along);
    }
  }

  /** Changing the ratio of an ancestor, in the leaf's favour, never shrinks the leaf along the
      split's own axis and changes nothing across it. */
  lemma {:induction false} LeafGrowsWithRatio(node: Node, area: Rect, p: seq<bool>, q: seq<bool>, ratio: Ratio)
    requires IsPath(node, q) && p < q && NodeAt(node, q).Pane?
    requires IsPath(node, p) && NodeAt(node, p).Split?
    ensures IsPath(SetRatioAt(node, p, ratio), q)
    ensures NodeAt(SetRatioAt(node, p, ratio), q) == NodeAt(node, q)
    ensures var split := NodeAt(node, p);
      var before, after := AreaAt(node, area, q), AreaAt(SetRatioAt(node, p, ratio), area, q);
      && ((if q[|p|] then ratio <= split.ratio else split.ratio <= ratio) ==> AtLeast(before, after, split.direction))
      && ((if q[|p|] then split.ratio <= ratio else ratio <= split.ratio) ==> AtLeast(after, before, split.direction))
    decreases node
  {
    if p == [] {
      var child := if q[0] then node.second else node.first;
      var d := node.direction;
      var r, s := ChildArea(area, d, node.ratio, q[0]), ChildArea(area, d, ratio, q[0]);
      if node.ratio <= ratio {
        ChildrenGrowWithRatio(area, d, node.ratio, ratio);
      }
      if ratio <= node.ratio {
        ChildrenGrowWithRatio(area, d, ratio, node.ratio);
      }
      if AtLeast(r, s, d) {
        LeafGrowsWithArea(child, r, s, q[1..], d);
      }
      if AtLeast(s, r, d) {
        LeafGrowsWithArea(child, s, r, q[1..], d);
      }
    } else {
      assert p[0] == q[0];
      LeafGrowsWithRatio(if p[0] then node.second else node.first,
                         ChildArea(area, node.direction, node.ratio, p[0]), p[1..], q[1..], ratio);
    }
  }

  // ----- which split is found -----

  /** The listed split is the node at that path, described where it stands. */
  predicate Describes(s: SplitBorder, node: Node, area: Rect, p: seq<bool>) {
    && IsPath(node, p) && NodeAt(node, p).Split?
    && s.direction == NodeAt(node, p).direction && s.ratio == NodeAt(node, p).ratio
    && s.area == AreaAt(node, area, p)
    && s.pos == Hi(FirstPart(s.area, s.direction, s.ratio), s.direction)
  }

  lemma DescribesFromChild(s: SplitBorder, node: Node, area: Rect, prefix: seq<bool>, second: bool, p: seq<bool>)
    requires node.Split? && s.path == prefix + [second] + p
    requires Describes(s, if second then node.second else node.first, ChildArea(area, node.direction, node.ratio, second), p)
    ensures s.path == prefix + ([second] + p) && Describes(s, node, area, [second] + p)
  {
    assert ([second] + p)[1..] == p;
  }

  lemma SplitsOfNode(node: Node, area: Rect, prefix: seq<bool>, s: SplitBorder)
    requires s in CollectSplits(node, area, prefix)
    ensures node.Split?
    ensures || s == SplitBorder(Hi(FirstPart(area, node.direction, node.ratio), node.direction),
                                node.direction, node.ratio, area, prefix)
            || s in CollectSplits(node.first, FirstPart(area, node.direction, node.ratio), prefix + [false])
            || s in CollectSplits(node.second, SecondPart(area, node.direction, node.ratio), prefix + [true])
  {}

  lemma {:induction false} SplitsDescribe(node: Node, area: Rect, prefix: seq<bool>, s: SplitBorder) returns (p: seq<bool>)
    requires s in CollectSplits(node, area, prefix)
    ensures s.path == prefix + p && Describes(s, node, area, p)
    decreases node
  {
    SplitsOfNode(node, area, prefix, s);
    var a, b := FirstPart(area, node.direction, node.ratio), SecondPart(area, node.direction, node.ratio);
    if s in CollectSplits(node.first, a, prefix + [false]) {
      var rest := SplitsDescribe(node.first, a, prefix + [false], s);
      DescribesFromChild(s, node, area, prefix, false, rest);
      p := [false] + rest;
    } else if s in CollectSplits(node.second, b, prefix + [true]) {
      var rest := SplitsDescribe(node.second, b, prefix + [true], s);
      DescribesFromChild(s, node, area, prefix, true, rest);
      p := [true] + rest;
    } else {
      RootSplitDescribes(s, node, area, prefix);
      p := [];
    }
  }

  lemma RootSplitDescribes(s: SplitBorder, node: Node, area: Rect, prefix: seq<bool>)
    requires node.Split?
    requires s == SplitBorder(Hi(FirstPart(area, node.direction, node.ratio), node.direction),
                              node.direction, node.ratio, area, prefix)
    ensures s.path == prefix + [] && Describes(s, node, area, [])
  {}

  /** Every inner edge of a pane is the divider of a split that the pane lies under. */
  lemma {:induction false} InnerEdgeIsDivider(node: Node, area: Rect, prefix: seq<bool>, q: seq<bool>, nav: NavDirection)
    returns (s: SplitBorder)
    requires IsPath(node, q) && !AtAreaEdge(AreaAt(node, area, q), area, nav)
    ensures s in CollectSplits(node, area, prefix) && s.direction == Along(nav)
    ensures s.pos == Edge(AreaAt(node, area, q), nav)
    ensures Lo(s.area, Across(Along(nav))) <= Lo(AreaAt(node, area, q), Across(Along(nav)))
         && Hi(AreaAt(node, area, q), Across(Along(nav))) <= Hi(s.area, Across(Along(nav)))
    decreases node
  {
    var leaf := AreaAt(node, area, q);
    var d := node.direction;
    var child := if q[0] then node.second else node.first;
    var part := ChildArea(area, d, node.ratio, q[0]);
    PartsOf(area, d, node.ratio);
    LeafWithin(node, area, q);
    if !AtAreaEdge(leaf, part, nav) {
      s := InnerEdgeIsDivider(child, part, prefix + [q[0]], q[1..], nav);
    } else {
      s := SplitBorder(Hi(FirstPart(area, d, node.ratio), d), d, node.ratio, area, prefix);
    }
  }

  lemma {:induction false} LeafWithin(node: Node, area: Rect, q: seq<bool>)
    requires IsPath(node, q)
    ensures Within(AreaAt(node, area, q), area)
    decreases node
  {
    if q != [] {
      LeafWithin(if q[0] then node.second else node.first,
                 ChildArea(area, node.direction, node.ratio, q[0]), q[1..]);
    }
  }

  /** Two places in the tree whose rectangles share a cell lie one under the other. */
  lemma {:induction false} SharedCellMeansAncestor(node: Node, area: Rect, p: seq<bool>, q: seq<bool>, x: int, y: int)
    requires IsPath(node, p) && IsPath(node, q)
    requires Inside(AreaAt(node, area, p), x, y) && Inside(AreaAt(node, area, q), x, y)
    ensures p <= q || q <= p
    decreases node
  {
    if p != [] && q != [] {
      var inP := ChildArea(area, node.direction, node.ratio, p[0]);
      var inQ := ChildArea(area, node.direction, node.ratio, q[0]);
      LeafWithin(if p[0] then node.second else node.first, inP, p[1..]);
      LeafWithin(if q[0] then node.second else node.first, inQ, q[1..]);
      assert Inside(inP, x, y) && Inside(inQ, x, y);
      PartsOf(area, node.direction, node.ratio);
      if p[0] == q[0] {
        SharedCellMeansAncestor(if p[0] then node.second else node.first, inP, p[1..], q[1..], x, y);
      }
    }
  }

  lemma {:induction false} PathsExtend(node: Node, area: Rect, p: seq<bool>, q: seq<bool>)
    requires IsPath(node, q) && p <= q
    ensures IsPath(node, p) && IsPath(NodeAt(node, p), q[|p|..])
    ensures NodeAt(NodeAt(node, p), q[|p|..]) == NodeAt(node, q)
    ensures AreaAt(NodeAt(node, p), AreaAt(node, area, p), q[|p|..]) == AreaAt(node, area, q)
    decreases node
  {
    if p == [] {
      assert q[0..] == q;
    } else {
      PathsExtend(if p[0] then node.second else node.first,
                  ChildArea(area, node.direction, node.ratio, p[0]), p[1..], q[1..]);
      assert q[1..][|p| - 1..] == q[|p|..];
    }
  }


  // ----- panes by path -----

  function PathOf(node: Node, k: nat): seq<bool>
    requires k < |CollectIds(node)|
  {
    if node.Pane? then []
    else
      var n := |CollectIds(node.first)|;
      if k < n then [false] + PathOf(node.first, k) else [true] + PathOf(node.second, k - n)
  }

  lemma {:induction false} PaneAtPath(node: Node, area: Rect, k: nat)
    requires k < |CollectIds(node)|
    ensures |CollectPanes(node, area)| == |CollectIds(node)|
    ensures IsPath(node, PathOf(node, k)) && NodeAt(node, PathOf(node, k)) == Pane(CollectPanes(node, area)[k].id)
    ensures AreaAt(node, area, PathOf(node, k)) == CollectPanes(node, area)[k].rect
    decreases node
  {
    PaneIds(node, area);
    if node.Split? {
      var n := |CollectIds(node.first)|;
      var (a, b) := SplitRect(area, node.direction, node.ratio);
      PaneIds(node.first, a);
      if k < n {
        PaneAtPath(node.first, a, k);
        assert PathOf(node, k)[1..] == PathOf(node.first, k);
      } else {
        PaneAtPath(node.second, b, k - n);
        assert PathOf(node, k)[1..] == PathOf(node.second, k - n);
      }
    }
  }

  lemma {:induction false} RatioKeepsPaths(node: Node, p: seq<bool>, ratio: Ratio, k: nat)
    requires k < |CollectIds(node)|
    ensures CollectIds(SetRatioAt(node, p, ratio)) == CollectIds(node)
    ensures PathOf(SetRatioAt(node, p, ratio), k) == PathOf(node, k)
    decreases node
  {
    RatioKeepsIds(node, p, ratio);
    if node.Split? && p != [] {
      var n := |CollectIds(node.first)|;
      if p[0] {
        RatioKeepsIds(node.second, p[1..], ratio);
        if k >= n {
          RatioKeepsPaths(node.second, p[1..], ratio, k - n);
        }
      } else {
        RatioKeepsIds(node.first, p[1..], ratio);
        if k < n {
          RatioKeepsPaths(node.first, p[1..], ratio, k);
        }
      }
    }
  }

  lemma {:induction false} RatioOfNode(node: Node, p: seq<bool>)
    requires IsPath(node, p) && NodeAt(node, p).Split?
    ensures GetRatioAt(node, p) == Some(NodeAt(node, p).ratio)
    decreases node
  {
    if p != [] {
      RatioOfNode(if p[0] then node.second else node.first, p[1..]);
    }
  }

  lemma {:induction false} FindPaneByIndex(panes: seq<PaneInfo>, k: nat)
    requires k < |panes| && forall i :: 0 <= i < k ==> panes[i].id != panes[k].id
    ensures FindPane(panes, panes[k].id) == Some(panes[k].rect)
  {
    if k > 0 {
      FindPaneByIndex(panes[1..], k - 1);
    }
  }

  predicate Positive(r: Rect) {
    r.width > 0 && r.height > 0
  }

  /** When every pane is positive, so is every rectangle of the tree. */
  lemma {:induction false} PositiveThroughout(node: Node, area: Rect, p: seq<bool>)
    requires AllPositive(CollectPanes(node, area)) && IsPath(node, p)
    ensures Positive(area) && Positive(AreaAt(node, area, p))
    ensures node.Split? ==> Positive(FirstPart(area, node.direction, node.ratio))
    ensures node.Split? ==> Positive(SecondPart(area, node.direction, node.ratio))
    ensures AllPositive(CollectPanes(NodeAt(node, p), AreaAt(node, area, p)))
    decreases node
  {
    if node.Split? {
      var (a, b) := SplitRect(area, node.direction, node.ratio);
      var left, right := CollectPanes(node.first, a), CollectPanes(node.second, b);
      assert AllPositive(left) by {
        assert forall i :: 0 <= i < |left| ==> left[i] == (left + right)[i];
      }
      assert AllPositive(right) by {
        assert forall i :: 0 <= i < |right| ==> right[i] == (left + right)[|left| + i];
      }
      PositiveThroughout(node.first, a, if p != [] && !p[0] then p[1..] else []);
      PositiveThroughout(node.second, b, if p != [] && p[0] then p[1..] else []);
    } else {
      assert CollectPanes(node, area)[0].rect == area;
    }
  }

  // ----- dividers that touch a pane -----

  /** A divider that meets a pane's extent, under a split that overlaps the pane across, is one of
      the pane's own edges, and the split is an ancestor with the pane on the matching side. */
  lemma TouchingDividerIsEdge(node: Node, area: Rect, s: SplitBorder, p: seq<bool>, q: seq<bool>)
    requires AllPositive(CollectPanes(node, area))
    requires Describes(s, node, area, p) && IsPath(node, q) && NodeAt(node, q).Pane?
    requires var leaf := AreaAt(node, area, q);
      RangesOverlap(s.area, leaf, Across(s.direction))
      && Lo(leaf, s.direction) <= s.pos <= Hi(leaf, s.direction)
    ensures p < q
    ensures s.pos == if q[|p|] then Lo(AreaAt(node, area, q), s.direction) else Hi(AreaAt(node, area, q), s.direction)
  {
    var leaf, d := AreaAt(node, area, q), s.direction;
    PositiveThroughout(node, area, q);
    PositiveThroughout(node, area, p);
    PositiveThroughout(NodeAt(node, p), s.area, []);
    PartsOf(s.area, d, s.ratio);
    var along := if s.pos == Hi(leaf, d) then s.pos - 1 else s.pos;
    var across := Max(Lo(leaf, Across(d)), Lo(s.area, Across(d)));
    var x, y := if d.Horizontal? then along else across, if d.Horizontal? then across else along;
    assert Inside(leaf, x, y) && Inside(s.area, x, y);
    SharedCellMeansAncestor(node, area, p, q, x, y);
    if q <= p {
      PathsExtend(node, area, q, p);
    }
    PathsExtend(node, area, p, q);
    var rest := q[|p|..];
    var side := ChildArea(s.area, d, s.ratio, rest[0]);
    LeafWithin(if rest[0] then NodeAt(node, p).second else NodeAt(node, p).first, side, rest[1..]);
    assert Within(leaf, side);
  }

  /** A listed split and an edge it lies on: its place in the tree. */
  lemma DividerStaysInside(node: Node, area: Rect, s: SplitBorder, p: seq<bool>)
    requires AllPositive(CollectPanes(node, area)) && Describes(s, node, area, p)
    ensures Lo(area, s.direction) < s.pos < Hi(area, s.direction)
  {
    PositiveThroughout(node, area, p);
    PositiveThroughout(NodeAt(node, p), s.area, []);
    PartsOf(s.area, s.direction, s.ratio);
    LeafWithin(node, area, p);
  }

  /** The split found for an inner edge is the ancestor whose divider is that edge. */
  lemma InnerEdgeSplit(node: Node, area: Rect, q: seq<bool>, nav: NavDirection) returns (s: SplitBorder, p: seq<bool>)
    requires AllPositive(CollectPanes(node, area)) && IsPath(node, q) && NodeAt(node, q).Pane?
    requires !AtAreaEdge(AreaAt(node, area, q), area, nav)
    ensures NearestResizeSplit(CollectSplits(node, area, []), AreaAt(node, area, q), nav) == Some(s)
    ensures s.path == p && Describes(s, node, area, p) && s.direction == Along(nav)
    ensures s.pos == Edge(AreaAt(node, area, q), nav)
    ensures p < q && q[|p|] == !Forward(nav)
  {
    var leaf := AreaAt(node, area, q);
    PositiveThroughout(node, area, q);
    var own := InnerEdgeIsDivider(node, area, [], q, nav);
    assert ResizeCandidate(own, leaf, nav);
    s := NearestResizeSplit(CollectSplits(node, area, []), leaf, nav).value;
    assert SplitEdgeDistance(s, leaf, nav) == 0;
    p := SplitsDescribe(node, area, [], s);
    assert [] + p == p;
    TouchingDividerIsEdge(node, area, s, p, q);
  }

  /** A split found at an edge on the area's edge divides inside the area, so it is the ancestor
      whose divider is the opposite edge. */
  lemma SplitFoundAtAreaEdge(node: Node, area: Rect, q: seq<bool>, nav: NavDirection, s: SplitBorder)
    returns (p: seq<bool>)
    requires AllPositive(CollectPanes(node, area)) && IsPath(node, q) && NodeAt(node, q).Pane?
    requires AtAreaEdge(AreaAt(node, area, q), area, nav)
    requires NearestResizeSplit(CollectSplits(node, area, []), AreaAt(node, area, q), nav) == Some(s)
    ensures s.path == p && Describes(s, node, area, p) && s.direction == Along(nav)
    ensures p < q && q[|p|] == Forward(nav) && s.pos == Edge(AreaAt(node, area, q), Opposite(nav))
    ensures !AtAreaEdge(AreaAt(node, area, q), area, Opposite(nav))
  {
    PositiveThroughout(node, area, q);
    LeafWithin(node, area, q);
    p := SplitsDescribe(node, area, [], s);
    assert [] + p == p;
    DividerStaysInside(node, area, s, p);
    TouchingDividerIsEdge(node, area, s, p, q);
  }

  /** At the edge of the area the split found, if any, is the ancestor whose divider is the pane's
      opposite edge. */
  lemma OuterEdgeSplit(node: Node, area: Rect, q: seq<bool>, nav: NavDirection) returns (p: seq<bool>)
    requires AllPositive(CollectPanes(node, area)) && IsPath(node, q) && NodeAt(node, q).Pane?
    requires AtAreaEdge(AreaAt(node, area, q), area, nav)
    ensures var best := SplitToResize(node, AreaAt(node, area, q), nav, area);
      best.Some? ==> && best.value.path == p && Describes(best.value, node, area, p)
                     && best.value.direction == Along(nav)
                     && best.value.pos == Edge(AreaAt(node, area, q), Opposite(nav))
                     && p < q && q[|p|] == Forward(nav)
  {
    var leaf := AreaAt(node, area, q);
    var best := SplitToResize(node, leaf, nav, area);
    p := [];
    if best.Some? {
      if NearestResizeSplit(CollectSplits(node, area, []), leaf, nav).Some? {
        p := SplitFoundAtAreaEdge(node, area, q, nav, best.value);
      } else if AtAreaEdge(leaf, area, Opposite(nav)) {
        p := SplitFoundAtAreaEdge(node, area, q, Opposite(nav), best.value);
        assert false;
      } else {
        var s, o := InnerEdgeSplit(node, area, q, Opposite(nav));
        p := o;
      }
    }
  }

  // ----- the theorems -----

  lemma ResizeMovesAncestor(node: Node, area: Rect, k: nat, nav: NavDirection, delta: real, p: seq<bool>)
    returns (ratio: Ratio)
    requires NoDuplicates(CollectIds(node)) && k < |CollectIds(node)| && 0.0 <= delta
    requires |CollectPanes(node, area)| == |CollectIds(node)|
    requires var best := SplitToResize(node, CollectPanes(node, area)[k].rect, nav, area);
      best.Some? && best.value.path == p && Describes(best.value, node, area, p)
    ensures IsPath(node, p) && NodeAt(node, p).Split?
    ensures ResizeFocused(node, CollectIds(node)[k], nav, delta, area) == SetRatioAt(node, p, ratio)
    ensures if Forward(nav) then NodeAt(node, p).ratio <= ratio else ratio <= NodeAt(node, p).ratio
  {
    PaneIds(node, area);
    FindPaneByIndex(CollectPanes(node, area), k);
    RatioOfNode(node, p);
    var current := NodeAt(node, p).ratio;
    ratio := ClampRatio(current + (if Forward(nav) then delta else -delta));
  }

  /** The panes before and after a change of an ancestor's ratio, at the same place in the list. */
  lemma AncestorRatioChange(node: Node, area: Rect, k: nat, p: seq<bool>, ratio: Ratio)
    requires k < |CollectIds(node)| && IsPath(node, p) && NodeAt(node, p).Split? && p < PathOf(node, k)
    ensures var before, after := CollectPanes(node, area), CollectPanes(SetRatioAt(node, p, ratio), area);
      var split, second := NodeAt(node, p), PathOf(node, k)[|p|];
      && |before| == |after| == |CollectIds(node)| && after[k].id == before[k].id
      && ((if second then ratio <= split.ratio else split.ratio <= ratio)
          ==> AtLeast(before[k].rect, after[k].rect, split.direction))
      && ((if second then split.ratio <= ratio else ratio <= split.ratio)
          ==> AtLeast(after[k].rect, before[k].rect, split.direction))
  {
    var changed, q := SetRatioAt(node, p, ratio), PathOf(node, k);
    PaneAtPath(node, area, k);
    RatioKeepsPaths(node, p, ratio, k);
    PaneAtPath(changed, area, k);
    LeafGrowsWithRatio(node, area, p, q, ratio);
  }

  /** Resizing by a non-negative amount towards an inner edge never shrinks the focused pane on
      that axis and leaves its extent across unchanged. */
  lemma ResizeTowardsInnerEdgeNeverShrinks(node: Node, area: Rect, k: nat, nav: NavDirection, delta: real)
    requires NoDuplicates(CollectIds(node)) && k < |CollectPanes(node, area)| && 0.0 <= delta
    requires AllPositive(CollectPanes(node, area))
    requires !AtAreaEdge(CollectPanes(node, area)[k].rect, area, nav)
    ensures var before := CollectPanes(node, area);
      var after := CollectPanes(ResizeFocused(node, before[k].id, nav, delta, area), area);
      && |after| == |before| && after[k].id == before[k].id
      && AtLeast(before[k].rect, after[k].rect, Along(nav))
  {
    PaneIds(node, area);
    PaneAtPath(node, area, k);
    var s, p := InnerEdgeSplit(node, area, PathOf(node, k), nav);
    var ratio := ResizeMovesAncestor(node, area, k, nav, delta, p);
    AncestorRatioChange(node, area, k, p, ratio);
  }

  /** Towards the edge of the area the same key never grows the pane: it moves the opposite edge in. */
  lemma ResizeTowardsOuterEdgeNeverGrows(node: Node, area: Rect, k: nat, nav: NavDirection, delta: real)
    requires NoDuplicates(CollectIds(node)) && k < |CollectPanes(node, area)| && 0.0 <= delta
    requires AllPositive(CollectPanes(node, area))
    requires AtAreaEdge(CollectPanes(node, area)[k].rect, area, nav)
    ensures var before := CollectPanes(node, area);
      var after := CollectPanes(ResizeFocused(node, before[k].id, nav, delta, area), area);
      && |after| == |before| && after[k].id == before[k].id
      && AtLeast(after[k].rect, before[k].rect, Along(nav))
  {
    PaneIds(node, area);
    PaneAtPath(node, area, k);
    var p := OuterEdgeSplit(node, area, PathOf(node, k), nav);
    FindPaneByIndex(CollectPanes(node, area), k);
    if SplitToResize(node, CollectPanes(node, area)[k].rect, nav, area).Some? {
      var ratio := ResizeMovesAncestor(node, area, k, nav, delta, p);
      AncestorRatioChange(node, area, k, p, ratio);
    }
  }

  // ----- a pane that shrinks -----

  lemma OneSplitFound(s: SplitBorder, focused: Rect, nav: NavDirection)
    ensures NearestResizeSplit([s], focused, nav) == if ResizeCandidate(s, focused, nav) then Some(s) else None
  {
    assert [s][..0] == [] && NearestResizeSplit([], focused, nav) == None;
  }

  lemma TwoColumns(ratio: Ratio, area: Rect)
    requires area == RectData(0, 0, 10, 10)
    ensures var node, w := Split(Horizontal, ratio, Pane(1), Pane(2)), RoundPart(10, ratio);
      && CollectPanes(node, area)
         == [PaneInfo(1, RectData(0, 0, w, 10)), PaneInfo(2, RectData(w, 0, 10 - w, 10))]
      && CollectSplits(node, area, []) == [SplitBorder(w, Horizontal, ratio, area, [])]
  {}

  lemma RoundedParts()
    ensures RoundPart(10, 0.5) == 5 && RoundPart(10, 0.6) == 6
  {
    assert 10 as real * 0.5 + 0.5 == 5.5 && 10 as real * 0.6 + 0.5 == 6.5;
    assert (5.5).Floor == 5 && (6.5).Floor == 6;
  }

  lemma RightColumn(ratio: Ratio, area: Rect)
    requires area == RectData(0, 0, 10, 10) && RoundPart(10, ratio) == 5
    ensures var node, focused := Split(Horizontal, ratio, Pane(1), Pane(2)), RectData(5, 0, 5, 10);
      && FindPane(CollectPanes(node, area), 2) == Some(focused)
      && SplitToResize(node, focused, Right, area) == Some(SplitBorder(5, Horizontal, ratio, area, []))
  {
    TwoColumns(ratio, area);
    var focused, border := RectData(5, 0, 5, 10), SplitBorder(5, Horizontal, ratio, area, []);
    OneSplitFound(border, focused, Right);
    OneSplitFound(border, focused, Left);
    SecondFound(PaneInfo(1, RectData(0, 0, 5, 10)), PaneInfo(2, focused));
  }

  lemma SecondFound(first: PaneInfo, second: PaneInfo)
    requires first.id != second.id
    ensures FindPane([first, second], second.id) == Some(second.rect)
  {
    assert [first, second][1..] == [second] && [second][0] == second;
  }

  /** It can make the pane smaller: the right one of two equal columns, resized to the right. */
  lemma ResizeTowardsOuterEdgeCanShrink(node: Node, area: Rect)
    requires node == Split(Horizontal, 0.5, Pane(1), Pane(2)) && area == RectData(0, 0, 10, 10)
    ensures CollectPanes(node, area)
         == [PaneInfo(1, RectData(0, 0, 5, 10)), PaneInfo(2, RectData(5, 0, 5, 10))]
    ensures CollectPanes(ResizeFocused(node, 2, Right, 0.1, area), area)
         == [PaneInfo(1, RectData(0, 0, 6, 10)), PaneInfo(2, RectData(6, 0, 4, 10))]
  {
    RoundedParts();
    TwoColumns(0.5, area);
    TwoColumns(0.6, area);
    RightColumn(0.5, area);
    assert ResizeFocused(node, 2, Right, 0.1, area) == Split(Horizontal, 0.6, Pane(1), Pane(2));
  }
}
