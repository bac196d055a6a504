/** The tree of splits that tiles a workspace with panes (`TileLayout`). Ratios are exact
    fractions between one and nine tenths, as every operation of the source clamps them. */
module Layout {
  import opened Machine

  datatype Direction = Horizontal | Vertical

  datatype NavDirection = Left | Right | Up | Down

  type Ratio = r: real | 0.1 <= r <= 0.9 witness 0.5

  datatype Node =
    | Pane(id: nat)
    | Split(direction: Direction, ratio: Ratio, first: Node, second: Node)

  datatype PaneInfo = PaneInfo(id: nat, rect: Rect)

  datatype SplitBorder = SplitBorder(pos: nat, direction: Direction, ratio: Ratio, area: Rect, path: seq<bool>)

  function Opposite(nav: NavDirection): NavDirection {
    match nav
    case Left => Right
    case Right => Left
    case Up => Down
    case Down => Up
  }

  // ----- both axes at once -----

  /** Start, length and end of a rectangle along a direction. */
  function Lo(r: Rect, d: Direction): nat {
    if d.Horizontal? then r.x else r.y
  }

  function Len(r: Rect, d: Direction): nat {
    if d.Horizontal? then r.width else r.height
  }

  function Hi(r: Rect, d: Direction): nat {
    Lo(r, d) + Len(r, d)
  }

  function Across(d: Direction): Direction {
    if d.Horizontal? then Vertical else Horizontal
  }

  function Along(nav: NavDirection): Direction {
    if nav.Left? || nav.Right? then Horizontal else Vertical
  }

  predicate Forward(nav: NavDirection) {
    nav.Right? || nav.Down?
  }

  // ----- geometry -----

  // Half cells round up.
  function RoundPart(length: nat, ratio: Ratio): (part: nat)
    ensures part <= length
  {
    ScaledBounds(length, ratio);
    (length as real * ratio + 0.5).Floor
  }

  lemma ScaledBounds(length: nat, ratio: Ratio)
    ensures 0.0 <= length as real * ratio <= length as real
    ensures length >= 1 ==> length as real * ratio <= length as real - 0.1
  {
    assert length as real * ratio <= length as real * 0.9;
  }

  function SplitRect(area: Rect, direction: Direction, ratio: Ratio): (Rect, Rect) {
    match direction
    case Horizontal =>
      var w := RoundPart(area.width, ratio);
      (RectData(area.x, area.y, w, area.height), RectData(area.x + w, area.y, area.width - w, area.height))
    case Vertical =>
      var h := RoundPart(area.height, ratio);
      (RectData(area.x, area.y, area.width, h), RectData(area.x, area.y + h, area.width, area.height - h))
  }

  function CollectPanes(node: Node, area: Rect): seq<PaneInfo> {
    match node
    case Pane(id) => [PaneInfo(id, area)]
    case Split(direction, ratio, first, second) =>
      var (a, b) := SplitRect(area, direction, ratio);
      CollectPanes(first, a) + CollectPanes(second, b)
  }

  function CollectSplits(node: Node, area: Rect, path: seq<bool>): seq<SplitBorder> {
    match node
    case Pane(_) => []
    case Split(direction, ratio, first, second) =>
      var (a, b) := SplitRect(area, direction, ratio);
      [SplitBorder(Hi(a, direction), direction, ratio, area, path)]
      + CollectSplits(first, a, path + [false])
      + CollectSplits(second, b, path + [true])
  }

  // ----- tree operations -----

  function CollectIds(node: Node): (ids: seq<nat>)
    ensures |ids| >= 1
  {
    match node
    case Pane(id) => [id]
    case Split(_, _, first, second) => CollectIds(first) + CollectIds(second)
  }

  function SplitAt(node: Node, target: nat, direction: Direction, newId: nat, ratio: Ratio): Node {
    match node
    case Pane(id) =>
      if id == target then Split(direction, ratio, Pane(id), Pane(newId)) else node
    case Split(d, r, first, second) =>
      Split(d, r, SplitAt(first, target, direction, newId, ratio), SplitAt(second, target, direction, newId, ratio))
  }

  function RemovePane(node: Node, target: nat): Option<Node> {
    match node
    case Pane(id) => if id == target then None else Some(node)
    case Split(d, r, first, second) =>
      match (RemovePane(first, target), RemovePane(second, target))
      case (None, Some(s)) => Some(s)
      case (Some(f), None) => Some(f)
      case (Some(f), Some(s)) => Some(Split(d, r, f, s))
      case (None, None) => None
  }

  function SwapId(id: nat, first: nat, second: nat): nat {
    if id == first then second else if id == second then first else id
  }

  function SwapPaneIds(node: Node, first: nat, second: nat): Node {
    match node
    case Pane(id) => Pane(SwapId(id, first, second))
    case Split(d, r, a, b) => Split(d, r, SwapPaneIds(a, first, second), SwapPaneIds(b, first, second))
  }

  function GetRatioAt(node: Node, path: seq<bool>): Option<Ratio>
    decreases node
  {
    if node.Pane? then None
    else if path == [] then Some(node.ratio)
    else GetRatioAt(if path[0] then node.second else node.first, path[1..])
  }

  function SetRatioAt(node: Node, path: seq<bool>, ratio: Ratio): Node
    decreases node
  {
    if node.Pane? then node
    else if path == [] then node.(ratio := ratio)
    else if path[0] then node.(second := SetRatioAt(node.second, path[1..], ratio))
    else node.(first := SetRatioAt(node.first, path[1..], ratio))
  }

  function SplitRatios(node: Node): seq<Ratio> {
    match node
    case Pane(_) => []
    case Split(_, r, first, second) => [r] + SplitRatios(first) + SplitRatios(second)
  }

  function ClampRatio(ratio: real): Ratio {
    if ratio < 0.1 then 0.1 else if ratio > 0.9 then 0.9 else ratio
  }

  // ----- navigation -----

  predicate RangesOverlap(a: Rect, b: Rect, d: Direction) {
    Lo(a, d) < Hi(b, d) && Hi(a, d) > Lo(b, d)
  }

  function RangeOverlapAmount(a: Rect, b: Rect, d: Direction): nat {
    SatSub(Min(Hi(a, d), Hi(b, d)), Max(Lo(a, d), Lo(b, d)))
  }

  function Center(r: Rect, d: Direction): nat {
    Min(Min(2 * Lo(r, d), U16_MAX) + Len(r, d), U16_MAX)
  }

  function CenterDistance(a: Rect, b: Rect, d: Direction): nat {
    var x, y := Center(a, d), Center(b, d);
    if x >= y then x - y else y - x
  }

  predicate Beyond(r: Rect, focused: Rect, nav: NavDirection) {
    var d := Along(nav);
    if Forward(nav) then Lo(r, d) >= Hi(focused, d) else Hi(r, d) <= Lo(focused, d)
  }

  function EdgeDistance(r: Rect, focused: Rect, nav: NavDirection): nat {
    var d := Along(nav);
    if Forward(nav) then SatSub(Lo(r, d), Hi(focused, d)) else SatSub(Lo(focused, d), Hi(r, d))
  }

  predicate Candidate(pane: PaneInfo, focused: PaneInfo, nav: NavDirection) {
    && pane.id != focused.id
    && Beyond(pane.rect, focused.rect, nav)
    && RangesOverlap(pane.rect, focused.rect, Across(Along(nav)))
  }

  /** Nearer edge first, then larger overlap, then nearer centre; on a tie the earlier pane stays. */
  predicate Better(a: PaneInfo, b: PaneInfo, focused: PaneInfo, nav: NavDirection) {
    var c := Across(Along(nav));
    var ea, eb := EdgeDistance(a.rect, focused.rect, nav), EdgeDistance(b.rect, focused.rect, nav);
    var oa, ob := RangeOverlapAmount(a.rect, focused.rect, c), RangeOverlapAmount(b.rect, focused.rect, c);
    ea < eb
    || (ea == eb
        && (oa > ob
            || (oa == ob && CenterDistance(a.rect, focused.rect, c) < CenterDistance(b.rect, focused.rect, c))))
  }

  function BestCandidate(focused: PaneInfo, nav: NavDirection, panes: seq<PaneInfo>): (best: Option<nat>)
    ensures best.None? <==> forall i :: 0 <= i < |panes| ==> !Candidate(panes[i], focused, nav)
    ensures best.Some? ==> best.value < |panes| && Candidate(panes[best.value], focused, nav)
    ensures best.Some? ==> forall i :: 0 <= i < |panes| && Candidate(panes[i], focused, nav)
                             ==> !Better(panes[i], panes[best.value], focused, nav)
  {
    if panes == [] then None
    else
      var n := |panes| - 1;
      var best := BestCandidate(focused, nav, panes[..n]);
      assert forall i :: 0 <= i < n ==> panes[..n][i] == panes[i];
      if !Candidate(panes[n], focused, nav) then best
      else if best.None? || Better(panes[n], panes[best.value], focused, nav) then Some(n)
      else best
  }

  function FindInDirection(focused: PaneInfo, nav: NavDirection, panes: seq<PaneInfo>): Option<nat> {
    var best := BestCandidate(focused, nav, panes);
    if best.None? then None else Some(panes[best.value].id)
  }

  // ----- resizing -----

  function Edge(r: Rect, nav: NavDirection): nat {
    if Forward(nav) then Hi(r, Along(nav)) else Lo(r, Along(nav))
  }

  function SplitEdgeDistance(split: SplitBorder, focused: Rect, nav: NavDirection): nat {
    var e := Edge(focused, nav);
    if split.pos >= e then split.pos - e else e - split.pos
  }

  predicate ResizeCandidate(split: SplitBorder, focused: Rect, nav: NavDirection) {
    && split.direction == Along(nav)
    && RangesOverlap(split.area, focused, Across(Along(nav)))
    && SplitEdgeDistance(split, focused, nav) <= 1
  }

  function NearestResizeSplit(splits: seq<SplitBorder>, focused: Rect, nav: NavDirection)
    : (best: Option<SplitBorder>)
    ensures best.None? <==> forall s :: s in splits ==> !ResizeCandidate(s, focused, nav)
    ensures best.Some? ==> best.value in splits && ResizeCandidate(best.value, focused, nav)
    ensures best.Some? ==> forall s :: s in splits && ResizeCandidate(s, focused, nav) ==>
              SplitEdgeDistance(best.value, focused, nav) <= SplitEdgeDistance(s, focused, nav)
  {
    if splits == [] then None
    else
      var n := |splits| - 1;
      var best := NearestResizeSplit(splits[..n], focused, nav);
      assert forall s :: s in splits <==> s in splits[..n] || s == splits[n];
      if !ResizeCandidate(splits[n], focused, nav) then best
      else if best.None?
           || SplitEdgeDistance(splits[n], focused, nav) < SplitEdgeDistance(best.value, focused, nav) then
        Some(splits[n])
      else best
  }

  function FindPane(panes: seq<PaneInfo>, id: nat): Option<Rect> {
    if panes == [] then None else if panes[0].id == id then Some(panes[0].rect) else FindPane(panes[1..], id)
  }

  function SplitToResize(root: Node, focused: Rect, nav: NavDirection, area: Rect): Option<SplitBorder> {
    var splits := CollectSplits(root, area, []);
    var best := NearestResizeSplit(splits, focused, nav);
    if best.Some? then best else NearestResizeSplit(splits, focused, Opposite(nav))
  }

  // The direction pressed, not the side the split was found on, decides which way it moves.
  function ResizeFocused(root: Node, focus: nat, nav: NavDirection, delta: real, area: Rect): Node {
    var focused := FindPane(CollectPanes(root, area), focus);
    if focused.None? then root
    else
      var best := SplitToResize(root, focused.value, nav, area);
      if best.None? then root
      else
        var current := GetRatioAt(root, best.value.path);
        var ratio := if current.Some? then current.value else 0.5;
        SetRatioAt(root, best.value.path, ClampRatio(ratio + (if Forward(nav) then delta else -delta)))
  }

  function Position(ids: seq<nat>, id: nat): (at: nat)
    requires id in ids
    ensures at < |ids| && ids[at] == id && id !in ids[..at]
  {
    if ids[0] == id then 0 else 1 + Position(ids[1..], id)
  }

  /** Where the focus goes when the focused pane closes. */
  function FocusAfterClose(ids: seq<nat>, target: nat): nat
    requires target in ids && |ids| > 1
  {
    var at := Position(ids, target);
    if at + 1 < |ids| then ids[at + 1] else ids[at - 1]
  }

  ghost predicate NoDuplicates(ids: seq<nat>) {
    forall i, j :: 0 <= i < j < |ids| ==> ids[i] != ids[j]
  }

  class TileLayout {
    var root: Node
    var focus: nat

    ghost predicate Valid()
      reads this
    {
      NoDuplicates(CollectIds(root)) && focus in CollectIds(root)
    }

    constructor (rootId: nat)
      ensures Valid() && root == Pane(rootId) && focus == rootId
    {
      root, focus := Pane(rootId), rootId;
    }

    function Panes(area: Rect): seq<PaneInfo>
      reads this
    {
      CollectPanes(root, area)
    }

    function Splits(area: Rect): seq<SplitBorder>
      reads this
    {
      CollectSplits(root, area, [])
    }

    /** The new id comes from the global counter, so it is not in the tree. */
    method SplitFocusedWithRatio(direction: Direction, ratio: real, newId: nat)
      requires Valid() && newId !in CollectIds(root)
      modifies this
      ensures Valid() && focus == newId
      ensures root == SplitAt(old(root), old(focus), direction, newId, ClampRatio(ratio))
    {
      SplitIds(root, focus, direction, newId, ClampRatio(ratio));
      root := SplitAt(root, focus, direction, newId, ClampRatio(ratio));
      focus := newId;
    }

    method InsertPaneNear(target: nat, moved: nat, direction: Direction, ratio: real) returns (ok: bool)
      requires Valid()
      modifies this
      ensures Valid()
      ensures ok <==> target != moved && target in CollectIds(old(root)) && moved !in CollectIds(old(root))
      ensures ok ==> focus == moved && root == SplitAt(old(root), target, direction, moved, ClampRatio(ratio))
      ensures !ok ==> focus == old(focus) && root == old(root)
    {
      var ids := CollectIds(root);
      if target == moved || target !in ids || moved in ids {
        return false;
      }
      SplitIds(root, target, direction, moved, ClampRatio(ratio));
      root := SplitAt(root, target, direction, moved, ClampRatio(ratio));
      focus := moved;
      return true;
    }

    method CloseFocused() returns (ok: bool)
      requires Valid()
      modifies this
      ensures Valid()
      ensures ok <==> |CollectIds(old(root))| > 1
      ensures ok ==> RemovePane(old(root), old(focus)) == Some(root)
                     && focus == FocusAfterClose(CollectIds(old(root)), old(focus))
      ensures !ok ==> focus == old(focus) && root == old(root)
    {
      var ids := CollectIds(root);
      if |ids| <= 1 {
        return false;
      }
      var newFocus := FocusAfterClose(ids, focus);
      var rest := RemovePane(root, focus);
      RemoveIds(root, focus);
      DropKeepsUnique(ids, Position(ids, focus));
      root, focus := rest.value, newFocus;
      return true;
    }

    method FocusPane(id: nat)
      requires Valid()
      modifies this`focus
      ensures Valid() && focus == if id in CollectIds(root) then id else old(focus)
    {
      if id in CollectIds(root) {
        focus := id;
      }
    }

    method SwapPanes(first: nat, second: nat) returns (ok: bool)
      requires Valid()
      modifies this`root
      ensures Valid()
      ensures ok <==> first != second && first in CollectIds(old(root)) && second in CollectIds(old(root))
      ensures root == if ok then SwapPaneIds(old(root), first, second) else old(root)
    {
      var ids := CollectIds(root);
      if first == second || first !in ids || second !in ids {
        return false;
      }
      SwapIds(root, first, second);
      var at := Position(ids, focus);
      assert CollectIds(SwapPaneIds(root, first, second))[at] == SwapId(focus, first, second);
      assert focus in CollectIds(SwapPaneIds(root, first, second)) by {
        if focus == first {
          assert CollectIds(SwapPaneIds(root, first, second))[Position(ids, second)] == first;
        } else if focus == second {
          assert CollectIds(SwapPaneIds(root, first, second))[Position(ids, first)] == second;
        }
      }
      root := SwapPaneIds(root, first, second);
      return true;
    }

    method SetRatio(path: seq<bool>, ratio: real) returns (ok: bool)
      requires Valid()
      modifies this`root
      ensures Valid() && ok == GetRatioAt(old(root), path).Some?
      ensures root == SetRatioAt(old(root), path, ClampRatio(ratio))
      ensures !ok ==> root == old(root)
    {
      RatioKeepsIds(root, path, ClampRatio(ratio));
      ok := GetRatioAt(root, path).Some?;
      root := SetRatioAt(root, path, ClampRatio(ratio));
    }

    method Resize(nav: NavDirection, delta: real, area: Rect)
      requires Valid()
      modifies this`root
      ensures Valid() && root == ResizeFocused(old(root), focus, nav, delta, area)
      ensures CollectIds(root) == CollectIds(old(root))
    {
      var focused := FindPane(CollectPanes(root, area), focus);
      if focused.None? {
        return;
      }
      var best := SplitToResize(root, focused.value, nav, area);
      if best.Some? {
        var path := best.value.path;
        var current := GetRatioAt(root, path);
        var ratio := if current.Some? then current.value else 0.5;
        var adjust := if Forward(nav) then delta else -delta;
        RatioKeepsIds(root, path, ClampRatio(ratio + adjust));
        var _ := SetRatio(path, ratio + adjust);
      }
    }

    method ResizePane(paneId: nat, nav: NavDirection, delta: real, area: Rect) returns (changed: bool)
      requires Valid()
      modifies this
      ensures Valid() && focus == old(focus)
      ensures root == if paneId in CollectIds(old(root))
                      then ResizeFocused(old(root), paneId, nav, delta, area) else old(root)
      ensures changed == (SplitRatios(root) != SplitRatios(old(root)))
    {
      if paneId !in CollectIds(root) {
        return false;
      }
      var before := SplitRatios(root);
      var previousFocus := focus;
      focus := paneId;
      Resize(nav, delta, area);
      focus := previousFocus;
      return SplitRatios(root) != before;
    }
  }

  // ----- what the tree operations do to the list of panes -----

  lemma {:induction false} SplitElsewhere(node: Node, target: nat, direction: Direction, newId: nat, ratio: Ratio)
    requires target !in CollectIds(node)
    ensures SplitAt(node, target, direction, newId, ratio) == node
  {
    if node.Split? {
      SplitElsewhere(node.first, target, direction, newId, ratio);
      SplitElsewhere(node.second, target, direction, newId, ratio);
    }
  }

  function InsertAfter<T>(xs: seq<T>, at: nat, x: T): seq<T>
    requires at < |xs|
  {
    xs[..at + 1] + [x] + xs[at + 1..]
  }

  function DropAt<T>(xs: seq<T>, at: nat): seq<T>
    requires at < |xs|
  {
    xs[..at] + xs[at + 1..]
  }

  lemma InsertInConcat<T>(a: seq<T>, b: seq<T>, at: nat, x: T)
    requires at < |a| + |b|
    ensures at < |a| ==> InsertAfter(a + b, at, x) == InsertAfter(a, at, x) + b
    ensures at >= |a| ==> InsertAfter(a + b, at, x) == a + InsertAfter(b, at - |a|, x)
  {
    if at < |a| {
      assert (a + b)[at + 1..] == a[at + 1..] + b;
    } else {
      assert (a + b)[..at + 1] == a + b[..at - |a| + 1];
    }
  }

  lemma DropInConcat<T>(a: seq<T>, b: seq<T>, at: nat)
    requires at < |a| + |b|
    ensures at < |a| ==> DropAt(a + b, at) == DropAt(a, at) + b
    ensures at >= |a| ==> DropAt(a + b, at) == a + DropAt(b, at - |a|)
  {}

  lemma InsertKeepsUnique(ids: seq<nat>, at: nat, x: nat)
    requires NoDuplicates(ids) && at < |ids| && x !in ids
    ensures NoDuplicates(InsertAfter(ids, at, x))
  {}

  /** A split puts the new pane right behind its target and keeps every other pane in place. */
  lemma {:induction false} SplitIds(node: Node, target: nat, direction: Direction, newId: nat, ratio: Ratio)
    requires NoDuplicates(CollectIds(node)) && target in CollectIds(node) && newId !in CollectIds(node)
    ensures CollectIds(SplitAt(node, target, direction, newId, ratio))
         == InsertAfter(CollectIds(node), Position(CollectIds(node), target), newId)
    ensures NoDuplicates(CollectIds(SplitAt(node, target, direction, newId, ratio)))
  {
    var at := Position(CollectIds(node), target);
    if node.Split? {
      var left, right := CollectIds(node.first), CollectIds(node.second);
      ConcatNoDuplicates(left, right);
      PositionInConcat(left, right, target);
      InsertInConcat(left, right, at, newId);
      if target in left {
        SplitIds(node.first, target, direction, newId, ratio);
        SplitElsewhere(node.second, target, direction, newId, ratio);
      } else {
        SplitElsewhere(node.first, target, direction, newId, ratio);
        SplitIds(node.second, target, direction, newId, ratio);
      }
    }
    InsertKeepsUnique(CollectIds(node), at, newId);
  }

  lemma ConcatNoDuplicates(a: seq<nat>, b: seq<nat>)
    requires NoDuplicates(a + b)
    ensures NoDuplicates(a) && NoDuplicates(b)
    ensures forall x :: x in a ==> x !in b
  {
    assert forall i :: 0 <= i < |a| ==> (a + b)[i] == a[i];
    assert forall i :: 0 <= i < |b| ==> (a + b)[|a| + i] == b[i];
  }

  lemma PositionIs(ids: seq<nat>, id: nat, at: nat)
    requires NoDuplicates(ids) && at < |ids| && ids[at] == id
    ensures Position(ids, id) == at
  {}

  lemma PositionInConcat(a: seq<nat>, b: seq<nat>, id: nat)
    requires NoDuplicates(a + b) && id in a + b
    ensures Position(a + b, id) == if id in a then Position(a, id) else |a| + Position(b, id)
  {
    PositionIs(a + b, id, if id in a then Position(a, id) else |a| + Position(b, id));
  }

  lemma {:induction false} RemoveElsewhere(node: Node, target: nat)
    requires target !in CollectIds(node)
    ensures RemovePane(node, target) == Some(node)
  {
    if node.Split? {
      RemoveElsewhere(node.first, target);
      RemoveElsewhere(node.second, target);
    }
  }

  /** Closing a pane removes it from the list and moves no other. */
  lemma {:induction false} RemoveIds(node: Node, target: nat)
    requires NoDuplicates(CollectIds(node)) && target in CollectIds(node)
    ensures RemovePane(node, target).None? <==> node.Pane?
    ensures node.Split? ==>
      && CollectIds(RemovePane(node, target).value)
         == DropAt(CollectIds(node), Position(CollectIds(node), target))
      && NoDuplicates(CollectIds(RemovePane(node, target).value))
  {
    if node.Split? {
      var left, right := CollectIds(node.first), CollectIds(node.second);
      var at := Position(CollectIds(node), target);
      ConcatNoDuplicates(left, right);
      PositionInConcat(left, right, target);
      DropInConcat(left, right, at);
      var pruned := if target in left then node.first else node.second;
      RemoveElsewhere(if target in left then node.second else node.first, target);
      RemoveIds(pruned, target);
      if pruned.Pane? {
        assert CollectIds(pruned) == [target];
      }
      DropKeepsUnique(CollectIds(node), at);
    }
  }

  lemma DropKeepsUnique(ids: seq<nat>, at: nat)
    requires NoDuplicates(ids) && at < |ids|
    ensures NoDuplicates(DropAt(ids, at))
    ensures forall x :: x in ids && x != ids[at] ==> x in DropAt(ids, at)
  {
    forall x | x in ids && x != ids[at] ensures x in DropAt(ids, at) {
      var i :| 0 <= i < |ids| && ids[i] == x;
      assert DropAt(ids, at)[if i < at then i else i - 1] == x;
    }
  }

  /** A swap exchanges two entries of the list. */
  lemma {:induction false} SwapIds(node: Node, first: nat, second: nat)
    ensures |CollectIds(SwapPaneIds(node, first, second))| == |CollectIds(node)|
    ensures forall i :: 0 <= i < |CollectIds(node)| ==>
              CollectIds(SwapPaneIds(node, first, second))[i] == SwapId(CollectIds(node)[i], first, second)
    ensures NoDuplicates(CollectIds(node)) ==> NoDuplicates(CollectIds(SwapPaneIds(node, first, second)))
  {
    if node.Split? {
      SwapIds(node.first, first, second);
      SwapIds(node.second, first, second);
    }
  }

  lemma {:induction false} RatioKeepsIds(node: Node, path: seq<bool>, ratio: Ratio)
    ensures CollectIds(SetRatioAt(node, path, ratio)) == CollectIds(node)
    ensures GetRatioAt(node, path).None? ==> SetRatioAt(node, path, ratio) == node
    ensures GetRatioAt(node, path).Some? ==> GetRatioAt(SetRatioAt(node, path, ratio), path) == Some(ratio)
    decreases node
  {
    if node.Split? && path != [] {
      RatioKeepsIds(if path[0] then node.second else node.first, path[1..], ratio);
    }
  }
}
