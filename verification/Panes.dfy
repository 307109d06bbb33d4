/**
 The tiled terminal layout: a binary tree of splits over pane identifiers, its
 geometry, its divider numbers, and its snapshot codec. Ratios and coordinates are
 real numbers here.
 */
module Panes {
  import opened Common

  type Uuid = nat

  const MAX_TERMINAL_PANES: nat := 8
  const MIN_PANE_SPLIT_RATIO: real := 0.1
  const DEFAULT_PANE_SPLIT_RATIO: real := 0.5
  /** The distance between 1 and the next single-precision number. */
  const EPSILON: real := 1.0 / 8388608.0

  datatype PaneDirection = Left | Right | Up | Down {
    predicate IsBefore() {
      Left? || Up?
    }

    function SplitAxis(): SplitAxis {
      if Left? || Right? then Columns else Rows
    }
  }

  datatype SplitAxis = Columns | Rows

  datatype PaneNode =
    | Leaf(id: Uuid)
    | Split(axis: SplitAxis, ratio: real, first: PaneNode, second: PaneNode)

  predicate RatioOk(ratio: real) {
    MIN_PANE_SPLIT_RATIO <= ratio <= 1.0 - MIN_PANE_SPLIT_RATIO
  }

  predicate RatiosOk(node: PaneNode) {
    match node
    case Leaf(_) => true
    case Split(_, ratio, first, second) => RatioOk(ratio) && RatiosOk(first) && RatiosOk(second)
  }

  function TabIds(node: PaneNode): (ids: seq<Uuid>)
    ensures |ids| >= 1
  {
    match node
    case Leaf(id) => [id]
    case Split(_, _, first, second) => TabIds(first) + TabIds(second)
  }

  /** The splits in preorder, as the layout numbers them. */
  function Splits(node: PaneNode): seq<(SplitAxis, real)> {
    match node
    case Leaf(_) => []
    case Split(axis, ratio, first, second) => [(axis, ratio)] + (Splits(first) + Splits(second))
  }

  /** Equal up to ratios. */
  predicate SameShape(a: PaneNode, b: PaneNode) {
    match (a, b)
    case (Leaf(i), Leaf(j)) => i == j
    case (Split(p, _, a1, a2), Split(q, _, b1, b2)) => p == q && SameShape(a1, b1) && SameShape(a2, b2)
    case _ => false
  }

  // ----- Geometry -----

  datatype PaneRect = PaneRect(x: real, y: real, width: real, height: real) {
    function Right(): real { x + width }
    function Bottom(): real { y + height }
    function CenterX(): real { x + width / 2.0 }
    function CenterY(): real { y + height / 2.0 }

    function Area(): real {
      width * height
    }

    predicate Positive() {
      width > 0.0 && height > 0.0
    }

    predicate Contains(px: real, py: real) {
      x <= px < Right() && y <= py < Bottom()
    }

    predicate Within(outer: PaneRect) {
      outer.x <= x && Right() <= outer.Right() && outer.y <= y && Bottom() <= outer.Bottom()
    }
  }

  const UNIT: PaneRect := PaneRect(0.0, 0.0, 1.0, 1.0)

  function Part(length: real, ratio: real): real {
    length * ratio
  }

  function FirstRect(axis: SplitAxis, ratio: real, rect: PaneRect): PaneRect {
    match axis
    case Columns => rect.(width := Part(rect.width, ratio))
    case Rows => rect.(height := Part(rect.height, ratio))
  }

  function SecondRect(axis: SplitAxis, ratio: real, rect: PaneRect): PaneRect {
    match axis
    case Columns => rect.(x := rect.x + Part(rect.width, ratio), width := Part(rect.width, 1.0 - ratio))
    case Rows => rect.(y := rect.y + Part(rect.height, ratio), height := Part(rect.height, 1.0 - ratio))
  }

  datatype PanePlacement = PanePlacement(tabId: Uuid, rect: PaneRect, focused: bool)

  datatype PaneDividerPlacement = PaneDividerPlacement(id: nat, rect: PaneRect, ratio: real, vertical: bool)

  /** Where every pane goes. */
  function Placed(node: PaneNode, rect: PaneRect, focused: Uuid): seq<PanePlacement> {
    match node
    case Leaf(id) => [PanePlacement(id, rect, id == focused)]
    case Split(axis, ratio, first, second) =>
      Placed(first, FirstRect(axis, ratio, rect), focused) + Placed(second, SecondRect(axis, ratio, rect), focused)
  }

  function SplitCount(node: PaneNode): nat
  {
    match node
    case Leaf(_) => 0
    case Split(_, _, first, second) => 1 + SplitCount(first) + SplitCount(second)
  }

  /** Where every divider goes, numbered from `next`. */
  function Dividers(node: PaneNode, rect: PaneRect, next: nat): seq<PaneDividerPlacement> {
    match node
    case Leaf(_) => []
    case Split(axis, ratio, first, second) =>
      [PaneDividerPlacement(next, rect, ratio, axis == Columns)]
      + (Dividers(first, FirstRect(axis, ratio, rect), next + 1)
         + Dividers(second, SecondRect(axis, ratio, rect), next + 1 + SplitCount(first)))
  }

  class LayoutBuilder {
    var placements: seq<PanePlacement>
    var dividers: seq<PaneDividerPlacement>
    var nextDividerId: nat

    constructor ()
      ensures placements == [] && dividers == [] && nextDividerId == 0
    {
      placements, dividers, nextDividerId := [], [], 0;
    }

    method CollectLayout(node: PaneNode, rect: PaneRect, focused: Uuid)
      modifies this
      ensures placements == old(placements) + Placed(node, rect, focused)
      ensures dividers == old(dividers) + Dividers(node, rect, old(nextDividerId))
      ensures nextDividerId == old(nextDividerId) + SplitCount(node)
      decreases node
    {
      hide FirstRect, SecondRect;
      match node
      case Leaf(id) =>
        placements := placements + [PanePlacement(id, rect, id == focused)];
      case Split(axis, ratio, first, second) =>
        var a, b := FirstRect(axis, ratio, rect), SecondRect(axis, ratio, rect);
        var own := PaneDividerPlacement(nextDividerId, rect, ratio, axis == Columns);
        ghost var inFirst := Dividers(first, a, nextDividerId + 1);
        Associative(placements, Placed(first, a, focused), Placed(second, b, focused));
        Associative(dividers, [own], inFirst);
        Associative(dividers, [own] + inFirst, Dividers(second, b, nextDividerId + 1 + SplitCount(first)));
        Associative([own], inFirst, Dividers(second, b, nextDividerId + 1 + SplitCount(first)));
        dividers := dividers + [own];
        nextDividerId := nextDividerId + 1;
        CollectLayout(first, a, focused);
        CollectLayout(second, b, focused);
    }
  }

  /** The dividers show these splits and are numbered from `next` on. */
  ghost predicate Labelled(ds: seq<PaneDividerPlacement>, splits: seq<(SplitAxis, real)>, next: nat) {
    && |ds| == |splits|
    && forall i :: 0 <= i < |ds| ==>
         && ds[i].id == next + i
         && ds[i].ratio == splits[i].1
         && (ds[i].vertical <==> splits[i].0 == Columns)
  }

  lemma LabelledAppend(a: seq<PaneDividerPlacement>, s: seq<(SplitAxis, real)>, b: seq<PaneDividerPlacement>,
                       t: seq<(SplitAxis, real)>, next: nat)
    requires Labelled(a, s, next) && Labelled(b, t, next + |a|)
    ensures Labelled(a + b, s + t, next)
  {
  }

  /** One divider fewer than panes, numbered 0, 1, 2, ... in preorder. */
  lemma {:induction false} DividersAreNumberedInPreorder(node: PaneNode, rect: PaneRect, next: nat)
    ensures Labelled(Dividers(node, rect, next), Splits(node), next)
    ensures |Dividers(node, rect, next)| == SplitCount(node) == |TabIds(node)| - 1
  {
    hide FirstRect, SecondRect, Labelled;
    match node
    case Leaf(_) =>
      assert Labelled([], [], next) by { NothingLabelled(next); }
    case Split(axis, ratio, first, second) =>
      var a, b := FirstRect(axis, ratio, rect), SecondRect(axis, ratio, rect);
      var own := PaneDividerPlacement(next, rect, ratio, axis == Columns);
      DividersAreNumberedInPreorder(first, a, next + 1);
      DividersAreNumberedInPreorder(second, b, next + 1 + SplitCount(first));
      LabelledAppend(Dividers(first, a, next + 1), Splits(first), Dividers(second, b, next + 1 + SplitCount(first)),
                     Splits(second), next + 1);
      OneLabelled(own, (axis, ratio), next);
      LabelledAppend([own], [(axis, ratio)],
                     Dividers(first, a, next + 1) + Dividers(second, b, next + 1 + SplitCount(first)),
                     Splits(first) + Splits(second), next);
  }

  lemma NothingLabelled(next: nat)
    ensures Labelled([], [], next)
  {
  }

  lemma OneLabelled(d: PaneDividerPlacement, s: (SplitAxis, real), next: nat)
    requires d.id == next && d.ratio == s.1 && (d.vertical <==> s.0 == Columns)
    ensures Labelled([d], [s], next)
  {
  }

  lemma Shares(length: real, ratio: real)
    requires length > 0.0 && RatioOk(ratio)
    ensures 0.0 < Part(length, ratio) && 0.0 < Part(length, 1.0 - ratio)
    ensures Part(length, ratio) + Part(length, 1.0 - ratio) == length
  {
    var rest := 1.0 - ratio;
    assert length * rest > 0.0 && length * ratio > 0.0;
    assert Part(length, 1.0 - ratio) == length * rest;
    assert length * ratio + length * rest == length * (ratio + rest);
  }

  lemma SplitRects(axis: SplitAxis, ratio: real, rect: PaneRect)
    requires rect.Positive() && RatioOk(ratio)
    ensures var a, b := FirstRect(axis, ratio, rect), SecondRect(axis, ratio, rect);
      && a.Positive() && b.Positive()
      && a.Within(rect) && b.Within(rect)
      && (axis == Columns ==> a.Right() == b.x && b.Right() == rect.Right())
      && (axis == Rows ==> a.Bottom() == b.y && b.Bottom() == rect.Bottom())
  {
    hide Part;
    Shares(rect.width, ratio);
    Shares(rect.height, ratio);
  }

  lemma SplitAreas(axis: SplitAxis, ratio: real, rect: PaneRect)
    requires rect.Positive() && RatioOk(ratio)
    ensures var a, b := FirstRect(axis, ratio, rect), SecondRect(axis, ratio, rect);
      a.Area() + b.Area() == rect.Area()
  {
    var w, h := rect.width, rect.height;
    if axis == Columns {
      assert (w * ratio) * h + (w * (1.0 - ratio)) * h == (w * ratio + w * (1.0 - ratio)) * h;
      Shares(w, ratio);
    } else {
      assert w * (h * ratio) + w * (h * (1.0 - ratio)) == w * (h * ratio + h * (1.0 - ratio));
      Shares(h, ratio);
    }
  }

  /** How many of the panes cover a point. */
  function Covering(ps: seq<PanePlacement>, x: real, y: real): nat {
    if ps == [] then 0 else (if ps[0].rect.Contains(x, y) then 1 else 0) + Covering(ps[1..], x, y)
  }

  lemma {:induction false} CoveringAppend(a: seq<PanePlacement>, b: seq<PanePlacement>, x: real, y: real)
    ensures Covering(a + b, x, y) == Covering(a, x, y) + Covering(b, x, y)
  {
    if a == [] {
      assert a + b == b;
    } else {
      CoveringAppend(a[1..], b, x, y);
      assert (a + b)[1..] == a[1..] + b;
    }
  }

  function Area(ps: seq<PanePlacement>): real {
    if ps == [] then 0.0 else ps[0].rect.Area() + Area(ps[1..])
  }

  lemma {:induction false} AreaAppend(a: seq<PanePlacement>, b: seq<PanePlacement>)
    ensures Area(a + b) == Area(a) + Area(b)
  {
    if a == [] {
      assert a + b == b;
    } else {
      AreaAppend(a[1..], b);
      assert (a + b)[1..] == a[1..] + b;
    }
  }

  /** A point is covered by exactly one pane if it is in the rectangle, by none if not. */
  lemma {:induction false} PointsAreCoveredOnce(node: PaneNode, rect: PaneRect, focused: Uuid, x: real, y: real)
    requires RatiosOk(node) && rect.Positive()
    ensures Covering(Placed(node, rect, focused), x, y) == if rect.Contains(x, y) then 1 else 0
  {
    match node
    case Leaf(_) =>
    case Split(axis, ratio, first, second) =>
      var a, b := FirstRect(axis, ratio, rect), SecondRect(axis, ratio, rect);
      SplitRects(axis, ratio, rect);
      PointsAreCoveredOnce(first, a, focused, x, y);
      PointsAreCoveredOnce(second, b, focused, x, y);
      CoveringAppend(Placed(first, a, focused), Placed(second, b, focused), x, y);
  }

  lemma {:induction false} PanesFillTheRectangle(node: PaneNode, rect: PaneRect, focused: Uuid)
    requires RatiosOk(node) && rect.Positive()
    ensures Area(Placed(node, rect, focused)) == rect.Area()
  {
    hide PaneRect.Area, Part, FirstRect, SecondRect;
    match node
    case Leaf(_) =>
      assert Placed(node, rect, focused)[1..] == [];
    case Split(axis, ratio, first, second) =>
      var a, b := FirstRect(axis, ratio, rect), SecondRect(axis, ratio, rect);
      SplitRects(axis, ratio, rect);
      SplitAreas(axis, ratio, rect);
      PanesFillTheRectangle(first, a, focused);
      PanesFillTheRectangle(second, b, focused);
      AreaAppend(Placed(first, a, focused), Placed(second, b, focused));
  }

  lemma {:induction false} PanesStayInside(node: PaneNode, rect: PaneRect, focused: Uuid)
    requires RatiosOk(node) && rect.Positive()
    ensures forall i :: 0 <= i < |Placed(node, rect, focused)| ==>
      Placed(node, rect, focused)[i].rect.Positive() && Placed(node, rect, focused)[i].rect.Within(rect)
  {
    match node
    case Leaf(_) =>
    case Split(axis, ratio, first, second) =>
      SplitRects(axis, ratio, rect);
      hide FirstRect, SecondRect;
      PanesStayInside(first, FirstRect(axis, ratio, rect), focused);
      PanesStayInside(second, SecondRect(axis, ratio, rect), focused);
  }

  lemma {:induction false} PanesAreInTabOrder(node: PaneNode, rect: PaneRect, focused: Uuid)
    ensures var ps := Placed(node, rect, focused);
      |ps| == |TabIds(node)| && forall i :: 0 <= i < |ps| ==>
        ps[i].tabId == TabIds(node)[i] && ps[i].focused == (ps[i].tabId == focused)
  {
    match node
    case Leaf(_) =>
    case Split(axis, ratio, first, second) =>
      PanesAreInTabOrder(first, FirstRect(axis, ratio, rect), focused);
      PanesAreInTabOrder(second, SecondRect(axis, ratio, rect), focused);
  }

  // ----- Dragging a divider -----

  function Clamped(ratio: real): real {
    if ratio < MIN_PANE_SPLIT_RATIO then MIN_PANE_SPLIT_RATIO
    else if ratio > 1.0 - MIN_PANE_SPLIT_RATIO then 1.0 - MIN_PANE_SPLIT_RATIO
    else ratio
  }

  /** The tree with the ratio of its `k`-th split replaced. */
  function Resized(node: PaneNode, k: nat, ratio: real): PaneNode {
    match node
    case Leaf(_) => node
    case Split(axis, was, first, second) =>
      if k == 0 then Split(axis, ratio, first, second)
      else if k - 1 < SplitCount(first) then Split(axis, was, Resized(first, k - 1, ratio), second)
      else Split(axis, was, first, Resized(second, k - 1 - SplitCount(first), ratio))
  }

  predicate Differs(a: real, b: real) {
    (if a < b then b - a else a - b) > EPSILON
  }

  /** Walk the tree counting splits; set the ratio of the one whose number is `target`. */
  method ResizeSplitNode(node: PaneNode, target: nat, candidate: real, nextDividerId: nat)
    returns (after: PaneNode, changed: Option<bool>, next: nat)
    ensures nextDividerId <= target < nextDividerId + SplitCount(node) ==>
      && after == Resized(node, target - nextDividerId, candidate)
      && target - nextDividerId < |Splits(node)|
      && changed == Some(Differs(Splits(node)[target - nextDividerId].1, candidate))
    ensures !(nextDividerId <= target < nextDividerId + SplitCount(node)) ==>
      after == node && changed == None && next == nextDividerId + SplitCount(node)
    decreases node
  {
    match node
    case Leaf(_) =>
      return node, None, nextDividerId;
    case Split(axis, ratio, first, second) =>
      SplitsAreCounted(first);
      SplitsAreCounted(second);
      if nextDividerId == target {
        return Split(axis, candidate, first, second), Some(Differs(ratio, candidate)), nextDividerId + 1;
      }
      var inFirst, found, n := ResizeSplitNode(first, target, candidate, nextDividerId + 1);
      if found.Some? {
        return Split(axis, ratio, inFirst, second), found, n;
      }
      var inSecond, foundSecond, m := ResizeSplitNode(second, target, candidate, n);
      return Split(axis, ratio, inFirst, inSecond), foundSecond, m;
  }

  lemma {:induction false} SplitsAreCounted(node: PaneNode)
    ensures |Splits(node)| == SplitCount(node)
  {
    match node
    case Leaf(_) =>
    case Split(_, _, first, second) =>
      SplitsAreCounted(first);
      SplitsAreCounted(second);
  }

  lemma {:induction false} SameShapeIsReflexive(node: PaneNode)
    ensures SameShape(node, node)
  {
    match node
    case Leaf(_) =>
    case Split(_, _, first, second) =>
      SameShapeIsReflexive(first);
      SameShapeIsReflexive(second);
  }

  lemma {:induction false} SameShapeKeepsIds(a: PaneNode, b: PaneNode)
    requires SameShape(a, b)
    ensures TabIds(a) == TabIds(b) && SplitCount(a) == SplitCount(b)
  {
    match (a, b)
    case (Leaf(_), Leaf(_)) =>
    case (Split(_, _, a1, a2), Split(_, _, b1, b2)) =>
      SameShapeKeepsIds(a1, b1);
      SameShapeKeepsIds(a2, b2);
  }

  lemma {:induction false} ResizeChangesOneRatio(node: PaneNode, k: nat, ratio: real)
    requires k < SplitCount(node) && |Splits(node)| == SplitCount(node)
    ensures Splits(Resized(node, k, ratio)) == Splits(node)[k := (Splits(node)[k].0, ratio)]
    ensures SameShape(node, Resized(node, k, ratio))
    ensures RatiosOk(node) && RatioOk(ratio) ==> RatiosOk(Resized(node, k, ratio))
  {
    var Split(axis, was, first, second) := node;
    SplitsAreCounted(first);
    SplitsAreCounted(second);
    SameShapeIsReflexive(first);
    SameShapeIsReflexive(second);
    if 0 < k <= SplitCount(first) {
      ResizeChangesOneRatio(first, k - 1, ratio);
      assert (Splits(first) + Splits(second))[k - 1] == Splits(first)[k - 1];
    } else if k > 0 {
      ResizeChangesOneRatio(second, k - 1 - SplitCount(first), ratio);
      assert (Splits(first) + Splits(second))[k - 1] == Splits(second)[k - 1 - SplitCount(first)];
    }
  }

  /** Panes either stay where they are or move inside `area`. */
  ghost predicate MovesWithin(ps: seq<PanePlacement>, qs: seq<PanePlacement>, area: PaneRect) {
    && |ps| == |qs|
    && forall i :: 0 <= i < |ps| ==> ps[i] == qs[i] || (ps[i].rect.Within(area) && qs[i].rect.Within(area))
  }

  lemma MovesBeside(left: seq<PanePlacement>, ps: seq<PanePlacement>, qs: seq<PanePlacement>,
                    right: seq<PanePlacement>, area: PaneRect)
    requires MovesWithin(ps, qs, area)
    ensures MovesWithin(left + ps, left + qs, area) && MovesWithin(ps + right, qs + right, area)
  {
  }

  lemma RootResizeStaysInside(node: PaneNode, ratio: real, rect: PaneRect, focused: Uuid)
    requires RatiosOk(node) && RatioOk(ratio) && rect.Positive() && node.Split?
    ensures MovesWithin(Placed(node, rect, focused), Placed(Resized(node, 0, ratio), rect, focused), rect)
  {
    hide Placed;
    PanesStayInside(node, rect, focused);
    PanesStayInside(Resized(node, 0, ratio), rect, focused);
    PanesAreInTabOrder(node, rect, focused);
    PanesAreInTabOrder(Resized(node, 0, ratio), rect, focused);
  }

  /** Which part of a split tree, and which of its dividers, a resize of divider `k > 0` concerns. */
  lemma ResizedPart(node: PaneNode, k: nat, ratio: real, rect: PaneRect, focused: Uuid, next: nat)
    requires node.Split? && 0 < k < SplitCount(node)
    ensures var a, b := FirstRect(node.axis, node.ratio, rect), SecondRect(node.axis, node.ratio, rect);
      var n := SplitCount(node.first);
      && |Dividers(node.first, a, next + 1)| == n && |Dividers(node.second, b, next + 1 + n)| == SplitCount(node.second)
      && |Dividers(node, rect, next)| == SplitCount(node)
      && Placed(node, rect, focused) == Placed(node.first, a, focused) + Placed(node.second, b, focused)
      && (if k - 1 < n then
            && Placed(Resized(node, k, ratio), rect, focused)
               == Placed(Resized(node.first, k - 1, ratio), a, focused) + Placed(node.second, b, focused)
            && Dividers(node, rect, next)[k] == Dividers(node.first, a, next + 1)[k - 1]
          else
            && Placed(Resized(node, k, ratio), rect, focused)
               == Placed(node.first, a, focused) + Placed(Resized(node.second, k - 1 - n, ratio), b, focused)
            && Dividers(node, rect, next)[k] == Dividers(node.second, b, next + 1 + n)[k - 1 - n])
  {
    hide FirstRect, SecondRect, Labelled, Splits, TabIds;
    DividersAreNumberedInPreorder(node.first, FirstRect(node.axis, node.ratio, rect), next + 1);
    DividersAreNumberedInPreorder(node.second, SecondRect(node.axis, node.ratio, rect),
        next + 1 + SplitCount(node.first));
    DividersAreNumberedInPreorder(node, rect, next);
  }

  /** Dragging divider `k` moves no pane outside the rectangle that divider is drawn in. */
  lemma {:induction false} ResizeStaysInsideItsDivider(node: PaneNode, k: nat, ratio: real, rect: PaneRect,
                                                       focused: Uuid, next: nat)
    requires RatiosOk(node) && RatioOk(ratio) && rect.Positive()
    requires k < SplitCount(node) == |Dividers(node, rect, next)|
    ensures MovesWithin(Placed(node, rect, focused), Placed(Resized(node, k, ratio), rect, focused),
              Dividers(node, rect, next)[k].rect)
  {
    var Split(axis, was, first, second) := node;
    if k == 0 {
      RootResizeStaysInside(node, ratio, rect, focused);
    } else {
      var a, b, n := FirstRect(axis, was, rect), SecondRect(axis, was, rect), SplitCount(first);
      SplitRects(axis, was, rect);
      ResizedPart(node, k, ratio, rect, focused, next);
      hide FirstRect, SecondRect, TabIds, MovesWithin, Placed, Resized, Dividers;
      var left, right := Placed(first, a, focused), Placed(second, b, focused);
      if k - 1 < n {
        ResizeStaysInsideItsDivider(first, k - 1, ratio, a, focused, next + 1);
        MovesBeside([], left, Placed(Resized(first, k - 1, ratio), a, focused), right,
            Dividers(node, rect, next)[k].rect);
      } else {
        ResizeStaysInsideItsDivider(second, k - 1 - n, ratio, b, focused, next + 1 + n);
        MovesBeside(left, right, Placed(Resized(second, k - 1 - n, ratio), b, focused), [],
            Dividers(node, rect, next)[k].rect);
      }
    }
  }

  // ----- Splitting and removing -----

  /** The first leaf `source` split in two, and whether there is one. */
  function ReplaceLeafWithSplit(node: PaneNode, source: Uuid, direction: PaneDirection, newId: Uuid): (PaneNode, bool) {
    match node
    case Leaf(id) =>
      if id != source then (node, false)
      else if direction.IsBefore() then
        (Split(direction.SplitAxis(), DEFAULT_PANE_SPLIT_RATIO, Leaf(newId), Leaf(id)), true)
      else (Split(direction.SplitAxis(), DEFAULT_PANE_SPLIT_RATIO, Leaf(id), Leaf(newId)), true)
    case Split(axis, ratio, first, second) =>
      var (first', done) := ReplaceLeafWithSplit(first, source, direction, newId);
      if done then (Split(axis, ratio, first', second), true)
      else
        var (second', done') := ReplaceLeafWithSplit(second, source, direction, newId);
        (Split(axis, ratio, first', second'), done')
  }

  function RemoveLeaf(node: PaneNode, tabId: Uuid): Option<PaneNode> {
    match node
    case Leaf(id) => if id != tabId then Some(node) else None
    case Split(axis, ratio, first, second) =>
      match (RemoveLeaf(first, tabId), RemoveLeaf(second, tabId))
      case (Some(first'), Some(second')) => Some(Split(axis, ratio, first', second'))
      case (Some(rest), None) => Some(rest)
      case (None, Some(rest)) => Some(rest)
      case (None, None) => None
  }

  /** Removing a pane keeps the others, in order; nothing is left only if it was alone. */
  lemma {:induction false} RemoveKeepsTheOthers(node: PaneNode, tabId: Uuid)
    ensures match RemoveLeaf(node, tabId)
      case None => Without(TabIds(node), tabId) == []
      case Some(rest) => TabIds(rest) == Without(TabIds(node), tabId) && (RatiosOk(node) ==> RatiosOk(rest))
  {
    match node
    case Leaf(id) =>
    case Split(_, _, first, second) =>
      RemoveKeepsTheOthers(first, tabId);
      RemoveKeepsTheOthers(second, tabId);
      WithoutAppend(TabIds(first), TabIds(second), tabId);
  }

  lemma {:induction false} RemoveAbsent(node: PaneNode, tabId: Uuid)
    requires tabId !in TabIds(node)
    ensures RemoveLeaf(node, tabId) == Some(node)
  {
    match node
    case Leaf(id) =>
    case Split(_, _, first, second) =>
      RemoveAbsent(first, tabId);
      RemoveAbsent(second, tabId);
  }

  lemma {:induction false} SplitNeedsTheSource(node: PaneNode, source: Uuid, direction: PaneDirection, newId: Uuid)
    ensures ReplaceLeafWithSplit(node, source, direction, newId).1 <==> source in TabIds(node)
    ensures source !in TabIds(node) ==> ReplaceLeafWithSplit(node, source, direction, newId).0 == node
    ensures RatiosOk(node) ==> RatiosOk(ReplaceLeafWithSplit(node, source, direction, newId).0)
  {
    match node
    case Leaf(id) =>
    case Split(_, _, first, second) =>
      SplitNeedsTheSource(first, source, direction, newId);
      SplitNeedsTheSource(second, source, direction, newId);
  }

  /** `newId` stands right before or right after `source` in the order of panes. */
  ghost predicate InsertedBeside(ids: seq<Uuid>, after: seq<Uuid>, source: Uuid, newId: Uuid, before: bool) {
    exists i :: InsertedAt(ids, after, source, newId, before, i)
  }

  ghost predicate InsertedAt(ids: seq<Uuid>, after: seq<Uuid>, source: Uuid, newId: Uuid, before: bool, i: int) {
    && 0 <= i < |ids| && ids[i] == source
    && after == ids[..i] + (if before then [newId, source] else [source, newId]) + ids[i + 1..]
  }

  lemma {:induction false} SplitInsertsBesideTheSource(node: PaneNode, source: Uuid, direction: PaneDirection,
                                                       newId: Uuid)
    returns (i: int)
    requires source in TabIds(node)
    ensures InsertedAt(TabIds(node), TabIds(ReplaceLeafWithSplit(node, source, direction, newId).0), source, newId,
              direction.IsBefore(), i)
  {
    hide InsertedAt;
    match node
    case Leaf(id) =>
      i := 0;
      InsertedAtLeaf(source, newId, direction.IsBefore());
      assert [newId] + [source] == [newId, source] && [source] + [newId] == [source, newId];
    case Split(_, _, first, second) =>
      SplitNeedsTheSource(first, source, direction, newId);
      if source in TabIds(first) {
        i := SplitInsertsBesideTheSource(first, source, direction, newId);
        InsertedOnTheLeft(TabIds(first), TabIds(ReplaceLeafWithSplit(first, source, direction, newId).0),
                          TabIds(second), source, newId, direction.IsBefore(), i);
      } else {
        var j := SplitInsertsBesideTheSource(second, source, direction, newId);
        i := |TabIds(first)| + j;
        InsertedOnTheRight(TabIds(first), TabIds(second),
                           TabIds(ReplaceLeafWithSplit(second, source, direction, newId).0),
                           source, newId, direction.IsBefore(), j);
      }
  }

  lemma InsertedAtLeaf(source: Uuid, newId: Uuid, before: bool)
    ensures InsertedAt([source], if before then [newId, source] else [source, newId], source, newId, before, 0)
  {
  }

  lemma InsertedOnTheLeft(xs: seq<Uuid>, after: seq<Uuid>, ys: seq<Uuid>, source: Uuid, newId: Uuid, before: bool,
                          i: int)
    requires InsertedAt(xs, after, source, newId, before, i)
    ensures InsertedAt(xs + ys, after + ys, source, newId, before, i)
  {
    assert (xs + ys)[..i] == xs[..i] && (xs + ys)[i + 1..] == xs[i + 1..] + ys;
    Associative(xs[..i] + (if before then [newId, source] else [source, newId]), xs[i + 1..], ys);
  }

  lemma InsertedOnTheRight(xs: seq<Uuid>, ys: seq<Uuid>, after: seq<Uuid>, source: Uuid, newId: Uuid, before: bool,
                           j: int)
    requires InsertedAt(ys, after, source, newId, before, j)
    ensures InsertedAt(xs + ys, xs + after, source, newId, before, |xs| + j)
  {
    var pair := if before then [newId, source] else [source, newId];
    assert (xs + ys)[..|xs| + j] == xs + ys[..j] && (xs + ys)[|xs| + j + 1..] == ys[j + 1..];
    Associative(xs, ys[..j], pair);
    Associative(xs, ys[..j] + pair, ys[j + 1..]);
  }

  /** Removing the pane just split in gives back the same tree. */
  lemma {:induction false} RemoveUndoesSplit(node: PaneNode, source: Uuid, direction: PaneDirection, newId: Uuid)
    requires newId !in TabIds(node)
    ensures RemoveLeaf(ReplaceLeafWithSplit(node, source, direction, newId).0, newId) == Some(node)
  {
    match node
    case Leaf(id) =>
    case Split(_, _, first, second) =>
      RemoveUndoesSplit(first, source, direction, newId);
      RemoveUndoesSplit(second, source, direction, newId);
      RemoveAbsent(second, newId);
  }

  /** The rectangle of a pane. */
  function PlaceOf(node: PaneNode, rect: PaneRect, id: Uuid): PaneRect
    requires id in TabIds(node)
  {
    match node
    case Leaf(_) => rect
    case Split(axis, ratio, first, second) =>
      if id in TabIds(first) then PlaceOf(first, FirstRect(axis, ratio, rect), id)
      else PlaceOf(second, SecondRect(axis, ratio, rect), id)
  }

  lemma {:induction false} PlaceOfPlacement(node: PaneNode, rect: PaneRect, focused: Uuid, i: nat)
    requires Distinct(TabIds(node)) && i < |Placed(node, rect, focused)|
    ensures var p := Placed(node, rect, focused)[i]; p.tabId in TabIds(node) && PlaceOf(node, rect, p.tabId) == p.rect
  {
    match node
    case Leaf(_) =>
    case Split(axis, ratio, first, second) =>
      var a, b := FirstRect(axis, ratio, rect), SecondRect(axis, ratio, rect);
      var xs, ys := TabIds(first), TabIds(second);
      PanesAreInTabOrder(first, a, focused);
      PanesAreInTabOrder(second, b, focused);
      assert Distinct(xs) by { assert forall k :: 0 <= k < |xs| ==> (xs + ys)[k] == xs[k]; }
      assert Distinct(ys) by { assert forall k :: 0 <= k < |ys| ==> (xs + ys)[|xs| + k] == ys[k]; }
      if i < |xs| {
        PlaceOfPlacement(first, a, focused, i);
      } else {
        PlaceOfPlacement(second, b, focused, i - |xs|);
        assert (xs + ys)[i] == ys[i - |xs|];
        assert forall k :: 0 <= k < |xs| ==> (xs + ys)[k] == xs[k];
      }
  }

  predicate AtLeast(a: PaneRect, b: PaneRect) {
    a.width >= b.width && a.height >= b.height
  }

  lemma BiggerParts(axis: SplitAxis, ratio: real, small: PaneRect, big: PaneRect)
    requires small.Positive() && AtLeast(big, small) && RatioOk(ratio)
    ensures AtLeast(FirstRect(axis, ratio, big), FirstRect(axis, ratio, small))
    ensures AtLeast(SecondRect(axis, ratio, big), SecondRect(axis, ratio, small))
    ensures AtLeast(big, FirstRect(axis, ratio, small)) && AtLeast(big, SecondRect(axis, ratio, small))
  {
    hide Part;
    SplitRects(axis, ratio, small);
    BiggerPart(small.width, big.width, ratio);
    BiggerPart(small.height, big.height, ratio);
    BiggerPart(small.width, big.width, 1.0 - ratio);
    BiggerPart(small.height, big.height, 1.0 - ratio);
  }

  lemma BiggerPart(a: real, b: real, ratio: real)
    requires a <= b && ratio > 0.0
    ensures Part(a, ratio) <= Part(b, ratio)
  {
    assert (b - a) * ratio >= 0.0;
    assert b * ratio == a * ratio + (b - a) * ratio;
  }

  /** No surviving pane gets narrower or shorter. */
  lemma {:induction false} RemoveNeverShrinks(node: PaneNode, tabId: Uuid, keep: Uuid, rect: PaneRect, big: PaneRect)
    requires RatiosOk(node) && rect.Positive() && AtLeast(big, rect)
    requires keep != tabId && keep in TabIds(node) && RemoveLeaf(node, tabId).Some?
    ensures keep in TabIds(RemoveLeaf(node, tabId).value)
    ensures AtLeast(PlaceOf(RemoveLeaf(node, tabId).value, big, keep), PlaceOf(node, rect, keep))
  {
    RemoveKeepsTheOthers(node, tabId);
    match node
    case Leaf(_) =>
    case Split(axis, ratio, first, second) =>
      var a, b := FirstRect(axis, ratio, rect), SecondRect(axis, ratio, rect);
      SplitRects(axis, ratio, rect);
      BiggerParts(axis, ratio, rect, big);
      RemoveKeepsTheOthers(first, tabId);
      RemoveKeepsTheOthers(second, tabId);
      hide FirstRect, SecondRect;
      if keep in TabIds(first) {
        RemoveNeverShrinks(first, tabId, keep, a,
                           if RemoveLeaf(second, tabId).Some? then FirstRect(axis, ratio, big) else big);
      } else {
        RemoveNeverShrinks(second, tabId, keep, b,
                           if RemoveLeaf(first, tabId).Some? then SecondRect(axis, ratio, big) else big);
      }
  }

  // ----- Snapshots -----

  datatype PaneNodeSnapshot =
    | SavedLeaf(id: Uuid)
    | SavedSplit(axis: string, ratioMilli: nat, first: PaneNodeSnapshot, second: PaneNodeSnapshot)

  /** Round half away from zero, then saturate to 16 bits. */
  function RoundToU16(x: real): nat {
    if x < 0.0 then 0
    else if (x + 0.5).Floor > 65535 then 65535
    else (x + 0.5).Floor
  }

  function SnapshotNode(node: PaneNode): PaneNodeSnapshot {
    match node
    case Leaf(id) => SavedLeaf(id)
    case Split(axis, ratio, first, second) =>
      SavedSplit(if axis == Columns then "columns" else "rows", RoundToU16(ratio * 1000.0),
                 SnapshotNode(first), SnapshotNode(second))
  }

  function RestoreNode(saved: PaneNodeSnapshot): Option<PaneNode> {
    match saved
    case SavedLeaf(id) => Some(Leaf(id))
    case SavedSplit(axis, ratioMilli, first, second) =>
      var ratio := ratioMilli as real / 1000.0;
      if axis != "columns" && axis != "rows" then None
      else if !RatioOk(ratio) then None
      else match (RestoreNode(first), RestoreNode(second))
        case (Some(first'), Some(second')) =>
          Some(Split(if axis == "columns" then Columns else Rows, ratio, first', second'))
        case _ => None
  }

  /** The identifiers of a snapshot, in order. */
  function SavedIds(saved: PaneNodeSnapshot): (ids: seq<Uuid>)
    ensures |ids| >= 1
  {
    match saved
    case SavedLeaf(id) => [id]
    case SavedSplit(_, _, first, second) => SavedIds(first) + SavedIds(second)
  }

  /** Every axis is known, and every ratio from 100 to 900 thousandths. */
  predicate WellSaved(saved: PaneNodeSnapshot) {
    match saved
    case SavedLeaf(_) => true
    case SavedSplit(axis, ratioMilli, first, second) =>
      (axis == "columns" || axis == "rows") && 100 <= ratioMilli <= 900 && WellSaved(first) && WellSaved(second)
  }

  /** A snapshot restores exactly when it is well saved, and then with its identifiers. */
  lemma {:induction false} RestoresIff(saved: PaneNodeSnapshot)
    ensures RestoreNode(saved).Some? <==> WellSaved(saved)
    ensures RestoreNode(saved).Some? ==> TabIds(RestoreNode(saved).value) == SavedIds(saved)
  {
    match saved
    case SavedLeaf(_) =>
    case SavedSplit(_, _, first, second) =>
      RestoresIff(first);
      RestoresIff(second);
  }

  lemma {:induction false} SnapshotKeepsIds(node: PaneNode)
    ensures SavedIds(SnapshotNode(node)) == TabIds(node)
  {
    match node
    case Leaf(_) =>
    case Split(_, _, first, second) =>
      SnapshotKeepsIds(first);
      SnapshotKeepsIds(second);
  }

  /** The same tree, with every ratio within `tolerance`. */
  predicate Close(a: PaneNode, b: PaneNode, tolerance: real) {
    match (a, b)
    case (Leaf(i), Leaf(j)) => i == j
    case (Split(p, r, a1, a2), Split(q, s, b1, b2)) =>
      p == q && -tolerance <= r - s <= tolerance && Close(a1, b1, tolerance) && Close(a2, b2, tolerance)
    case _ => false
  }

  lemma MilliRoundTrip(ratio: real)
    requires RatioOk(ratio)
    ensures var milli := RoundToU16(ratio * 1000.0); var back := milli as real / 1000.0;
      && RatioOk(back) && -0.0005 <= ratio - back <= 0.0005
      && RoundToU16(back * 1000.0) == milli
  {
    var milli := (ratio * 1000.0 + 0.5).Floor;
    assert 100 <= milli <= 900;
    assert (milli as real + 0.5).Floor == milli;
  }

  /** Saving and restoring keeps the tree up to half a thousandth, and saving again gives the same. */
  lemma {:induction false} SnapshotRoundTrips(node: PaneNode)
    requires RatiosOk(node)
    ensures var back := RestoreNode(SnapshotNode(node));
      && back.Some? && RatiosOk(back.value)
      && Close(node, back.value, 0.0005)
      && SnapshotNode(back.value) == SnapshotNode(node)
  {
    match node
    case Leaf(_) =>
    case Split(axis, ratio, first, second) =>
      MilliRoundTrip(ratio);
      SnapshotRoundTrips(first);
      SnapshotRoundTrips(second);
  }

  /** Whatever snapshot restores is the snapshot of what it restores to. */
  lemma {:induction false} RestoreRoundTrips(saved: PaneNodeSnapshot)
    requires RestoreNode(saved).Some?
    ensures SnapshotNode(RestoreNode(saved).value) == saved
    ensures RatiosOk(RestoreNode(saved).value)
  {
    match saved
    case SavedLeaf(_) =>
    case SavedSplit(axis, ratioMilli, first, second) =>
      RestoreRoundTrips(first);
      RestoreRoundTrips(second);
      assert (ratioMilli as real + 0.5).Floor == ratioMilli;
  }

  lemma {:induction false} CloseKeepsIds(a: PaneNode, b: PaneNode, tolerance: real)
    requires Close(a, b, tolerance)
    ensures TabIds(a) == TabIds(b)
  {
    match (a, b)
    case (Leaf(_), Leaf(_)) =>
    case (Split(_, _, a1, a2), Split(_, _, b1, b2)) =>
      CloseKeepsIds(a1, b1, tolerance);
      CloseKeepsIds(a2, b2, tolerance);
  }

  // ----- Moving the focus -----

  function Max(a: real, b: real): real { if a >= b then a else b }
  function Min(a: real, b: real): real { if a <= b then a else b }
  function Abs(a: real): real { if a < 0.0 then -a else a }

  function VerticalOverlap(a: PaneRect, b: PaneRect): real {
    Max(Min(a.Bottom(), b.Bottom()) - Max(a.y, b.y), 0.0)
  }

  function HorizontalOverlap(a: PaneRect, b: PaneRect): real {
    Max(Min(a.Right(), b.Right()) - Max(a.x, b.x), 0.0)
  }

  /** How far `candidate` is in that direction, if its centre lies there at all. */
  function DirectionalDistance(current: PaneRect, candidate: PaneRect, direction: PaneDirection): Option<real> {
    match direction
    case Left =>
      if candidate.CenterX() < current.CenterX() - 0.0001
      then Some(Max(current.x - candidate.Right(), 0.0) * 10000.0 - VerticalOverlap(current, candidate) * 10.0 +
          Abs(current.CenterY() - candidate.CenterY()))
      else None
    case Right =>
      if candidate.CenterX() > current.CenterX() + 0.0001
      then Some(Max(candidate.x - current.Right(), 0.0) * 10000.0 - VerticalOverlap(current, candidate) * 10.0 +
          Abs(current.CenterY() - candidate.CenterY()))
      else None
    case Up =>
      if candidate.CenterY() < current.CenterY() - 0.0001
      then Some(Max(current.y - candidate.Bottom(), 0.0) * 10000.0 - HorizontalOverlap(current, candidate) * 10.0 +
          Abs(current.CenterX() - candidate.CenterX()))
      else None
    case Down =>
      if candidate.CenterY() > current.CenterY() + 0.0001
      then Some(Max(candidate.y - current.Bottom(), 0.0) * 10000.0 - HorizontalOverlap(current, candidate) * 10.0 +
          Abs(current.CenterX() - candidate.CenterX()))
      else None
  }

  /** Placement `n` is a candidate at the least distance. */
  ghost predicate IsNearest(ps: seq<PanePlacement>, here: PaneRect, direction: PaneDirection, focused: Uuid, n: nat) {
    && n < |ps| && ps[n].tabId != focused && DirectionalDistance(here, ps[n].rect, direction).Some?
    && forall k :: 0 <= k < |ps| && ps[k].tabId != focused && DirectionalDistance(here, ps[k].rect, direction).Some? ==>
         DirectionalDistance(here, ps[n].rect, direction).value <=
         DirectionalDistance(here, ps[k].rect, direction).value
  }

  ghost predicate IsFirstAtItsDistance(ps: seq<PanePlacement>, here: PaneRect, direction: PaneDirection, focused: Uuid,
                                       n: nat) {
    && n < |ps|
    && forall k :: 0 <= k < n && ps[k].tabId != focused ==>
         DirectionalDistance(here, ps[k].rect, direction) != DirectionalDistance(here, ps[n].rect, direction)
  }

  lemma PlacementsArePlaces(root: PaneNode, focused: Uuid)
    requires Distinct(TabIds(root))
    ensures var ps := Placed(root, UNIT, focused);
      |ps| == |TabIds(root)| && forall i :: 0 <= i < |ps| ==>
        ps[i].tabId == TabIds(root)[i] && ps[i].rect == PlaceOf(root, UNIT, TabIds(root)[i])
  {
    PanesAreInTabOrder(root, UNIT, focused);
    forall i | 0 <= i < |Placed(root, UNIT, focused)|
      ensures Placed(root, UNIT, focused)[i].rect == PlaceOf(root, UNIT, TabIds(root)[i])
    {
      PlaceOfPlacement(root, UNIT, focused, i);
    }
  }

  method IndexOfTab(ps: seq<PanePlacement>, tabId: Uuid) returns (at: nat)
    requires exists k :: 0 <= k < |ps| && ps[k].tabId == tabId
    ensures at < |ps| && ps[at].tabId == tabId
  {
    at := 0;
    while ps[at].tabId != tabId
      invariant 0 <= at < |ps|
      invariant exists k :: at <= k < |ps| && ps[k].tabId == tabId
      decreases |ps| - at
    {
      at := at + 1;
    }
  }

  /** The first placement at the least distance in that direction, other than the focused one. */
  method Nearest(ps: seq<PanePlacement>, here: PaneRect, direction: PaneDirection, focused: Uuid)
    returns (next: Option<nat>)
    ensures next.None? ==> forall k :: 0 <= k < |ps| && ps[k].tabId != focused ==>
            DirectionalDistance(here, ps[k].rect, direction).None?
    ensures next.Some? ==> IsNearest(ps, here, direction, focused, next.value)
    ensures next.Some? ==> IsFirstAtItsDistance(ps, here, direction, focused, next.value)
  {
    hide DirectionalDistance;
    next := None;
    for i := 0 to |ps|
      invariant next.None? ==> forall k :: 0 <= k < i && ps[k].tabId != focused ==>
                DirectionalDistance(here, ps[k].rect, direction).None?
      invariant next.Some? ==> next.value < i && IsNearest(ps[..i], here, direction, focused, next.value)
      invariant next.Some? ==> IsFirstAtItsDistance(ps, here, direction, focused, next.value)
    {
      var distance := DirectionalDistance(here, ps[i].rect, direction);
      if ps[i].tabId != focused && distance.Some?
         && (next.None? || distance.value < DirectionalDistance(here, ps[next.value].rect, direction).value) {
        assert next.Some? ==> forall k :: 0 <= k < i ==> ps[..i][k] == ps[k];
        next := Some(i);
      }
    }
    assert ps[..|ps|] == ps;
  }

  // ----- The tree object -----

  /** A ratio as the caller passes it: possibly NaN or infinite. */
  datatype Ratio = Finite(value: real) | NotFinite

  predicate ValidTree(root: PaneNode, focused: Uuid) {
    Distinct(TabIds(root)) && focused in TabIds(root) && |TabIds(root)| <= MAX_TERMINAL_PANES && RatiosOk(root)
  }

  class PaneTree {
    const workspaceTabId: Uuid
    var root: PaneNode
    var focusedTabId: Uuid

    predicate Valid()
      reads this
    {
      ValidTree(root, focusedTabId)
    }

    constructor (tabId: Uuid)
      ensures Valid() && workspaceTabId == tabId && root == Leaf(tabId) && focusedTabId == tabId
    {
      workspaceTabId, root, focusedTabId := tabId, Leaf(tabId), tabId;
    }

    constructor Restored(workspaceTabId: Uuid, root: PaneNode, focusedTabId: Uuid)
      ensures this.workspaceTabId == workspaceTabId && this.root == root && this.focusedTabId == focusedTabId
    {
      this.workspaceTabId, this.root, this.focusedTabId := workspaceTabId, root, focusedTabId;
    }

    method SetFocused(tabId: Uuid) returns (done: bool)
      requires Valid()
      modifies this`focusedTabId
      ensures Valid()
      ensures done <==> tabId in TabIds(root)
      ensures focusedTabId == if done then tabId else old(focusedTabId)
    {
      if tabId !in TabIds(root) {
        return false;
      }
      focusedTabId := tabId;
      return true;
    }

    method Layout() returns (panes: seq<PanePlacement>, dividers: seq<PaneDividerPlacement>)
      ensures panes == Placed(root, UNIT, focusedTabId) && dividers == Dividers(root, UNIT, 0)
    {
      var builder := new LayoutBuilder();
      builder.CollectLayout(root, UNIT, focusedTabId);
      return builder.placements, builder.dividers;
    }

    /** Set the ratio of the divider the layout labels `dividerId`. */
    method ResizeSplit(dividerId: int, ratio: Ratio) returns (changed: bool)
      requires Valid()
      modifies this`root
      ensures Valid()
      ensures |Splits(old(root))| == SplitCount(old(root))
      ensures if ratio.Finite? && 0 <= dividerId < SplitCount(old(root))
        then root == Resized(old(root), dividerId, Clamped(ratio.value))
             && changed == Differs(Splits(old(root))[dividerId].1, Clamped(ratio.value))
        else root == old(root) && !changed
    {
      SplitsAreCounted(root);
      if dividerId < 0 || ratio.NotFinite? {
        return false;
      }
      var after, found, _ := ResizeSplitNode(root, dividerId, Clamped(ratio.value), 0);
      changed := found.Some? && found.value;
      if dividerId < SplitCount(root) {
        ResizeChangesOneRatio(root, dividerId, Clamped(ratio.value));
        SameShapeKeepsIds(root, after);
      }
      root := after;
    }

    /** Split the focused pane and focus the new one. */
    method SplitFocused(direction: PaneDirection, newTabId: Uuid) returns (done: bool)
      requires Valid()
      modifies this`root, this`focusedTabId
      ensures Valid()
      ensures done <==> |TabIds(old(root))| < MAX_TERMINAL_PANES && newTabId !in TabIds(old(root))
      ensures !done ==> unchanged(this)
      ensures done ==> root == ReplaceLeafWithSplit(old(root), old(focusedTabId), direction, newTabId).0
      ensures done ==> focusedTabId == newTabId && RemoveLeaf(root, newTabId) == Some(old(root))
      ensures done ==>
        InsertedBeside(TabIds(old(root)), TabIds(root), old(focusedTabId), newTabId, direction.IsBefore())
    {
      if |TabIds(root)| >= MAX_TERMINAL_PANES || newTabId in TabIds(root) {
        return false;
      }
      var source := focusedTabId;
      SplitNeedsTheSource(root, source, direction, newTabId);
      ghost var i := SplitInsertsBesideTheSource(root, source, direction, newTabId);
      RemoveUndoesSplit(root, source, direction, newTabId);
      ghost var was := root;
      var (after, replaced) := ReplaceLeafWithSplit(root, source, direction, newTabId);
      InsertedStaysDistinct(TabIds(root), TabIds(after), source, newTabId, direction.IsBefore(), i);
      root := after;
      focusedTabId := newTabId;
      return true;
    }

    /** Move the focus to the nearest pane in a direction; the first in pane order if several are. */
    method FocusDirection(direction: PaneDirection) returns (moved: Option<Uuid>)
      requires Valid()
      modifies this`focusedTabId
      ensures Valid()
      ensures var here := PlaceOf(root, UNIT, old(focusedTabId));
        match moved
        case None =>
          && focusedTabId == old(focusedTabId)
          && forall id :: id in TabIds(root) && id != old(focusedTabId) ==>
               DirectionalDistance(here, PlaceOf(root, UNIT, id), direction).None?
        case Some(to) =>
          && focusedTabId == to && to in TabIds(root) && to != old(focusedTabId)
          && var best := DirectionalDistance(here, PlaceOf(root, UNIT, to), direction);
          && best.Some?
          && forall id :: id in TabIds(root) && id != old(focusedTabId) ==>
               var other := DirectionalDistance(here, PlaceOf(root, UNIT, id), direction);
               other.Some? ==> best.value <= other.value
    {
      var placements, _ := Layout();
      PlacementsArePlaces(root, focusedTabId);
      hide DirectionalDistance, Placed, PlaceOf;
      var at := IndexOfTab(placements, focusedTabId);
      var next := Nearest(placements, placements[at].rect, direction, focusedTabId);
      assert forall id :: id in TabIds(root) ==>
             exists k :: 0 <= k < |placements| && placements[k].tabId == id
               && placements[k].rect == PlaceOf(root, UNIT, id);
      if next.None? {
        return None;
      }
      focusedTabId := placements[next.value].tabId;
      return Some(focusedTabId);
    }

    /** Remove a pane; `None` when it is the only one, and then nothing changes. */
    method Remove(tabId: Uuid) returns (focus: Option<Uuid>)
      requires Valid()
      modifies this`root, this`focusedTabId
      ensures Valid()
      ensures tabId !in TabIds(old(root)) ==> unchanged(this) && focus == Some(focusedTabId)
      ensures focus.None? <==> TabIds(old(root)) == [tabId]
      ensures focus.None? ==> unchanged(this)
      ensures focus.Some? ==>
        && RemoveLeaf(old(root), tabId) == Some(root)
        && TabIds(root) == Without(TabIds(old(root)), tabId)
        && focus == Some(focusedTabId)
        && focusedTabId == if old(focusedTabId) == tabId then TabIds(root)[0] else old(focusedTabId)
    {
      RemoveKeepsTheOthers(root, tabId);
      WithoutKeepsDistinct(TabIds(root), tabId);
      if tabId !in TabIds(root) {
        RemoveAbsent(root, tabId);
        WithoutAbsent(TabIds(root), tabId);
        return Some(focusedTabId);
      }
      var rest := RemoveLeaf(root, tabId);
      if rest.None? {
        OnlyOneWasThere(TabIds(root), tabId);
        return None;
      }
      root := rest.value;
      if focusedTabId == tabId {
        FirstIsFirst(root);
        focusedTabId := FirstTabId(root);
      }
      return Some(focusedTabId);
    }

    method Snapshot() returns (saved: PaneNodeSnapshot)
      ensures saved == SnapshotNode(root) && SavedIds(saved) == TabIds(root)
      // A valid tree's snapshot restores to the tree, up to half a thousandth in the ratios.
      ensures Valid() ==> RestoreNode(saved).Some? && Close(root, RestoreNode(saved).value, 0.0005)
    {
      saved := SnapshotNode(root);
      SnapshotKeepsIds(root);
      if Valid() {
        SnapshotRoundTrips(root);
      }
    }
  }

  function FirstTabId(node: PaneNode): Uuid {
    match node
    case Leaf(id) => id
    case Split(_, _, first, _) => FirstTabId(first)
  }

  lemma {:induction false} FirstIsFirst(node: PaneNode)
    ensures FirstTabId(node) == TabIds(node)[0]
  {
    match node
    case Leaf(_) =>
    case Split(_, _, first, second) => FirstIsFirst(first);
  }

  lemma InsertedStaysDistinct(ids: seq<Uuid>, after: seq<Uuid>, source: Uuid, newId: Uuid, before: bool, i: int)
    requires Distinct(ids) && newId !in ids && InsertedAt(ids, after, source, newId, before, i)
    ensures Distinct(after) && |after| == |ids| + 1 && newId in after
  {
    var at := if before then i else i + 1;
    assert |after| == |ids| + 1;
    assert forall k :: 0 <= k < |after| ==>
           after[k] == if k < at then ids[k] else if k == at then newId else ids[k - 1];
    assert after[at] == newId;
  }

  lemma OnlyOneWasThere(ids: seq<Uuid>, id: Uuid)
    requires Distinct(ids) && ids != [] && Without(ids, id) == []
    ensures ids == [id]
  {
    WithoutKeepsDistinct(ids, id);
  }

  /** The root a snapshot restores to, if it may be opened with these tabs. */
  function Reopened(workspaceTabId: Uuid, snapshot: PaneNodeSnapshot, focusedTabId: Uuid): Option<PaneNode> {
    match RestoreNode(snapshot)
    case None => None
    case Some(root) =>
      if workspaceTabId in TabIds(root) && focusedTabId in TabIds(root) && |TabIds(root)| <= MAX_TERMINAL_PANES
      then Some(root) else None
  }

  /**
   Rebuild a tree from a snapshot. It is accepted exactly when it is well saved, small
   enough, and holds both tabs; the tree is valid exactly when no identifier is repeated.
   */
  method FromSnapshot(workspaceTabId: Uuid, snapshot: PaneNodeSnapshot, focusedTabId: Uuid) returns (tree: PaneTree?)
    ensures tree != null <==>
      && WellSaved(snapshot) && |SavedIds(snapshot)| <= MAX_TERMINAL_PANES
      && workspaceTabId in SavedIds(snapshot) && focusedTabId in SavedIds(snapshot)
    ensures tree != null ==>
      && fresh(tree) && tree.workspaceTabId == workspaceTabId && tree.focusedTabId == focusedTabId
      && Some(tree.root) == RestoreNode(snapshot) && TabIds(tree.root) == SavedIds(snapshot)
      && SnapshotNode(tree.root) == snapshot
      && (tree.Valid() <==> Distinct(SavedIds(snapshot)))
  {
    RestoresIff(snapshot);
    var root := RestoreNode(snapshot);
    if root.None? {
      return null;
    }
    RestoreRoundTrips(snapshot);
    if && workspaceTabId in TabIds(root.value) && focusedTabId in TabIds(root.value)
       && |TabIds(root.value)| <= MAX_TERMINAL_PANES {
      tree := new PaneTree.Restored(workspaceTabId, root.value, focusedTabId);
    } else {
      tree := null;
    }
  }

  /** The saved form of a valid tree opens again with any of its tabs as the workspace tab, and with no other. */
  lemma SavedTreeReopensIff(root: PaneNode, workspaceTabId: Uuid, focusedTabId: Uuid)
    requires ValidTree(root, focusedTabId)
    ensures var again := Reopened(workspaceTabId, SnapshotNode(root), focusedTabId);
      && (again.Some? <==> workspaceTabId in TabIds(root))
      && (again.Some? ==>
           && ValidTree(again.value, focusedTabId) && TabIds(again.value) == TabIds(root)
           && Close(root, again.value, 0.0005) && SnapshotNode(again.value) == SnapshotNode(root))
  {
    SnapshotRoundTrips(root);
    CloseKeepsIds(root, RestoreNode(SnapshotNode(root)).value, 0.0005);
  }

  /** The leaf by which the windows open a snapshot again. */
  function FirstSavedId(saved: PaneNodeSnapshot): Uuid {
    match saved
    case SavedLeaf(id) => id
    case SavedSplit(_, _, first, _) => FirstSavedId(first)
  }

  lemma {:induction false} FirstSavedIsFirst(saved: PaneNodeSnapshot)
    ensures FirstSavedId(saved) == SavedIds(saved)[0]
  {
    match saved
    case SavedLeaf(_) =>
    case SavedSplit(_, _, first, _) => FirstSavedIsFirst(first);
  }

  /**
   Every valid tree opens again from its snapshot, by its first leaf and with its own
   focus: the same identifiers, shape and ratios within 0.0005, saving to the same
   snapshot. Its workspace tab is then the first leaf, so it keeps its own exactly when
   that is the first leaf.
   */
  method Reopen(tree: PaneTree) returns (again: PaneTree?)
    requires tree.Valid()
    ensures again != null && fresh(again) && again.Valid()
    ensures again.focusedTabId == tree.focusedTabId && TabIds(again.root) == TabIds(tree.root)
    ensures Close(tree.root, again.root, 0.0005) && SnapshotNode(again.root) == SnapshotNode(tree.root)
    ensures again.workspaceTabId == TabIds(tree.root)[0]
    ensures again.workspaceTabId == tree.workspaceTabId <==> tree.workspaceTabId == TabIds(tree.root)[0]
  {
    var saved := tree.Snapshot();
    FirstSavedIsFirst(saved);
    SnapshotRoundTrips(tree.root);
    RestoresIff(saved);
    again := FromSnapshot(FirstSavedId(saved), saved, tree.focusedTabId);
  }

  /** A split takes the first place exactly when it puts the new pane before the first one. */
  lemma {:induction false} SplitKeepsFirstIff(node: PaneNode, source: Uuid, direction: PaneDirection, newId: Uuid)
    requires source in TabIds(node) && newId !in TabIds(node)
    ensures var after := ReplaceLeafWithSplit(node, source, direction, newId).0;
      TabIds(after)[0] == TabIds(node)[0] <==> !(source == TabIds(node)[0] && direction.IsBefore())
  {
    match node
    case Leaf(_) =>
    case Split(_, _, first, second) =>
      SplitNeedsTheSource(first, source, direction, newId);
      if source in TabIds(first) {
        SplitKeepsFirstIff(first, source, direction, newId);
      }
  }

  /** Splitting the workspace tab to the left: the tree reopens as the new pane's. */
  method SplitLeftChangesTheWorkspaceTab(tabId: Uuid, newTabId: Uuid) returns (tree: PaneTree, again: PaneTree?)
    requires tabId != newTabId
    ensures tree.Valid() && tree.workspaceTabId == tabId
    ensures again != null && again.workspaceTabId == newTabId
  {
    tree := new PaneTree(tabId);
    var done := tree.SplitFocused(Left, newTabId);
    assert TabIds(tree.root) == [newTabId, tabId];
    again := Reopen(tree);
  }
}
