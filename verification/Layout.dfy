/** Rectangles: how a pane tree divides an area of terminal cells. */
module Layout {
  import opened Basics
  import opened PaneTree

  datatype Rect = Rect(x: u16, y: u16, width: u16, height: u16) {
    /** No cell of the rectangle lies beyond the last coordinate. */
    predicate InRange() {
      x + width <= U16_MAX && y + height <= U16_MAX
    }

    predicate Covers(col: int, row: int) {
      x <= col < x + width && y <= row < y + height
    }

    function Cells(): nat {
      width * height
    }

    /** At least as wide and as high as `other`. */
    predicate AtLeast(other: Rect) {
      width >= other.width && height >= other.height
    }
  }

  /** `split_rect`. */
  function SplitRect(area: Rect, direction: Direction): (Rect, Rect) {
    match direction
    case Horizontal =>
      var firstWidth := SatAdd(area.width, 1) / 2;
      (area.(width := firstWidth),
       area.(x := SatAdd(area.x, firstWidth), width := SatSub(area.width, firstWidth)))
    case Vertical =>
      var firstHeight := SatAdd(area.height, 1) / 2;
      (area.(height := firstHeight),
       area.(y := SatAdd(area.y, firstHeight), height := SatSub(area.height, firstHeight)))
  }

  function Extent(area: Rect, direction: Direction): u16 {
    if direction.Horizontal? then area.width else area.height
  }

  /** The first half gets the odd cell of an odd extent exactly when the extent is not the largest one. */
  lemma OddCellGoesFirstIff(area: Rect, direction: Direction)
    requires Extent(area, direction) % 2 == 1
    ensures var (a, b) := SplitRect(area, direction);
            Extent(a, direction) == Extent(b, direction) + 1 <==> Extent(area, direction) != U16_MAX
  {
  }

  /** At the largest extent the increment saturates and the odd cell goes to the second half. */
  lemma OddCellGoesSecond()
    ensures SplitRect(Rect(0, 0, 65535, 24), Horizontal) == (Rect(0, 0, 32767, 24), Rect(32767, 0, 32768, 24))
  {
  }

  /** `layout_node`: every pane with its rectangle, in visual order. */
  function Layout(node: Node, area: Rect): (r: seq<(PaneId, Rect)>)
    ensures |r| == |Leaves(node)|
  {
    match node
    case Pane(id) => [(id, area)]
    case Split(direction, first, second) =>
      var areas := SplitRect(area, direction);
      Layout(first, areas.0) + Layout(second, areas.1)
  }

  /** Rectangles come in the same order as the panes. */
  lemma {:induction false} LayoutOrder(node: Node, area: Rect, i: nat)
    requires i < |Leaves(node)|
    ensures Layout(node, area)[i].0 == Leaves(node)[i]
  {
    match node
    case Pane(id) =>
    case Split(direction, first, second) =>
      var (a, b) := SplitRect(area, direction);
      if i < |Leaves(first)| {
        LayoutOrder(first, a, i);
      } else {
        LayoutOrder(second, b, i - |Leaves(first)|);
      }
  }

  // ---- Exact tiling ----

  /** How many rectangles of a layout contain a cell. */
  function CoverCount(layout: seq<(PaneId, Rect)>, col: int, row: int): nat {
    if layout == [] then 0
    else (if layout[0].1.Covers(col, row) then 1 else 0) + CoverCount(layout[1..], col, row)
  }

  function TotalCells(layout: seq<(PaneId, Rect)>): nat {
    if layout == [] then 0 else layout[0].1.Cells() + TotalCells(layout[1..])
  }

  lemma {:induction false} CountsConcat(a: seq<(PaneId, Rect)>, b: seq<(PaneId, Rect)>, col: int, row: int)
    ensures CoverCount(a + b, col, row) == CoverCount(a, col, row) + CoverCount(b, col, row)
    ensures TotalCells(a + b) == TotalCells(a) + TotalCells(b)
  {
    if a == [] {
      assert a + b == b;
    } else {
      assert a + b == [a[0]] + (a[1..] + b);
      CountsConcat(a[1..], b, col, row);
    }
  }

  /** The two halves of a rectangle share no cell, leave none out and stay in range. */
  lemma HalvesTile(area: Rect, direction: Direction, col: int, row: int)
    requires area.InRange()
    ensures var (a, b) := SplitRect(area, direction);
            && a.InRange() && b.InRange()
            && (area.Covers(col, row) <==> a.Covers(col, row) || b.Covers(col, row))
            && !(a.Covers(col, row) && b.Covers(col, row))
            && a.Cells() + b.Cells() == area.Cells()
  {
    var (a, b) := SplitRect(area, direction);
    match direction {
      case Horizontal =>
        assert a.width + b.width == area.width;
        assert a.width * area.height + b.width * area.height == area.width * area.height;
      case Vertical =>
        assert a.height + b.height == area.height;
        assert area.width * a.height + area.width * b.height == area.width * area.height;
    }
  }

  /** Every cell of the area is in exactly one pane, no pane leaves the area, and the sizes add up. */
  lemma {:induction false} LayoutTiles(node: Node, area: Rect, col: int, row: int)
    requires area.InRange()
    ensures CoverCount(Layout(node, area), col, row) == if area.Covers(col, row) then 1 else 0
    ensures TotalCells(Layout(node, area)) == area.Cells()
  {
    match node
    case Pane(id) =>
      var layout := Layout(node, area);
      assert layout[1..] == [];
    case Split(direction, first, second) =>
      var (a, b) := SplitRect(area, direction);
      HalvesTile(area, direction, col, row);
      LayoutTiles(first, a, col, row);
      LayoutTiles(second, b, col, row);
      CountsConcat(Layout(first, a), Layout(second, b), col, row);
  }

  lemma {:induction false} CoveredOnce(layout: seq<(PaneId, Rect)>, col: int, row: int, i: nat, j: nat)
    requires i < j < |layout| && layout[i].1.Covers(col, row) && layout[j].1.Covers(col, row)
    ensures CoverCount(layout, col, row) >= 2
  {
    if i == 0 {
      CoveredBySome(layout[1..], col, row, j - 1);
    } else {
      CoveredOnce(layout[1..], col, row, i - 1, j - 1);
    }
  }

  lemma {:induction false} CoveredBySome(layout: seq<(PaneId, Rect)>, col: int, row: int, i: nat)
    requires i < |layout| && layout[i].1.Covers(col, row)
    ensures CoverCount(layout, col, row) >= 1
  {
    if i > 0 {
      CoveredBySome(layout[1..], col, row, i - 1);
    }
  }

  lemma {:induction false} FindCover(layout: seq<(PaneId, Rect)>, col: int, row: int) returns (i: nat)
    requires CoverCount(layout, col, row) > 0
    ensures i < |layout| && layout[i].1.Covers(col, row)
  {
    if layout[0].1.Covers(col, row) {
      i := 0;
    } else {
      i := FindCover(layout[1..], col, row);
      i := i + 1;
    }
  }

  /** The pane drawn at a cell of the area exists and is the only one there. */
  lemma PaneAtCell(node: Node, area: Rect, col: int, row: int) returns (i: nat)
    requires area.InRange() && area.Covers(col, row)
    ensures i < |Leaves(node)| && Layout(node, area)[i].1.Covers(col, row)
    ensures forall j | 0 <= j < |Leaves(node)| && j != i :: !Layout(node, area)[j].1.Covers(col, row)
  {
    LayoutTiles(node, area, col, row);
    i := FindCover(Layout(node, area), col, row);
    forall j | 0 <= j < |Leaves(node)| && j != i
      ensures !Layout(node, area)[j].1.Covers(col, row)
    {
      if Layout(node, area)[j].1.Covers(col, row) {
        CoveredOnce(Layout(node, area), col, row, Min(i, j), Max(i, j));
      }
    }
  }

  /** No pane has a cell outside the area. */
  lemma PanesStayInside(node: Node, area: Rect, i: nat, col: int, row: int)
    requires area.InRange() && i < |Leaves(node)| && Layout(node, area)[i].1.Covers(col, row)
    ensures area.Covers(col, row)
  {
    LayoutTiles(node, area, col, row);
    CoveredBySome(Layout(node, area), col, row, i);
  }

  // ---- Balance ----

  /** The horizontal and vertical splits above a leaf. */
  datatype Depth = Depth(horizontal: nat, vertical: nat) {
    function Below(direction: Direction): Depth {
      if direction.Horizontal? then this.(horizontal := horizontal + 1) else this.(vertical := vertical + 1)
    }
  }

  /** The depth of every pane, in visual order. */
  function Depths(node: Node, above: Depth): (r: seq<Depth>)
    ensures |r| == |Leaves(node)|
  {
    match node
    case Pane(id) => [above]
    case Split(direction, first, second) =>
      Depths(first, above.Below(direction)) + Depths(second, above.Below(direction))
  }

  function Pow2(n: nat): nat {
    if n == 0 then 1 else 2 * Pow2(n - 1)
  }

  function FloorShare(extent: nat, splits: nat): int
    requires Pow2(splits) > 0
  {
    extent / Pow2(splits)
  }

  function CeilShare(extent: nat, splits: nat): int
    requires Pow2(splits) > 0
  {
    (extent + Pow2(splits) - 1) / Pow2(splits)
  }

  lemma {:induction false} Pow2Positive(n: nat)
    ensures Pow2(n) > 0
  {
    if n > 0 {
      Pow2Positive(n - 1);
    }
  }

  lemma QuotientIs(x: int, n: int, q: int, r: int)
    requires x == n * q + r && 0 <= r < n
    ensures x / n == q
  {
    var d := x / n - q;
    assert n * d == r - x % n;
    assert d >= 1 ==> n * d >= n;
    assert d <= -1 ==> n * d <= -n;
  }

  /** `floor(floor(x / 2) / p) == floor(x / 2p)`. */
  lemma HalveThenDivide(x: nat, p: nat)
    requires p > 0
    ensures (x / 2) / p == x / (2 * p)
  {
    var q, r := (x / 2) / p, (x / 2) % p;
    assert x == (2 * p) * q + (2 * r + x % 2);
    QuotientIs(x, 2 * p, q, 2 * r + x % 2);
  }

  lemma QuotientsOrdered(p: int, q0: int, r0: int, q1: int, r1: int)
    requires 0 <= r0 < p && 0 <= r1 < p && p * q0 + r0 <= p * q1 + r1
    ensures q0 <= q1
  {
    var d := q0 - q1;
    assert p * d < p;
    assert d >= 1 ==> p * d >= p;
  }

  lemma DivideMonotone(x: nat, y: nat, p: nat)
    requires p > 0 && x <= y
    ensures x / p <= y / p
  {
    QuotientsOrdered(p, x / p, x % p, y / p, y % p);
  }

  /** Either half of an extent is its floor or its ceiling, the saturated 65535 included. */
  lemma HalfShares(extent: u16)
    ensures var first := SatAdd(extent, 1) / 2;
            extent / 2 <= first <= (extent + 1) / 2 && extent / 2 <= SatSub(extent, first) <= (extent + 1) / 2
  {
  }

  lemma FloorOfHalf(extent: nat, half: nat, p: nat)
    requires extent / 2 <= half && p > 0
    ensures extent / (2 * p) <= half / p
  {
    HalveThenDivide(extent, p);
    DivideMonotone(extent / 2, half, p);
  }

  lemma CeilOfHalf(extent: nat, half: nat, p: nat)
    requires half <= (extent + 1) / 2 && p > 0
    ensures (half + p - 1) / p <= (extent + 2 * p - 1) / (2 * p)
  {
    var x := extent + 2 * p - 1;
    assert x / 2 == (extent + 1) / 2 + p - 1;
    HalveThenDivide(x, p);
    DivideMonotone(half + p - 1, x / 2, p);
  }

  /** The share of a half after `k` more splits is within the share of the whole after `k + 1`. */
  lemma ShareOfHalf(extent: nat, half: nat, k: nat)
    requires extent / 2 <= half <= (extent + 1) / 2
    requires Pow2(k) > 0 && Pow2(k + 1) > 0
    ensures FloorShare(extent, k + 1) <= FloorShare(half, k)
    ensures CeilShare(half, k) <= CeilShare(extent, k + 1)
  {
    FloorOfHalf(extent, half, Pow2(k));
    CeilOfHalf(extent, half, Pow2(k));
  }

  /** Width and height lie between the floor and the ceiling of an equal share. */
  ghost predicate Balanced(area: Rect, rect: Rect, depth: Depth, above: Depth) {
    && above.horizontal <= depth.horizontal && above.vertical <= depth.vertical
    && var h, v := depth.horizontal - above.horizontal, depth.vertical - above.vertical;
    && Pow2(h) > 0 && Pow2(v) > 0
    && FloorShare(area.width, h) <= rect.width <= CeilShare(area.width, h)
    && FloorShare(area.height, v) <= rect.height <= CeilShare(area.height, v)
  }

  lemma BalancedHalf(area: Rect, half: Rect, rect: Rect, direction: Direction, depth: Depth, above: Depth)
    requires half == SplitRect(area, direction).0 || half == SplitRect(area, direction).1
    requires Balanced(half, rect, depth, above.Below(direction))
    ensures Balanced(area, rect, depth, above)
  {
    HalfShares(area.width);
    HalfShares(area.height);
    var h, v := depth.horizontal - above.horizontal, depth.vertical - above.vertical;
    Pow2Positive(h);
    Pow2Positive(v);
    match direction
    case Horizontal => ShareOfHalf(area.width, half.width, h - 1);
    case Vertical => ShareOfHalf(area.height, half.height, v - 1);
  }

  /** A pane under `h` horizontal and `v` vertical splits gets a 1/2^h by 1/2^v share of the area. */
  lemma {:induction false} LayoutBalanced(node: Node, area: Rect, above: Depth, i: nat)
    requires i < |Leaves(node)|
    ensures Balanced(area, Layout(node, area)[i].1, Depths(node, above)[i], above)
  {
    match node
    case Pane(id) =>
      assert Pow2(0) == 1;
    case Split(direction, first, second) =>
      var (a, b) := SplitRect(area, direction);
      var below := above.Below(direction);
      if i < |Leaves(first)| {
        LayoutBalanced(first, a, below, i);
        BalancedHalf(area, a, Layout(node, area)[i].1, direction, Depths(node, above)[i], above);
      } else {
        LayoutBalanced(second, b, below, i - |Leaves(first)|);
        BalancedHalf(area, b, Layout(node, area)[i].1, direction, Depths(node, above)[i], above);
      }
  }

  lemma FloorCeilWithinOne(extent: nat, splits: nat)
    requires Pow2(splits) > 0
    ensures CeilShare(extent, splits) <= FloorShare(extent, splits) + 1
  {
    var p := Pow2(splits);
    assert extent + p - 1 == p * (extent / p) + (extent % p + p - 1);
    if extent % p == 0 {
      QuotientIs(extent + p - 1, p, extent / p, p - 1);
    } else {
      QuotientIs(extent + p - 1, p, extent / p + 1, extent % p - 1);
    }
  }

  /** Panes at the same depth differ by at most one cell each way. */
  lemma EqualDepthNearlyEqual(node: Node, area: Rect, i: nat, j: nat)
    requires i < |Leaves(node)| && j < |Leaves(node)|
    requires Depths(node, Depth(0, 0))[i] == Depths(node, Depth(0, 0))[j]
    ensures var (a, b) := (Layout(node, area)[i].1, Layout(node, area)[j].1);
            -1 <= a.width - b.width <= 1 && -1 <= a.height - b.height <= 1
  {
    var depth := Depths(node, Depth(0, 0))[i];
    LayoutBalanced(node, area, Depth(0, 0), i);
    LayoutBalanced(node, area, Depth(0, 0), j);
    FloorCeilWithinOne(area.width, depth.horizontal);
    FloorCeilWithinOne(area.height, depth.vertical);
  }

  // ---- The rectangle of one pane ----

  /** The rectangle of pane `id`. */
  function RectOf(node: Node, area: Rect, id: PaneId): Rect
    requires id in Leaves(node)
  {
    match node
    case Pane(_) => area
    case Split(direction, first, second) =>
      if id in Leaves(first) then RectOf(first, SplitRect(area, direction).0, id)
      else RectOf(second, SplitRect(area, direction).1, id)
  }

  lemma {:induction false} LayoutIsRectOf(node: Node, area: Rect, i: nat)
    requires Distinct(Leaves(node)) && i < |Leaves(node)|
    ensures Layout(node, area)[i] == (Leaves(node)[i], RectOf(node, area, Leaves(node)[i]))
  {
    match node
    case Pane(id) =>
    case Split(direction, first, second) =>
      DistinctParts(Leaves(first), Leaves(second));
      if i < |Leaves(first)| {
        LayoutIsRectOf(first, SplitRect(area, direction).0, i);
      } else {
        LayoutIsRectOf(second, SplitRect(area, direction).1, i - |Leaves(first)|);
      }
  }

  lemma DistinctParts<T>(s: seq<T>, t: seq<T>)
    requires Distinct(s + t)
    ensures Distinct(s) && Distinct(t)
    ensures forall x | x in s :: x !in t
  {
    var u := s + t;
    assert forall i | 0 <= i < |s| :: u[i] == s[i];
    assert forall i | 0 <= i < |t| :: u[|s| + i] == t[i];
  }

  lemma HalvesGrow(small: Rect, large: Rect, direction: Direction)
    requires large.AtLeast(small)
    ensures SplitRect(large, direction).0.AtLeast(SplitRect(small, direction).0)
    ensures SplitRect(large, direction).1.AtLeast(SplitRect(small, direction).1)
  {
  }

  lemma HalvesAreSmaller(area: Rect, direction: Direction)
    ensures area.AtLeast(SplitRect(area, direction).0) && area.AtLeast(SplitRect(area, direction).1)
  {
  }

  /** A larger area makes no pane smaller. */
  lemma {:induction false} LargerAreaLargerPanes(node: Node, small: Rect, large: Rect, id: PaneId)
    requires id in Leaves(node) && large.AtLeast(small)
    ensures RectOf(node, large, id).AtLeast(RectOf(node, small, id))
  {
    match node
    case Pane(_) =>
    case Split(direction, first, second) =>
      HalvesGrow(small, large, direction);
      var (a, b) := SplitRect(small, direction);
      var (c, d) := SplitRect(large, direction);
      if id in Leaves(first) {
        LargerAreaLargerPanes(first, a, c, id);
      } else {
        LargerAreaLargerPanes(second, b, d, id);
      }
  }

  /** A split gives the target's rectangle to its two halves and moves nothing else. */
  lemma {:induction false} SplitIsLocal(node: Node, area: Rect, target: PaneId, added: PaneId, direction: Direction,
                                        id: PaneId)
    requires Distinct(Leaves(node)) && target in Leaves(node) && added !in Leaves(node)
    requires id in Leaves(node) || id == added
    ensures var split := SplitNode(node, target, added, direction).0;
            var room := RectOf(node, area, target);
            && id in Leaves(split)
            && RectOf(split, area, id) ==
               if id == target then SplitRect(room, direction).0
               else if id == added then SplitRect(room, direction).1
               else RectOf(node, area, id)
  {
    SplitLeaves(node, target, added, direction);
    InsertAfterMembers(Leaves(node), target, added);
    match node
    case Pane(_) =>
    case Split(d, first, second) =>
      DistinctParts(Leaves(first), Leaves(second));
      var (a, b) := SplitRect(area, d);
      if target in Leaves(first) {
        SplitLeaves(first, target, added, direction);
        InsertAfterMembers(Leaves(first), target, added);
        if id !in Leaves(second) {
          SplitIsLocal(first, a, target, added, direction, id);
        }
      } else if id !in Leaves(first) {
        SplitIsLocal(second, b, target, added, direction, id);
      }
  }

  /** The subtree that takes over the room of a removed pane. */
  function Sibling(node: Node, target: PaneId): Node
    requires target in Leaves(node) && node.Split?
  {
    if target in Leaves(node.first) then
      if node.first.Pane? then node.second else Sibling(node.first, target)
    else
      if node.second.Pane? then node.first else Sibling(node.second, target)
  }

  /** The room that a removed pane shared with its sibling. */
  function SharedRoom(node: Node, area: Rect, target: PaneId): Rect
    requires target in Leaves(node) && node.Split?
  {
    var (a, b) := SplitRect(area, node.direction);
    if target in Leaves(node.first) then
      if node.first.Pane? then area else SharedRoom(node.first, a, target)
    else
      if node.second.Pane? then area else SharedRoom(node.second, b, target)
  }

  /**
    * Removing a pane lays its sibling out over the room the two shared and leaves every other
    * rectangle exactly as it was; no survivor becomes narrower or lower.
    */
  lemma {:induction false} RemoveIsLocal(node: Node, area: Rect, target: PaneId, id: PaneId)
    requires Distinct(Leaves(node)) && target in Leaves(node) && node.Split?
    requires id in Leaves(node) && id != target
    ensures RemovePane(node, target).Some?
    ensures var rest := RemovePane(node, target).value;
            && id in Leaves(rest)
            && RectOf(rest, area, id).AtLeast(RectOf(node, area, id))
            && RectOf(rest, area, id) ==
               if id in Leaves(Sibling(node, target)) then
                 RectOf(Sibling(node, target), SharedRoom(node, area, target), id)
               else RectOf(node, area, id)
  {
    var first, second := node.first, node.second;
    var (a, b) := SplitRect(area, node.direction);
    RemoveLeaves(node, target);
    WithoutMembers(Leaves(node), target);
    DistinctParts(Leaves(first), Leaves(second));
    HalvesAreSmaller(area, node.direction);
    if target in Leaves(first) {
      RemoveAbsent(second, target);
      if first.Pane? {
        LargerAreaLargerPanes(second, b, area, id);
      } else {
        SiblingInside(first, target);
        RemoveLeaves(first, target);
        WithoutMembers(Leaves(first), target);
        if id in Leaves(first) {
          RemoveIsLocal(first, a, target, id);
        } else {
          SomeSurvives(first, target);
        }
      }
    } else {
      RemoveAbsent(first, target);
      if second.Pane? {
        LargerAreaLargerPanes(first, a, area, id);
      } else {
        SiblingInside(second, target);
        RemoveLeaves(second, target);
        WithoutMembers(Leaves(second), target);
        if id in Leaves(second) {
          RemoveIsLocal(second, b, target, id);
        } else {
          SomeSurvives(second, target);
        }
      }
    }
  }

  lemma {:induction false} SiblingInside(node: Node, target: PaneId)
    requires target in Leaves(node) && node.Split?
    ensures forall id | id in Leaves(Sibling(node, target)) :: id in Leaves(node)
  {
    if target in Leaves(node.first) {
      if node.first.Split? {
        SiblingInside(node.first, target);
      }
    } else if node.second.Split? {
      SiblingInside(node.second, target);
    }
  }

  lemma SomeSurvives(node: Node, target: PaneId)
    requires node.Split? && Distinct(Leaves(node))
    ensures RemovePane(node, target).Some?
  {
    RemoveLeaves(node, target);
    WithoutMembers(Leaves(node), target);
    var panes := Leaves(node);
    assert |panes| >= 2;
    assert panes[0] != panes[1];
    assert panes[0] in Without(panes, target) || panes[1] in Without(panes, target);
  }

  /** Closing the focused pane of a session shrinks no other pane and moves only the closed pane's sibling. */
  lemma CloseKeepsRoom(s: SessionState, area: Rect, id: PaneId)
    requires s.Valid() && |Leaves(s.root)| > 1 && id in Leaves(CloseFocused(s).root)
    ensures id in Leaves(s.root) && id != s.focused && s.root.Split?
    ensures RectOf(CloseFocused(s).root, area, id).AtLeast(RectOf(s.root, area, id))
    ensures id !in Leaves(Sibling(s.root, s.focused)) ==>
              RectOf(CloseFocused(s).root, area, id) == RectOf(s.root, area, id)
  {
    CloseEffect(s);
    RemoveIsLocal(s.root, area, s.focused, id);
  }

  // ---- Where a split of a session puts its panes ----

  /** `a` and `b` share `whole` from left to right, as evenly as whole cells allow. */
  predicate SideBySide(whole: Rect, a: Rect, b: Rect) {
    && a.x == whole.x && b.x == whole.x + a.width && a.width + b.width == whole.width
    && a.y == b.y == whole.y && a.height == b.height == whole.height
    && -1 <= a.width - b.width <= 1
  }

  /** `a` and `b` share `whole` from top to bottom, as evenly as whole cells allow. */
  predicate OneAboveOther(whole: Rect, a: Rect, b: Rect) {
    && a.y == whole.y && b.y == whole.y + a.height && a.height + b.height == whole.height
    && a.x == b.x == whole.x && a.width == b.width == whole.width
    && -1 <= a.height - b.height <= 1
  }

  /** A horizontal split puts its panes side by side, a vertical one puts one above the other. */
  predicate Divides(direction: Direction, whole: Rect, a: Rect, b: Rect) {
    if direction.Horizontal? then SideBySide(whole, a, b) else OneAboveOther(whole, a, b)
  }

  lemma HalvesDivide(area: Rect, direction: Direction)
    requires area.InRange()
    ensures Divides(direction, area, SplitRect(area, direction).0, SplitRect(area, direction).1)
  {
  }

  lemma {:induction false} RectStaysInRange(node: Node, area: Rect, id: PaneId)
    requires area.InRange() && id in Leaves(node)
    ensures RectOf(node, area, id).InRange()
  {
    match node
    case Pane(_) =>
    case Split(direction, first, second) =>
      HalvesTile(area, direction, 0, 0);
      if id in Leaves(first) {
        RectStaysInRange(first, SplitRect(area, direction).0, id);
      } else {
        RectStaysInRange(second, SplitRect(area, direction).1, id);
      }
  }

  /** `t` is `s` after a split in this direction: the two panes share the room of the focused one, the others stay. */
  ghost predicate SplitsRoom(s: SessionState, t: SessionState, direction: Direction, area: Rect) {
    && s.focused in Leaves(s.root) && s.focused in Leaves(t.root) && s.nextId in Leaves(t.root)
    && t.focused == s.nextId
    && Divides(direction, RectOf(s.root, area, s.focused),
               RectOf(t.root, area, s.focused), RectOf(t.root, area, s.nextId))
    && forall id | id in Leaves(s.root) && id != s.focused ::
         id in Leaves(t.root) && RectOf(t.root, area, id) == RectOf(s.root, area, id)
  }

  /** Splitting a session divides the focused pane's room in the direction asked for, and no other pane's. */
  lemma SplitDividesRoom(s: SessionState, direction: Direction, area: Rect)
    requires s.Valid() && s.nextId < U64_MAX && area.InRange()
    ensures SplitsRoom(s, SplitFocused(s, direction), direction, area)
  {
    var t := SplitFocused(s, direction);
    SplitEffect(s, direction);
    RectStaysInRange(s.root, area, s.focused);
    HalvesDivide(RectOf(s.root, area, s.focused), direction);
    forall id | id in Leaves(s.root) || id == s.nextId
      ensures RectOf(t.root, area, id) ==
              if id == s.focused then SplitRect(RectOf(s.root, area, s.focused), direction).0
              else if id == s.nextId then SplitRect(RectOf(s.root, area, s.focused), direction).1
              else RectOf(s.root, area, id)
    {
      SplitIsLocal(s.root, area, s.focused, s.nextId, direction, id);
    }
  }
}
