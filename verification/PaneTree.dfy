/** The pane tree of one session: splitting, closing and moving the focus. */
module PaneTree {
  import opened Basics
  import opened Names

  type PaneId = u64

  datatype Direction = Horizontal | Vertical

  datatype Node =
    | Pane(id: PaneId)
    | Split(direction: Direction, first: Node, second: Node)

  /** Pane identifiers in visual-tree order. */
  function Leaves(node: Node): (r: seq<PaneId>)
    ensures |r| > 0
  {
    match node
    case Pane(id) => [id]
    case Split(_, first, second) => Leaves(first) + Leaves(second)
  }

  /** `split_node`: the tree with the first leaf `target` replaced by a split, and whether there was one. */
  function SplitNode(node: Node, target: PaneId, added: PaneId, direction: Direction): (r: (Node, bool))
    ensures !r.1 ==> r.0 == node
    ensures r.1 <==> target in Leaves(node)
  {
    match node
    case Pane(id) =>
      if id == target then (Split(direction, Pane(target), Pane(added)), true) else (node, false)
    case Split(d, first, second) =>
      var (left, done) := SplitNode(first, target, added, direction);
      if done then (Split(d, left, second), true)
      else
        var (right, found) := SplitNode(second, target, added, direction);
        (Split(d, first, right), found)
  }

  /** `remove_pane`: the tree without `target`, each split left with one child collapsed into it. */
  function RemovePane(node: Node, target: PaneId): Option<Node> {
    match node
    case Pane(id) => if id != target then Some(node) else None
    case Split(direction, first, second) =>
      match (RemovePane(first, target), RemovePane(second, target))
      case (Some(left), Some(right)) => Some(Split(direction, left, right))
      case (Some(survivor), None) => Some(survivor)
      case (None, Some(survivor)) => Some(survivor)
      case (None, None) => None
  }

  // ---- Sequences of distinct identifiers ----

  /** Where `x` first occurs in `s`. */
  function IndexOf<T(==)>(s: seq<T>, x: T): (i: nat)
    requires x in s
    ensures i < |s| && s[i] == x && forall k | 0 <= k < i :: s[k] != x
  {
    if s[0] == x then 0 else IndexOf(s[1..], x) + 1
  }

  function InsertAt<T>(s: seq<T>, i: nat, y: T): seq<T>
    requires i <= |s|
  {
    s[..i] + [y] + s[i..]
  }

  /** `s` with `y` directly after the first `x`. */
  function InsertAfter<T(==)>(s: seq<T>, x: T, y: T): seq<T>
    requires x in s
  {
    InsertAt(s, IndexOf(s, x) + 1, y)
  }

  function Without<T(==)>(s: seq<T>, x: T): seq<T> {
    if s == [] then [] else (if s[0] == x then [] else [s[0]]) + Without(s[1..], x)
  }

  lemma {:induction false} WithoutConcat<T>(s: seq<T>, t: seq<T>, x: T)
    ensures Without(s + t, x) == Without(s, x) + Without(t, x)
  {
    if s == [] {
      assert s + t == t;
    } else {
      assert s + t == [s[0]] + (s[1..] + t);
      WithoutConcat(s[1..], t, x);
    }
  }

  lemma {:induction false} WithoutMembers<T>(s: seq<T>, x: T)
    ensures forall y :: y in Without(s, x) <==> y in s && y != x
    ensures Distinct(s) ==> Distinct(Without(s, x))
    ensures x !in s ==> Without(s, x) == s
  {
    if s != [] {
      var rest := s[1..];
      WithoutMembers(rest, x);
      assert s == [s[0]] + rest;
      assert Distinct(s) ==> Distinct(rest) && s[0] !in rest;
    }
  }

  lemma {:induction false} WithoutAt<T>(s: seq<T>, x: T)
    requires x in s && Distinct(s)
    ensures Without(s, x) == s[..IndexOf(s, x)] + s[IndexOf(s, x) + 1..]
  {
    if s[0] == x {
      WithoutMembers(s[1..], x);
    } else {
      assert x in s[1..];
      WithoutAt(s[1..], x);
      var i := IndexOf(s[1..], x);
      assert s[..i + 1] == [s[0]] + s[1..][..i];
      assert s[1..][i + 1..] == s[i + 2..];
    }
  }

  lemma IndexOfUnique<T>(s: seq<T>, x: T, i: nat)
    requires i < |s| && s[i] == x && forall k | 0 <= k < i :: s[k] != x
    ensures IndexOf(s, x) == i
  {
  }

  lemma IndexOfConcat<T>(s: seq<T>, t: seq<T>, x: T)
    requires x in s + t
    ensures IndexOf(s + t, x) == if x in s then IndexOf(s, x) else |s| + IndexOf(t, x)
  {
    IndexOfUnique(s + t, x, if x in s then IndexOf(s, x) else |s| + IndexOf(t, x));
  }

  lemma InsertAtConcat<T>(s: seq<T>, t: seq<T>, i: nat, y: T)
    requires i <= |s| + |t|
    ensures i <= |s| ==> InsertAt(s + t, i, y) == InsertAt(s, i, y) + t
    ensures i >= |s| ==> InsertAt(s + t, i, y) == s + InsertAt(t, i - |s|, y)
  {
  }

  lemma InsertAfterConcat<T>(s: seq<T>, t: seq<T>, x: T, y: T)
    requires x in s + t
    ensures InsertAfter(s + t, x, y) == if x in s then InsertAfter(s, x, y) + t else s + InsertAfter(t, x, y)
  {
    IndexOfConcat(s, t, x);
    if x in s {
      InsertAtConcat(s, t, IndexOf(s, x) + 1, y);
    } else {
      InsertAtConcat(s, t, |s| + IndexOf(t, x) + 1, y);
    }
  }

  lemma InsertAfterMembers<T>(s: seq<T>, x: T, y: T)
    requires x in s
    ensures |InsertAfter(s, x, y)| == |s| + 1
    ensures forall z :: z in InsertAfter(s, x, y) <==> z in s || z == y
    ensures Distinct(s) && y !in s ==> Distinct(InsertAfter(s, x, y))
  {
    var i := IndexOf(s, x);
    assert s == s[..i + 1] + s[i + 1..];
  }

  lemma DistinctIndex<T>(s: seq<T>, i: nat)
    requires Distinct(s) && i < |s|
    ensures IndexOf(s, s[i]) == i
  {
    IndexOfUnique(s, s[i], i);
  }

  // ---- What splitting and removing do to the visual order ----

  lemma {:induction false} SplitLeaves(node: Node, target: PaneId, added: PaneId, direction: Direction)
    ensures var (split, done) := SplitNode(node, target, added, direction);
            && (done <==> target in Leaves(node))
            && (if done then Leaves(split) == InsertAfter(Leaves(node), target, added) else split == node)
  {
    match node
    case Pane(id) =>
    case Split(_, first, second) =>
      if target in Leaves(node) {
        InsertAfterConcat(Leaves(first), Leaves(second), target, added);
      }
      if target in Leaves(first) {
        SplitLeaves(first, target, added, direction);
      } else {
        SplitLeaves(second, target, added, direction);
      }
  }

  lemma {:induction false} RemoveLeaves(node: Node, target: PaneId)
    ensures match RemovePane(node, target)
            case Some(rest) => Leaves(rest) == Without(Leaves(node), target)
            case None => Without(Leaves(node), target) == []
  {
    match node
    case Pane(id) =>
    case Split(_, first, second) =>
      WithoutConcat(Leaves(first), Leaves(second), target);
      RemoveLeaves(first, target);
      RemoveLeaves(second, target);
  }

  lemma {:induction false} RemoveAbsent(node: Node, target: PaneId)
    requires target !in Leaves(node)
    ensures RemovePane(node, target) == Some(node)
  {
    match node
    case Pane(id) =>
    case Split(_, first, second) =>
      RemoveAbsent(first, target);
      RemoveAbsent(second, target);
  }

  /** Removing the pane a split has just added restores the tree. */
  lemma {:induction false} RemoveUndoesSplit(node: Node, target: PaneId, added: PaneId, direction: Direction)
    requires target in Leaves(node) && added !in Leaves(node)
    ensures RemovePane(SplitNode(node, target, added, direction).0, added) == Some(node)
  {
    match node
    case Pane(id) =>
    case Split(_, first, second) =>
      if target in Leaves(first) {
        RemoveUndoesSplit(first, target, added, direction);
        RemoveAbsent(second, added);
      } else {
        RemoveAbsent(first, added);
        RemoveUndoesSplit(second, target, added, direction);
      }
  }

  // ---- One session ----

  /** The fields of a session. */
  datatype SessionState = SessionState(name: SessionName, root: Node, focused: PaneId, nextId: PaneId) {
    /** Leaves are distinct and already issued, and the focus is one of them. */
    ghost predicate Valid() {
      && Distinct(Leaves(root))
      && (forall id | id in Leaves(root) :: 0 < id < nextId)
      && focused in Leaves(root)
    }
  }

  function NewSession(name: SessionName): SessionState {
    SessionState(name, Pane(1), 1, 2)
  }

  function SplitFocused(s: SessionState, direction: Direction): SessionState
    requires s.nextId < U64_MAX
  {
    s.(root := SplitNode(s.root, s.focused, s.nextId, direction).0, focused := s.nextId, nextId := s.nextId + 1)
  }

  function FocusNext(s: SessionState): SessionState
    requires s.focused in Leaves(s.root)
  {
    var panes := Leaves(s.root);
    s.(focused := panes[(IndexOf(panes, s.focused) + 1) % |panes|])
  }

  function CloseFocused(s: SessionState): SessionState
    requires s.focused in Leaves(s.root)
  {
    var panes := Leaves(s.root);
    if |panes| == 1 then s
    else
      var current := IndexOf(panes, s.focused);
      match RemovePane(s.root, s.focused)
      case Some(rest) => s.(root := rest, focused := panes[if current == 0 then 1 else current - 1])
      case None => s
  }

  lemma NewSessionValid(name: SessionName)
    ensures NewSession(name).Valid()
  {
  }

  /** A split puts the new pane directly after the focused one, and focuses it. */
  lemma SplitEffect(s: SessionState, direction: Direction)
    requires s.Valid() && s.nextId < U64_MAX
    ensures var t := SplitFocused(s, direction);
            && t.Valid()
            && Leaves(t.root) == InsertAfter(Leaves(s.root), s.focused, s.nextId)
            && t.focused == s.nextId && t.focused !in Leaves(s.root)
            && t.nextId == s.nextId + 1 && t.name == s.name
            && |Leaves(t.root)| == |Leaves(s.root)| + 1
            && (forall id :: id in Leaves(t.root) <==> id in Leaves(s.root) || id == s.nextId)
  {
    SplitLeaves(s.root, s.focused, s.nextId, direction);
    InsertAfterMembers(Leaves(s.root), s.focused, s.nextId);
  }

  /** Closing removes exactly the focused pane, keeps the order of the rest and focuses the one before it. */
  lemma CloseEffect(s: SessionState)
    requires s.Valid() && |Leaves(s.root)| > 1
    ensures var t := CloseFocused(s);
            var i := IndexOf(Leaves(s.root), s.focused);
            && t.Valid() && RemovePane(s.root, s.focused) == Some(t.root)
            && Leaves(t.root) == Leaves(s.root)[..i] + Leaves(s.root)[i + 1..]
            && t.focused == Leaves(t.root)[Max(i - 1, 0)]
            && (forall id :: id in Leaves(t.root) <==> id in Leaves(s.root) && id != s.focused)
            && t.nextId == s.nextId && t.name == s.name
  {
    RemoveLeaves(s.root, s.focused);
    WithoutAt(Leaves(s.root), s.focused);
    WithoutMembers(Leaves(s.root), s.focused);
  }

  /** The last pane cannot be closed. */
  lemma CloseLastPane(s: SessionState)
    requires s.Valid()
    ensures |Leaves(s.root)| == 1 <==> CloseFocused(s) == s
  {
    if |Leaves(s.root)| > 1 {
      CloseEffect(s);
    }
  }

  lemma SplitThenClose(s: SessionState, direction: Direction)
    requires s.Valid() && s.nextId < U64_MAX
    ensures var t := SplitFocused(s, direction);
            t.Valid() && CloseFocused(t) == s.(nextId := s.nextId + 1)
  {
    var t := SplitFocused(s, direction);
    SplitEffect(s, direction);
    RemoveUndoesSplit(s.root, s.focused, s.nextId, direction);
    var i := IndexOf(Leaves(s.root), s.focused);
    DistinctIndex(Leaves(t.root), i + 1);
  }

  // ---- The focus cycle ----

  function FocusTimes(s: SessionState, k: nat): SessionState
    requires s.Valid()
    decreases k
  {
    if k == 0 then s else
      FocusTimes(FocusNext(s), k - 1)
  }

  lemma ModIs(x: int, n: int, q: int, r: int)
    requires x == n * q + r && 0 <= r < n
    ensures x % n == r
  {
    var d := x / n - q;
    assert n * d == r - x % n;
    assert d >= 1 ==> n * d >= n;
    assert d <= -1 ==> n * d <= -n;
  }

  /** Position `k` places after `i` on a cycle of `n`. */
  lemma CyclicStep(i: nat, k: nat, n: nat)
    requires i < n && k > 0
    ensures ((i + 1) % n + (k - 1)) % n == (i + k) % n
  {
    if i + 1 == n {
      ModIs(n, n, 1, 0);
      ModIs(n + (k - 1), n, (k - 1) / n + 1, (k - 1) % n);
    } else {
      ModIs(i + 1, n, 0, i + 1);
    }
  }

  lemma CyclicSmall(x: nat, n: nat)
    requires x < 2 * n
    ensures x % n == if x < n then x else x - n
  {
    if x < n {
      ModIs(x, n, 0, x);
    } else {
      ModIs(x, n, 1, x - n);
    }
  }

  /** `k` steps move the focus `k` places round the visual order. */
  lemma {:induction false} FocusRotates(s: SessionState, k: nat)
    requires s.Valid()
    ensures var panes := Leaves(s.root);
            FocusTimes(s, k) == s.(focused := panes[(IndexOf(panes, s.focused) + k) % |panes|])
    decreases k
  {
    var panes := Leaves(s.root);
    var n, i := |panes|, IndexOf(panes, s.focused);
    if k == 0 {
      CyclicSmall(i, n);
    } else {
      FocusRotates(FocusNext(s), k - 1);
      DistinctIndex(panes, (i + 1) % n);
      CyclicStep(i, k, n);
    }
  }

  lemma FocusAfter(s: SessionState, k: nat)
    requires s.Valid() && k <= |Leaves(s.root)|
    ensures var panes := Leaves(s.root);
            var j := IndexOf(panes, s.focused) + k;
            FocusTimes(s, k) == s.(focused := panes[if j < |panes| then j else j - |panes|])
  {
    FocusRotates(s, k);
    SpotAfter(Leaves(s.root), IndexOf(Leaves(s.root), s.focused) + k);
  }

  lemma SpotAfter(panes: seq<PaneId>, j: nat)
    requires j < 2 * |panes|
    ensures panes[j % |panes|] == panes[if j < |panes| then j else j - |panes|]
  {
    CyclicSmall(j, |panes|);
  }

  /** Focusing is one cycle: it returns after as many steps as there are panes... */
  lemma FocusReturns(s: SessionState)
    requires s.Valid()
    ensures FocusTimes(s, |Leaves(s.root)|) == s
  {
    FocusAfter(s, |Leaves(s.root)|);
  }

  /** ...having met each pane after exactly one number of steps. */
  lemma FocusMeetsEachOnce(s: SessionState, id: PaneId) returns (k: nat)
    requires s.Valid() && id in Leaves(s.root)
    ensures k < |Leaves(s.root)| && FocusTimes(s, k).focused == id
    ensures forall j | 0 <= j < |Leaves(s.root)| && j != k :: FocusTimes(s, j).focused != id
  {
    var panes := Leaves(s.root);
    var n, from, to := |panes|, IndexOf(panes, s.focused), IndexOf(panes, id);
    k := if to >= from then to - from else to + n - from;
    FocusAfter(s, k);
    forall j | 0 <= j < n && j != k
      ensures FocusTimes(s, j).focused != id
    {
      FocusAfter(s, j);
    }
  }

  // ---- Histories ----

  datatype Op = DoSplit(direction: Direction) | DoFocusNext | DoClose

  /** One operation; a split with no identifier left panics and so never completes. */
  function Apply(s: SessionState, op: Op): (t: SessionState)
    requires s.Valid()
    ensures t.Valid()
  {
    match op
    case DoSplit(direction) =>
      if s.nextId == U64_MAX then s else
        SplitEffect(s, direction);
        SplitFocused(s, direction)
    case DoFocusNext => FocusNext(s)
    case DoClose =>
      if |Leaves(s.root)| == 1 then s else
        CloseEffect(s);
        CloseFocused(s)
  }

  function After(s: SessionState, ops: seq<Op>): (t: SessionState)
    requires s.Valid()
    ensures t.Valid()
    decreases |ops|
  {
    if ops == [] then s else After(Apply(s, ops[0]), ops[1..])
  }

  /** An identifier that was issued and is no longer in the tree never comes back. */
  lemma {:induction false} ClosedPaneNeverReturns(s: SessionState, ops: seq<Op>, id: PaneId)
    requires s.Valid() && id < s.nextId && id !in Leaves(s.root)
    ensures id !in Leaves(After(s, ops).root) && id < After(s, ops).nextId
    decreases |ops|
  {
    if ops != [] {
      match ops[0] {
        case DoSplit(direction) => if s.nextId < U64_MAX { SplitEffect(s, direction); }
        case DoFocusNext =>
        case DoClose => if |Leaves(s.root)| > 1 { CloseEffect(s); }
      }
      ClosedPaneNeverReturns(Apply(s, ops[0]), ops[1..], id);
    }
  }

  function Splits(ops: seq<Op>): nat {
    if ops == [] then 0 else (if ops[0].DoSplit? then 1 else 0) + Splits(ops[1..])
  }

  lemma {:induction false} NextIdCountsSplits(s: SessionState, ops: seq<Op>)
    requires s.Valid()
    ensures After(s, ops).nextId == Min(s.nextId + Splits(ops), U64_MAX) && After(s, ops).name == s.name
    decreases |ops|
  {
    if ops != [] {
      match ops[0] {
        case DoSplit(direction) => if s.nextId < U64_MAX { SplitEffect(s, direction); }
        case DoFocusNext =>
        case DoClose => if |Leaves(s.root)| > 1 { CloseEffect(s); }
      }
      NextIdCountsSplits(Apply(s, ops[0]), ops[1..]);
    }
  }

  /** The first pane of a session is 1, and over every run the splits are given the numbers from 2 on, in order. */
  lemma IdentifiersInOrder(name: SessionName, ops: seq<Op>)
    ensures Leaves(NewSession(name).root) == [1] && NewSession(name).focused == 1
    ensures After(NewSession(name), ops).nextId == Min(2 + Splits(ops), U64_MAX)
    ensures After(NewSession(name), ops).name == name
  {
    NewSessionValid(name);
    NextIdCountsSplits(NewSession(name), ops);
  }
}
