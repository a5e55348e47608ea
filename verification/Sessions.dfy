/** The mutable session object. */
module Sessions {
  import opened Basics
  import opened Names
  import opened PaneTree
  import opened Layout

  /** Pushes the panes of `node` onto `output`. */
  method CollectPanes(node: Node, output: seq<PaneId>) returns (r: seq<PaneId>)
    ensures r == output + Leaves(node)
  {
    match node
    case Pane(id) => r := output + [id];
    case Split(_, first, second) =>
      r := CollectPanes(first, output);
      r := CollectPanes(second, r);
  }

  /** Pushes the panes of `node` and their rectangles onto `output`. */
  method LayoutNode(node: Node, area: Rect, output: seq<(PaneId, Rect)>) returns (r: seq<(PaneId, Rect)>)
    ensures r == output + Layout.Layout(node, area)
  {
    match node
    case Pane(id) => r := output + [(id, area)];
    case Split(direction, first, second) =>
      var (firstArea, secondArea) := SplitRect(area, direction);
      r := LayoutNode(first, firstArea, output);
      r := LayoutNode(second, secondArea, r);
  }

  lemma CloseFocusedIs(s: SessionState, panes: seq<PaneId>, rest: Node, nextFocus: PaneId)
    requires s.Valid() && panes == Leaves(s.root) && |panes| > 1 && RemovePane(s.root, s.focused) == Some(rest)
    requires nextFocus == panes[if IndexOf(panes, s.focused) == 0 then 1 else IndexOf(panes, s.focused) - 1]
    ensures PaneTree.CloseFocused(s) == s.(root := rest, focused := nextFocus)
    ensures PaneTree.CloseFocused(s).Valid()
  {
    CloseEffect(s);
  }

  class Session {
    var name: SessionName
    var root: Node
    var focused: PaneId
    var nextId: PaneId

    ghost function State(): SessionState
      reads this
    {
      SessionState(name, root, focused, nextId)
    }

    ghost predicate Valid()
      reads this
    {
      State().Valid()
    }

    constructor (name: SessionName)
      ensures Valid() && State() == NewSession(name)
    {
      this.name, root, focused, nextId := name, Pane(1), 1, 2;
    }

    /** A copy, `Session::clone`. */
    constructor Clone(other: Session)
      ensures State() == old(other.State())
    {
      name, root, focused, nextId := other.name, other.root, other.focused, other.nextId;
    }

    method Panes() returns (r: seq<PaneId>)
      ensures r == Leaves(root)
    {
      r := CollectPanes(root, []);
    }

    method SplitFocused(direction: Direction) returns (added: PaneId)
      requires Valid() && nextId < U64_MAX
      modifies this
      ensures Valid() && State() == PaneTree.SplitFocused(old(State()), direction) && added == focused
    {
      SplitEffect(State(), direction);
      added := nextId;
      nextId := nextId + 1;
      var (split, _) := SplitNode(root, focused, added, direction);
      root := split;
      focused := added;
    }

    method FocusNext()
      requires Valid()
      modifies this`focused
      ensures Valid() && State() == PaneTree.FocusNext(old(State()))
    {
      var panes := Panes();
      var current := IndexOf(panes, focused);
      focused := panes[(current + 1) % |panes|];
    }

    /** Moves the focus to `target`; a full turn always meets it. */
    method FocusUntil(target: PaneId)
      requires Valid() && target in Leaves(root)
      modifies this`focused
      ensures Valid() && State() == old(State()).(focused := target)
    {
      ghost var k := FocusMeetsEachOnce(State(), target);
      while focused != target
        invariant Valid() && State() == old(State()).(focused := focused)
        invariant 0 <= k < |Leaves(root)| && FocusTimes(State(), k).focused == target
        decreases k
      {
        FocusNext();
        k := k - 1;
      }
    }

    method CloseFocused() returns (closed: bool)
      requires Valid()
      modifies this
      ensures State() == PaneTree.CloseFocused(old(State())) && Valid()
      ensures closed <==> |Leaves(old(root))| > 1
    {
      var panes := Panes();
      if |panes| == 1 {
        return false;
      }
      CloseEffect(State());
      var current := IndexOf(panes, focused);
      var nextFocus := panes[if current == 0 then 1 else current - 1];
      var rest := RemovePane(root, focused);
      CloseFocusedIs(State(), panes, rest.value, nextFocus);
      root := rest.value;
      focused := nextFocus;
      closed := true;
    }

    method LayoutIn(area: Rect) returns (r: seq<(PaneId, Rect)>)
      ensures r == Layout.Layout(root, area)
    {
      r := LayoutNode(root, area, []);
    }
  }
}
