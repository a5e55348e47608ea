/** A session together with the PTYs of its panes, as the daemon and the local front end both keep one. */
module Hosting {
  import opened Basics
  import opened Names
  import opened PaneTree
  import opened Layout
  import opened Sessions
  import opened Registry

  datatype TerminalSize = TerminalSize(rows: u16, cols: u16)

  /** The size of a pane inside its border. */
  function ContentSize(rect: Rect): TerminalSize {
    TerminalSize(Max(SatSub(rect.height, 2), 2), Max(SatSub(rect.width, 2), 2))
  }

  /** A live PTY: which spawn made it, what was written to it, and its size. */
  datatype Pty = Pty(serial: nat, delivered: Bytes, size: TerminalSize)

  /** Why an operation stopped: a call into the operating system failed. */
  datatype Fault = Fault

  /** Whether call number `k` into the operating system (spawn, resize, write or terminate) succeeds. */
  type Oracle = nat -> bool

  /** `LivePty::spawn` as the creation closure of a registry. */
  function Spawning(ok: Oracle, size: TerminalSize): (nat, PaneId) -> Result<Pty, Fault> {
    (k: nat, id: PaneId) => if ok(k) then Success(Pty(k, [], size)) else Failure(Fault)
  }

  /** A session, the PTYs of its panes, and the calls made into the operating system so far. */
  datatype Host = Host(session: SessionState, ptys: map<PaneId, Pty>, calls: nat) {
    /** The registry holds a PTY for exactly the panes of the tree. */
    ghost predicate Valid() {
      session.Valid() && forall id :: id in ptys <==> id in Leaves(session.root)
    }

    /** Every PTY comes from a spawn of its own. */
    ghost predicate OwnSpawns() {
      && (forall id | id in ptys :: ptys[id].serial < calls)
      && (forall id, other | id in ptys && other in ptys && id != other :: ptys[id].serial != ptys[other].serial)
    }
  }

  function PaneSet(s: SessionState): set<PaneId> {
    PaneIds(s.root)
  }

  /** Reconciles the registry with a tree; spawns count as calls. */
  function ReconcileWith(ptys: map<PaneId, Pty>, calls: nat, session: SessionState, ok: Oracle, size: TerminalSize):
    (map<PaneId, Pty>, Result<seq<(PaneId, Pty)>, Fault>, nat)
  {
    var create := Spawning(ok, size);
    var (after, result) := Reconciled(ptys, PaneSet(session), create, calls);
    (after, result, calls + |Calls(SortedIds(PaneSet(session) - ptys.Keys), create, calls)|)
  }

  lemma ReconcileWithIs(
    ptys: map<PaneId, Pty>, calls: nat, session: SessionState, ok: Oracle, size: TerminalSize,
    after: map<PaneId, Pty>, result: Result<seq<(PaneId, Pty)>, Fault>, asked: seq<PaneId>)
    requires (after, result) == Reconciled(ptys, PaneSet(session), Spawning(ok, size), calls)
    requires asked == Calls(SortedIds(PaneSet(session) - ptys.Keys), Spawning(ok, size), calls)
    ensures ReconcileWith(ptys, calls, session, ok, size) == (after, result, calls + |asked|)
  {
  }

  /** Gives each pane of a layout its content size, stopping at the first PTY that cannot be resized. */
  function ResizedPtys(ptys: map<PaneId, Pty>, layout: seq<(PaneId, Rect)>, calls: nat, ok: Oracle):
    (map<PaneId, Pty>, nat, bool)
    decreases |layout|
  {
    if layout == [] then (ptys, calls, true)
    else
      var (id, rect) := layout[0];
      if id !in ptys then ResizedPtys(ptys, layout[1..], calls, ok)
      else if !ok(calls) then (ptys, calls + 1, false)
      else ResizedPtys(ptys[id := ptys[id].(size := ContentSize(rect))], layout[1..], calls + 1, ok)
  }

  function ResizeHost(h: Host, area: Rect, ok: Oracle): (Host, bool) {
    var (ptys, calls, done) := ResizedPtys(h.ptys, Layout.Layout(h.session.root, area), h.calls, ok);
    (h.(ptys := ptys, calls := calls), done)
  }

  const SPAWN_SIZE := TerminalSize(2, 2)

  /**
    * Splits the focused pane once its PTY is running, then resizes every pane. With no identifier left
    * the source panics before it changes anything; here the split fails.
    */
  function SplitHost(h: Host, direction: Direction, area: Rect, ok: Oracle): (Host, bool) {
    if h.session.nextId == U64_MAX then (h, false)
    else
      var candidate := SplitFocused(h.session, direction);
      var (ptys, result, calls) := ReconcileWith(h.ptys, h.calls, candidate, ok, SPAWN_SIZE);
      if result.Failure? then (h.(ptys := ptys, calls := calls), false)
      else ResizeHost(Host(candidate, ptys, calls), area, ok)
  }

  /** Terminates `n` PTYs in turn, stopping at the first that fails. */
  function Terminated(n: nat, calls: nat, ok: Oracle): (nat, bool) {
    if n == 0 then (calls, true)
    else if !ok(calls) then (calls + 1, false)
    else Terminated(n - 1, calls + 1, ok)
  }

  /** Closes the focused pane and terminates its PTY. */
  function CloseHost(h: Host, ok: Oracle): (Host, bool)
    requires h.session.focused in Leaves(h.session.root)
  {
    if |Leaves(h.session.root)| == 1 then (h, true)
    else
      var session := CloseFocused(h.session);
      TerminateRemoved(session, ReconcileWith(h.ptys, h.calls, session, ok, SPAWN_SIZE), ok)
  }

  /** The host after a close: what its registry handed back is terminated. */
  function TerminateRemoved(
    session: SessionState, reconciled: (map<PaneId, Pty>, Result<seq<(PaneId, Pty)>, Fault>, nat), ok: Oracle):
    (Host, bool)
  {
    var (ptys, result, calls) := reconciled;
    if result.Failure? then (Host(session, ptys, calls), false)
    else
      var (last, done) := Terminated(|result.value|, calls, ok);
      (Host(session, ptys, last), done)
  }

  function FocusHost(h: Host): Host
    requires h.session.focused in Leaves(h.session.root)
  {
    h.(session := FocusNext(h.session))
  }

  /** Writes to the focused pane. */
  function WriteHost(h: Host, bytes: Bytes, ok: Oracle): (Host, bool)
    requires h.session.focused in h.ptys
  {
    var id := h.session.focused;
    if ok(h.calls) then
      (h.(ptys := h.ptys[id := h.ptys[id].(delivered := h.ptys[id].delivered + bytes)], calls := h.calls + 1), true)
    else (h.(calls := h.calls + 1), false)
  }

  /** A new session with its first PTY. */
  function OpenHost(name: SessionName, size: TerminalSize, ok: Oracle): (Host, bool) {
    var session := NewSession(name);
    var (ptys, result, calls) := ReconcileWith(map[], 0, session, ok, size);
    (Host(session, ptys, calls), result.Success?)
  }

  // ---- What reconciliation comes to for one new, one closed or no pane ----

  lemma OneSorted(id: PaneId)
    ensures SortedIds({id}) == [id]
  {
    var r := SortedIds({id});
    assert |r| == 1 && r[0] in r;
  }

  /** One missing pane: one spawn, whose PTY joins the registry; if it fails the registry stays as it is. */
  lemma ReconcileOneNew(
    ptys: map<PaneId, Pty>, calls: nat, session: SessionState, id: PaneId, ok: Oracle, size: TerminalSize)
    requires PaneSet(session) == ptys.Keys + {id} && id !in ptys
    ensures ReconcileWith(ptys, calls, session, ok, size) ==
            if ok(calls) then (ptys[id := Pty(calls, [], size)], Success([]), calls + 1)
            else (ptys, Failure(Fault), calls + 1)
  {
    var wanted := PaneSet(session);
    var create := Spawning(ok, size);
    OneSorted(id);
    assert wanted - ptys.Keys == {id} && ptys.Keys - wanted == {};
    assert [id][..0] == [];
    assert Calls([id], create, calls) == [id];
    if ok(calls) {
      var pty := Pty(calls, [], size);
      assert Created([id], create, calls).value == [(id, pty)];
      assert Kept(ptys, wanted) == ptys;
      assert [(id, pty)][1..] == [];
      assert Entries(ptys, SortedIds(ptys.Keys - wanted)) == [];
      assert Extended(ptys, [(id, pty)]) == ptys[id := pty];
    }
  }

  /** One pane too many: nothing is spawned and exactly its PTY is handed back. */
  lemma ReconcileOneGone(
    ptys: map<PaneId, Pty>, calls: nat, session: SessionState, id: PaneId, ok: Oracle, size: TerminalSize)
    requires id in ptys && PaneSet(session) == ptys.Keys - {id}
    ensures ReconcileWith(ptys, calls, session, ok, size) == (ptys - {id}, Success([(id, ptys[id])]), calls)
  {
    var wanted := PaneSet(session);
    var create := Spawning(ok, size);
    OneSorted(id);
    assert wanted - ptys.Keys == {};
    assert ptys.Keys - wanted == {id};
    assert Kept(ptys, wanted) == ptys - {id};
    assert Entries(ptys, [id]) == [(id, ptys[id])];
  }

  // ---- Resizing touches nothing but sizes ----

  /** The same panes, with the same spawns and the same bytes delivered. */
  ghost predicate SamePtysButSize(a: map<PaneId, Pty>, b: map<PaneId, Pty>) {
    && (forall id :: id in a <==> id in b)
    && forall id | id in a :: a[id].serial == b[id].serial && a[id].delivered == b[id].delivered
  }

  lemma {:induction false} ResizeKeepsPtys(
    ptys: map<PaneId, Pty>, layout: seq<(PaneId, Rect)>, calls: nat, ok: Oracle)
    ensures var (after, last, _) := ResizedPtys(ptys, layout, calls, ok);
            SamePtysButSize(ptys, after) && last >= calls
    decreases |layout|
  {
    if layout != [] {
      var (id, rect) := layout[0];
      if id !in ptys {
        ResizeKeepsPtys(ptys, layout[1..], calls, ok);
      } else if ok(calls) {
        ResizeKeepsPtys(ptys[id := ptys[id].(size := ContentSize(rect))], layout[1..], calls + 1, ok);
      }
    }
  }

  /** A resize that succeeds gives every pane of the tree the content size of its rectangle. */
  lemma {:induction false} ResizeSetsSizes(
    ptys: map<PaneId, Pty>, layout: seq<(PaneId, Rect)>, calls: nat, ok: Oracle)
    requires forall i, j | 0 <= i < j < |layout| :: layout[i].0 != layout[j].0
    ensures var (after, _, done) := ResizedPtys(ptys, layout, calls, ok);
            && (done ==> forall i | 0 <= i < |layout| && layout[i].0 in ptys ::
                  layout[i].0 in after && after[layout[i].0].size == ContentSize(layout[i].1))
            && (forall id | id in ptys && forall i | 0 <= i < |layout| :: layout[i].0 != id ::
                  id in after && after[id] == ptys[id])
    decreases |layout|
  {
    if layout != [] {
      var (id, rect) := layout[0];
      var rest := layout[1..];
      if id !in ptys {
        ResizeSetsSizes(ptys, rest, calls, ok);
      } else if ok(calls) {
        ResizeSetsSizes(ptys[id := ptys[id].(size := ContentSize(rect))], rest, calls + 1, ok);
        assert forall i | 0 <= i < |rest| :: rest[i].0 != id;
      }
    }
  }

  lemma ResizeHostKeeps(h: Host, area: Rect, ok: Oracle)
    requires h.Valid()
    ensures var (t, _) := ResizeHost(h, area, ok);
            t.Valid() && t.session == h.session && SamePtysButSize(h.ptys, t.ptys)
  {
    ResizeKeepsPtys(h.ptys, Layout.Layout(h.session.root, area), h.calls, ok);
  }

  /** A pane in both hosts has the same PTY in both, which has lost none of its input. */
  ghost predicate KeepsPtys(a: Host, b: Host) {
    forall id | id in a.ptys && id in b.ptys ::
      a.ptys[id].serial == b.ptys[id].serial && a.ptys[id].delivered <= b.ptys[id].delivered
  }

  // ---- Every operation keeps tree and registry in agreement, whatever fails ----

  lemma OpenHostValid(name: SessionName, size: TerminalSize, ok: Oracle)
    ensures var (h, done) := OpenHost(name, size, ok);
            && (done <==> ok(0))
            && (done ==> h.Valid() && h == Host(NewSession(name), map[1 := Pty(0, [], size)], 1))
  {
    var session := NewSession(name);
    ReconcileOneNew(map[], 0, session, 1, ok, size);
    NewSessionValid(name);
  }

  /** The host after a split has its PTY and before it resizes. */
  function Grown(h: Host, direction: Direction): Host
    requires h.session.nextId < U64_MAX
  {
    Host(SplitFocused(h.session, direction), h.ptys[h.session.nextId := Pty(h.calls, [], SPAWN_SIZE)], h.calls + 1)
  }

  lemma GrownValid(h: Host, direction: Direction)
    requires h.Valid() && h.session.nextId < U64_MAX
    ensures Grown(h, direction).Valid()
    ensures h.session.nextId !in h.ptys && PaneSet(Grown(h, direction).session) == h.ptys.Keys + {h.session.nextId}
  {
    SplitEffect(h.session, direction);
  }

  /** What a split does before it resizes: with no PTY for the new pane, nothing. */
  lemma SplitHostSteps(h: Host, direction: Direction, area: Rect, ok: Oracle)
    requires h.Valid() && h.session.nextId < U64_MAX
    ensures SplitHost(h, direction, area, ok) ==
            if ok(h.calls) then ResizeHost(Grown(h, direction), area, ok) else (h.(calls := h.calls + 1), false)
  {
    GrownValid(h, direction);
    ReconcileOneNew(h.ptys, h.calls, SplitFocused(h.session, direction), h.session.nextId, ok, SPAWN_SIZE);
  }

  lemma SplitHostIs(
    h: Host, direction: Direction, area: Rect, ok: Oracle, ptys: map<PaneId, Pty>,
    result: Result<seq<(PaneId, Pty)>, Fault>, calls: nat)
    requires h.session.nextId < U64_MAX
    requires (ptys, result, calls) ==
             ReconcileWith(h.ptys, h.calls, SplitFocused(h.session, direction), ok, SPAWN_SIZE)
    ensures SplitHost(h, direction, area, ok) ==
            if result.Failure? then (h.(ptys := ptys, calls := calls), false)
            else ResizeHost(Host(SplitFocused(h.session, direction), ptys, calls), area, ok)
  {
  }

  /** A split that gets a PTY commits the new tree; one that does not leaves tree and registry unchanged. */
  lemma SplitHostEffect(h: Host, direction: Direction, area: Rect, ok: Oracle)
    requires h.Valid()
    ensures var (t, done) := SplitHost(h, direction, area, ok);
            && t.Valid()
            && (if h.session.nextId < U64_MAX && ok(h.calls)
                then
                  && t.session == SplitFocused(h.session, direction)
                  && SamePtysButSize(h.ptys[h.session.nextId := Pty(h.calls, [], SPAWN_SIZE)], t.ptys)
                else !done && t.session == h.session && t.ptys == h.ptys)
  {
    if h.session.nextId < U64_MAX {
      SplitHostSteps(h, direction, area, ok);
      GrownValid(h, direction);
      ResizeHostKeeps(Grown(h, direction), area, ok);
    }
  }

  lemma SplitHostValid(h: Host, direction: Direction, area: Rect, ok: Oracle)
    requires h.Valid()
    ensures var t := SplitHost(h, direction, area, ok).0;
            t.Valid() && |Leaves(t.session.root)| <= |Leaves(h.session.root)| + 1
  {
    SplitHostEffect(h, direction, area, ok);
    if h.session.nextId < U64_MAX {
      SplitEffect(h.session, direction);
    }
  }

  lemma ShrunkValid(h: Host)
    requires h.Valid() && |Leaves(h.session.root)| > 1
    ensures Host(CloseFocused(h.session), h.ptys - {h.session.focused}, h.calls + 1).Valid()
    ensures PaneSet(CloseFocused(h.session)) == h.ptys.Keys - {h.session.focused}
  {
    CloseEffect(h.session);
  }

  lemma CloseReconciles(h: Host, ok: Oracle)
    requires h.Valid() && |Leaves(h.session.root)| > 1
    ensures ReconcileWith(h.ptys, h.calls, CloseFocused(h.session), ok, SPAWN_SIZE) ==
            (h.ptys - {h.session.focused}, Success([(h.session.focused, h.ptys[h.session.focused])]), h.calls)
  {
    ShrunkValid(h);
    ReconcileOneGone(h.ptys, h.calls, CloseFocused(h.session), h.session.focused, ok, SPAWN_SIZE);
  }

  lemma TerminateOne(session: SessionState, ptys: map<PaneId, Pty>, removed: (PaneId, Pty), calls: nat, ok: Oracle)
    ensures TerminateRemoved(session, (ptys, Success([removed]), calls), ok) ==
            (Host(session, ptys, calls + 1), ok(calls))
  {
    assert Terminated(1, calls, ok) == (calls + 1, ok(calls));
  }

  lemma CloseHostOne(h: Host, session: SessionState, ptys: map<PaneId, Pty>, removed: (PaneId, Pty), ok: Oracle)
    requires h.session.focused in Leaves(h.session.root) && |Leaves(h.session.root)| > 1
    requires session == CloseFocused(h.session)
    requires ReconcileWith(h.ptys, h.calls, session, ok, SPAWN_SIZE) == (ptys, Success([removed]), h.calls)
    ensures CloseHost(h, ok) == (Host(session, ptys, h.calls + 1), ok(h.calls))
  {
    TerminateOne(session, ptys, removed, h.calls, ok);
  }

  /** A close never spawns, drops exactly the focused pane's PTY and leaves the others untouched. */
  lemma CloseHostSteps(h: Host, ok: Oracle)
    requires h.Valid()
    ensures CloseHost(h, ok) ==
            if |Leaves(h.session.root)| == 1 then (h, true)
            else (Host(CloseFocused(h.session), h.ptys - {h.session.focused}, h.calls + 1), ok(h.calls))
  {
    if |Leaves(h.session.root)| > 1 {
      CloseReconciles(h, ok);
      var id := h.session.focused;
      CloseHostOne(h, CloseFocused(h.session), h.ptys - {id}, (id, h.ptys[id]), ok);
    }
  }

  lemma CloseHostValid(h: Host, ok: Oracle)
    requires h.Valid()
    ensures CloseHost(h, ok).0.Valid()
    ensures |Leaves(CloseHost(h, ok).0.session.root)| <= |Leaves(h.session.root)|
  {
    CloseHostSteps(h, ok);
    if |Leaves(h.session.root)| > 1 {
      ShrunkValid(h);
      CloseEffect(h.session);
    }
  }

  /** A later state of a session: the same name, no closed pane has come back, and every pane kept its PTY. */
  ghost predicate LaterHost(a: Host, b: Host) {
    && a.session.name == b.session.name
    && a.session.nextId <= b.session.nextId
    && (forall id | id < a.session.nextId && id !in Leaves(a.session.root) :: id !in Leaves(b.session.root))
    && KeepsPtys(a, b)
  }

  lemma SplitHostLater(h: Host, direction: Direction, area: Rect, ok: Oracle)
    requires h.Valid()
    ensures LaterHost(h, SplitHost(h, direction, area, ok).0)
  {
    SplitHostEffect(h, direction, area, ok);
    if h.session.nextId < U64_MAX {
      SplitEffect(h.session, direction);
    }
  }

  lemma CloseHostLater(h: Host, ok: Oracle)
    requires h.Valid()
    ensures LaterHost(h, CloseHost(h, ok).0)
  {
    CloseHostSteps(h, ok);
    if |Leaves(h.session.root)| > 1 {
      CloseEffect(h.session);
    }
  }

  lemma ResizeHostLater(h: Host, area: Rect, ok: Oracle)
    requires h.Valid()
    ensures LaterHost(h, ResizeHost(h, area, ok).0)
  {
    ResizeHostKeeps(h, area, ok);
  }

  lemma LaterHostComposes(a: Host, b: Host, c: Host)
    requires a.Valid() && b.Valid() && c.Valid() && LaterHost(a, b) && LaterHost(b, c)
    ensures LaterHost(a, c)
  {
    forall id | id in a.ptys && id in c.ptys
      ensures id in b.ptys
    {
      assert id in Leaves(a.session.root) && id in Leaves(c.session.root);
    }
  }

  /** A split gives its pane a PTY of its own. */
  lemma SplitKeepsOwnSpawns(h: Host, direction: Direction, area: Rect, ok: Oracle)
    requires h.Valid() && h.OwnSpawns()
    ensures SplitHost(h, direction, area, ok).0.OwnSpawns()
  {
    if h.session.nextId < U64_MAX {
      SplitHostSteps(h, direction, area, ok);
      assert Grown(h, direction).OwnSpawns();
      ResizeKeepsOwnSpawns(Grown(h, direction), area, ok);
    }
  }

  lemma CloseKeepsOwnSpawns(h: Host, ok: Oracle)
    requires h.Valid() && h.OwnSpawns()
    ensures CloseHost(h, ok).0.OwnSpawns()
  {
    CloseHostSteps(h, ok);
  }

  lemma OpenHostOwnsSpawns(name: SessionName, size: TerminalSize, ok: Oracle)
    requires ok(0)
    ensures OpenHost(name, size, ok).0.OwnSpawns()
  {
    OpenHostValid(name, size, ok);
  }

  lemma WriteKeepsOwnSpawns(h: Host, bytes: Bytes, ok: Oracle)
    requires h.Valid() && h.OwnSpawns()
    ensures WriteHost(h, bytes, ok).0.OwnSpawns()
  {
  }

  lemma ResizeKeepsOwnSpawns(h: Host, area: Rect, ok: Oracle)
    requires h.OwnSpawns()
    ensures ResizeHost(h, area, ok).0.OwnSpawns()
  {
    ResizeKeepsPtys(h.ptys, Layout.Layout(h.session.root, area), h.calls, ok);
  }

  // ---- What each operation does, and when it succeeds ----

  /** The next `count` calls into the operating system succeed. */
  ghost predicate AllOk(ok: Oracle, from: nat, count: nat) {
    forall k | from <= k < from + count :: ok(k)
  }

  /** A resize succeeds exactly if each of its calls does: one for every pane. */
  lemma {:induction false} ResizeSucceedsIff(
    ptys: map<PaneId, Pty>, layout: seq<(PaneId, Rect)>, calls: nat, ok: Oracle)
    requires forall i | 0 <= i < |layout| :: layout[i].0 in ptys
    ensures var (_, last, done) := ResizedPtys(ptys, layout, calls, ok);
            (done <==> AllOk(ok, calls, |layout|)) && (done ==> last == calls + |layout|)
    decreases |layout|
  {
    if layout != [] && ok(calls) {
      var (id, rect) := layout[0];
      ResizeSucceedsIff(ptys[id := ptys[id].(size := ContentSize(rect))], layout[1..], calls + 1, ok);
    }
  }

  lemma LayoutHasPtys(h: Host, area: Rect)
    requires h.Valid()
    ensures forall i | 0 <= i < |Leaves(h.session.root)| ::
              Layout.Layout(h.session.root, area)[i].0 == Leaves(h.session.root)[i]
    ensures forall i | 0 <= i < |Layout.Layout(h.session.root, area)| ::
              Layout.Layout(h.session.root, area)[i].0 in h.ptys
  {
    forall i | 0 <= i < |Leaves(h.session.root)|
      ensures Layout.Layout(h.session.root, area)[i].0 == Leaves(h.session.root)[i]
    {
      LayoutOrder(h.session.root, area, i);
    }
  }

  lemma ResizeHostSucceedsIff(h: Host, area: Rect, ok: Oracle)
    requires h.Valid()
    ensures var (t, done) := ResizeHost(h, area, ok);
            var n := |Leaves(h.session.root)|;
            (done <==> AllOk(ok, h.calls, n)) && (done ==> t.calls == h.calls + n)
  {
    LayoutHasPtys(h, area);
    ResizeSucceedsIff(h.ptys, Layout.Layout(h.session.root, area), h.calls, ok);
  }

  /** After a resize that succeeds every PTY is as large as its pane without the border, and at least 2 by 2. */
  lemma ResizeLeavesBorder(h: Host, area: Rect, ok: Oracle, id: PaneId)
    requires h.Valid() && ResizeHost(h, area, ok).1 && id in Leaves(h.session.root)
    ensures var rect := RectOf(h.session.root, area, id);
            var t := ResizeHost(h, area, ok).0;
            && id in t.ptys
            && t.ptys[id].size.cols == (if rect.width > 4 then rect.width - 2 else 2)
            && t.ptys[id].size.rows == (if rect.height > 4 then rect.height - 2 else 2)
  {
    var layout := Layout.Layout(h.session.root, area);
    var i := IndexOf(Leaves(h.session.root), id);
    LayoutHasPtys(h, area);
    LayoutIsRectOf(h.session.root, area, i);
    ResizeSetsSizes(h.ptys, layout, h.calls, ok);
  }

  /** A split succeeds exactly if there is an identifier left, its spawn succeeds and so does every resize after it. */
  lemma SplitSucceedsIff(h: Host, direction: Direction, area: Rect, ok: Oracle)
    requires h.Valid()
    ensures SplitHost(h, direction, area, ok).1 <==>
            h.session.nextId < U64_MAX && AllOk(ok, h.calls, |Leaves(h.session.root)| + 2)
  {
    if h.session.nextId < U64_MAX {
      SplitHostSteps(h, direction, area, ok);
      if ok(h.calls) {
        GrownValid(h, direction);
        SplitEffect(h.session, direction);
        ResizeHostSucceedsIff(Grown(h, direction), area, ok);
        AllOkFirst(ok, h.calls, |Leaves(h.session.root)| + 1);
      }
    }
  }

  lemma AllOkFirst(ok: Oracle, from: nat, count: nat)
    ensures AllOk(ok, from, count + 1) <==> ok(from) && AllOk(ok, from + 1, count)
  {
  }

  /** After a split that succeeds every PTY, the new one included, fits its pane in the new tree. */
  lemma SplitLeavesBorder(h: Host, direction: Direction, area: Rect, ok: Oracle, id: PaneId)
    requires h.Valid() && SplitHost(h, direction, area, ok).1
    requires id in Leaves(h.session.root) || id == h.session.nextId
    ensures var t := SplitHost(h, direction, area, ok).0;
            && id in Leaves(t.session.root) && id in t.ptys
            && var rect := RectOf(t.session.root, area, id);
            && t.ptys[id].size.cols == (if rect.width > 4 then rect.width - 2 else 2)
            && t.ptys[id].size.rows == (if rect.height > 4 then rect.height - 2 else 2)
  {
    SplitSucceedsIff(h, direction, area, ok);
    SplitHostSteps(h, direction, area, ok);
    AllOkFirst(ok, h.calls, |Leaves(h.session.root)| + 1);
    GrownValid(h, direction);
    SplitEffect(h.session, direction);
    ResizeHostKeeps(Grown(h, direction), area, ok);
    ResizeLeavesBorder(Grown(h, direction), area, ok, id);
  }

  /** A split that gets its PTY divides the focused pane's room in the direction asked for. */
  lemma SplitHostDividesRoom(h: Host, direction: Direction, area: Rect, ok: Oracle)
    requires h.Valid() && h.session.nextId < U64_MAX && ok(h.calls) && area.InRange()
    ensures SplitsRoom(h.session, SplitHost(h, direction, area, ok).0.session, direction, area)
  {
    SplitHostEffect(h, direction, area, ok);
    SplitDividesRoom(h.session, direction, area);
  }

  /** Exactly these bytes reach pane `id`; nothing reaches another pane, and nothing else changes but the call count. */
  ghost predicate Delivers(a: Host, b: Host, id: PaneId, bytes: Bytes) {
    && b.session == a.session
    && (forall p :: p in b.ptys <==> p in a.ptys)
    && (forall p | p in a.ptys ::
          b.ptys[p] == if p == id then a.ptys[p].(delivered := a.ptys[p].delivered + bytes) else a.ptys[p])
  }

  /** A write that succeeds reaches the focused pane and no other; one that fails reaches none. */
  lemma WriteEffect(h: Host, bytes: Bytes, ok: Oracle)
    requires h.Valid()
    ensures var (t, done) := WriteHost(h, bytes, ok);
            && done == ok(h.calls) && t.calls == h.calls + 1
            && Delivers(h, t, h.session.focused, if done then bytes else [])
  {
  }

  lemma DeliversComposes(a: Host, b: Host, c: Host, id: PaneId, first: Bytes, second: Bytes)
    requires Delivers(a, b, id, first) && Delivers(b, c, id, second)
    ensures Delivers(a, c, id, first + second)
  {
    if id in a.ptys {
      assert a.ptys[id].delivered + first + second == a.ptys[id].delivered + (first + second);
    }
  }

  lemma DeliversNothing(h: Host, id: PaneId)
    ensures Delivers(h, h, id, [])
  {
    if id in h.ptys {
      assert h.ptys[id].delivered + [] == h.ptys[id].delivered;
    }
  }

  /** Focusing moves the focus to the next pane in visual order, or from the last to the first. */
  lemma FocusHostEffect(h: Host)
    requires h.Valid()
    ensures var panes := Leaves(h.session.root);
            var i := IndexOf(panes, h.session.focused);
            FocusHost(h) == h.(session := h.session.(focused := if i + 1 == |panes| then panes[0] else panes[i + 1]))
  {
    var panes := Leaves(h.session.root);
    CyclicSmall(IndexOf(panes, h.session.focused) + 1, |panes|);
  }

  // ---- The same operations on the mutable objects ----

  /** The operating system as one session sees it. */
  class World {
    const ok: Oracle
    var calls: nat

    constructor (ok: Oracle)
      ensures this.ok == ok && calls == 0
    {
      this.ok, calls := ok, 0;
    }

    /** Makes one call and reports whether it succeeded. */
    method Call() returns (done: bool)
      modifies this
      ensures done == ok(old(calls)) && calls == old(calls) + 1
    {
      done := ok(calls);
      calls := calls + 1;
    }
  }

  ghost function View(session: Session, panes: PaneRegistry<Pty>, world: World): Host
    reads session, panes, world
  {
    Host(session.State(), panes.resources, world.calls)
  }

  /** Reconciles a registry with a session, spawning PTYs of the given size. */
  method ReconcilePanes(session: Session, panes: PaneRegistry<Pty>, world: World, size: TerminalSize)
    returns (r: Result<seq<(PaneId, Pty)>, Fault>)
    modifies panes, world
    ensures (panes.resources, r, world.calls) ==
            ReconcileWith(old(panes.resources), old(world.calls), session.State(), world.ok, size)
  {
    ghost var state := session.State();
    var create := Spawning(world.ok, size);
    var calls;
    r, calls := panes.Reconcile(session, create, world.calls);
    assert session.State() == state;
    ReconcileWithIs(old(panes.resources), old(world.calls), state, world.ok, size, panes.resources, r, calls);
    world.calls := world.calls + |calls|;
  }

  /** Gives every pane the content size of its rectangle. */
  method ResizePanes(session: Session, panes: PaneRegistry<Pty>, world: World, area: Rect) returns (done: bool)
    modifies panes, world
    ensures (View(session, panes, world), done) == ResizeHost(old(View(session, panes, world)), area, world.ok)
  {
    var layout := session.LayoutIn(area);
    assert layout[0..] == layout;
    for i := 0 to |layout|
      invariant session.State() == old(session.State())
      invariant ResizedPtys(panes.resources, layout[i..], world.calls, world.ok) ==
                ResizedPtys(old(panes.resources), layout, old(world.calls), world.ok)
    {
      var (id, rect) := layout[i];
      assert layout[i..][1..] == layout[i + 1..];
      if id in panes.resources {
        var resized := world.Call();
        if !resized {
          return false;
        }
        panes.resources := panes.resources[id := panes.resources[id].(size := ContentSize(rect))];
      }
    }
    done := true;
  }

  /** Terminates PTYs that left the registry. */
  method TerminateAll(removed: seq<(PaneId, Pty)>, world: World) returns (done: bool)
    modifies world
    ensures (world.calls, done) == Terminated(|removed|, old(world.calls), world.ok)
  {
    for i := 0 to |removed|
      invariant Terminated(|removed| - i, world.calls, world.ok) == Terminated(|removed|, old(world.calls), world.ok)
    {
      var terminated := world.Call();
      if !terminated {
        return false;
      }
    }
    done := true;
  }

  /** Splits a copy of a session; the copy is handed out once the PTY of its new pane is running. */
  method Grow(session: Session, panes: PaneRegistry<Pty>, world: World, direction: Direction, ghost area: Rect)
    returns (r: Result<Session, Fault>)
    requires session.Valid()
    modifies panes, world
    ensures r.Success? ==> fresh(r.value)
    ensures SplitHost(old(View(session, panes, world)), direction, area, world.ok) ==
            if r.Failure? then (View(session, panes, world), false)
            else ResizeHost(View(r.value, panes, world), area, world.ok)
  {
    if session.nextId == U64_MAX {
      return Failure(Fault);
    }
    var candidate := new Session.Clone(session);
    var _ := candidate.SplitFocused(direction);
    var spawned := ReconcilePanes(candidate, panes, world, SPAWN_SIZE);
    SplitHostIs(old(View(session, panes, world)), direction, area, world.ok, panes.resources, spawned, world.calls);
    if spawned.Failure? {
      return Failure(spawned.error);
    }
    r := Success(candidate);
  }

  /** Closes the focused pane and terminates what the registry hands back. */
  method Shrink(session: Session, panes: PaneRegistry<Pty>, world: World) returns (done: bool)
    requires session.Valid()
    modifies session, panes, world
    ensures (View(session, panes, world), done) == CloseHost(old(View(session, panes, world)), world.ok)
  {
    var closed := session.CloseFocused();
    if !closed {
      return true;
    }
    var removed := ReconcilePanes(session, panes, world, SPAWN_SIZE);
    if removed.Failure? {
      return false;
    }
    done := TerminateAll(removed.value, world);
  }

  /** Writes to the focused pane. */
  method WriteFocused(session: Session, panes: PaneRegistry<Pty>, world: World, bytes: Bytes) returns (done: bool)
    requires session.focused in panes.resources
    modifies panes, world
    ensures (View(session, panes, world), done) == WriteHost(old(View(session, panes, world)), bytes, world.ok)
  {
    done := world.Call();
    if done {
      var pty := panes.resources[session.focused];
      panes.resources := panes.resources[session.focused := pty.(delivered := pty.delivered + bytes)];
    }
  }
}
