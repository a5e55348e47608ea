/** What keys typed into the local application do, from the bytes of the keys to panes, cells and input. */
module Keystrokes {
  import opened Basics
  import opened Names
  import opened PaneTree
  import opened Layout
  import opened Hosting
  import opened Service
  import opened Router
  import opened Frontends

  /** The cells of the window that show panes: all rows but the status row. */
  function Window(l: Local): Rect {
    Rect(0, 0, l.cols, if l.rows > 0 then l.rows - 1 else 0)
  }

  // ---- Input ----

  /** What input the bytes of a key come to, and how many writes that takes. */
  function Writes(actions: seq<InputAction>): nat {
    if actions == [] then 0 else (if actions[0].Forward? then 1 else 0) + Writes(actions[1..])
  }

  /** One byte that is no part of a command: what it forwards is written to the focused pane. */
  lemma ByteDelivers(l: Local, b: byte, ok: Oracle)
    requires l.host.Valid() && l.status == Running && !Routed(l.pending, b).1.Command?
    requires Routed(l.pending, b).1.Forward? ==> ok(l.host.calls)
    ensures var (pending, action) := Routed(l.pending, b);
            var t := LocalByte(l, b, ok);
            && t == l.(host := t.host, pending := pending)
            && t.host.calls == l.host.calls + Writes([action])
            && Delivers(l.host, t.host, l.host.session.focused, Forwarded([action]))
  {
    var (_, action) := Routed(l.pending, b);
    DeliversNothing(l.host, l.host.session.focused);
    if action.Forward? {
      WriteEffect(l.host, action.bytes, ok);
      assert Forwarded([action]) == action.bytes;
    }
  }

  lemma TalliesOf(action: InputAction, rest: seq<InputAction>)
    ensures Forwarded([action] + rest) == Forwarded([action]) + Forwarded(rest)
    ensures Writes([action] + rest) == Writes([action]) + Writes(rest)
    ensures Count([action] + rest, IsCommand) == (if action.Command? then 1 else 0) + Count(rest, IsCommand)
  {
    assert ([action] + rest)[1..] == rest;
  }

  /**
    * A key that is no command, with no failing write: exactly the bytes the router forwards reach the focused
    * pane, in order, and nothing else changes but the held prefix.
    */
  lemma {:induction false} KeyDelivers(l: Local, bytes: Bytes, ok: Oracle)
    requires l.host.Valid() && l.status == Running
    requires var actions := RoutedAll(l.pending, bytes).1;
             Count(actions, IsCommand) == 0 && AllOk(ok, l.host.calls, Writes(actions))
    ensures var (pending, actions) := RoutedAll(l.pending, bytes);
            var t := LocalBytes(l, bytes, ok);
            && t == l.(host := t.host, pending := pending)
            && Delivers(l.host, t.host, l.host.session.focused, Forwarded(actions))
    decreases |bytes|
  {
    var id := l.host.session.focused;
    if bytes == [] {
      DeliversNothing(l.host, id);
    } else {
      var (next, action) := Routed(l.pending, bytes[0]);
      var rest := RoutedAll(next, bytes[1..]).1;
      TalliesOf(action, rest);
      ByteDelivers(l, bytes[0], ok);
      var t := LocalByte(l, bytes[0], ok);
      KeyDelivers(t, bytes[1..], ok);
      DeliversComposes(l.host, t.host, LocalBytes(t, bytes[1..], ok).host, id, Forwarded([action]), Forwarded(rest));
    }
  }

  /** Any bytes can be typed: with each Ctrl-B doubled they reach the focused pane as they are. */
  lemma EscapedKeyDelivers(l: Local, bytes: Bytes, ok: Oracle)
    requires l.host.Valid() && l.status == Running && !l.pending
    requires AllOk(ok, l.host.calls, Writes(RoutedAll(false, Escaped(bytes)).1))
    ensures var t := LocalBytes(l, Escaped(bytes), ok);
            t == l.(host := t.host) && Delivers(l.host, t.host, l.host.session.focused, bytes)
  {
    EscapedIsForwarded(bytes);
    KeyDelivers(l, Escaped(bytes), ok);
  }

  /** The bytes of a key act one after the other, until the application has ended. */
  lemma {:induction false} BytesCompose(l: Local, a: Bytes, b: Bytes, ok: Oracle)
    requires l.host.Valid()
    ensures var t := LocalBytes(l, a, ok);
            LocalBytes(l, a + b, ok) == if t.status == Running then LocalBytes(t, b, ok) else t
    decreases |a|
  {
    if a == [] {
      assert a + b == b;
    } else if l.status == Running {
      assert (a + b)[1..] == a[1..] + b && (a + b)[0] == a[0];
      BytesCompose(LocalByte(l, a[0], ok), a[1..], b, ok);
    }
  }

  // ---- Commands ----

  /** The bytes that Ctrl-B and a key come to. */
  function Typed(key: char): (r: Bytes)
    requires key as int < 128
  {
    [2, key as int]
  }

  lemma CommandTyped(l: Local, key: char, command: MuxCommand, ok: Oracle)
    requires l.host.Valid() && l.status == Running && !l.pending
    requires key as int < 128 && CommandFor(key as int) == Some(command)
    ensures LocalBytes(l, Typed(key), ok) == LocalCommand(l, command, ok)
  {
    var bytes := Typed(key);
    assert bytes[1..] == [key as int] && [key as int][1..] == [];
    assert LocalByte(l, 2, ok) == l.(pending := true);
    assert LocalByte(l.(pending := true), key as int, ok) == LocalCommand(l, command, ok);
    assert LocalBytes(l.(pending := true), [key as int], ok) == LocalCommand(l, command, ok);
  }

  lemma LocalSplitIs(
    l: Local, command: MuxCommand, direction: Direction, area: Rect, ok: Oracle, host: Host, done: bool)
    requires l.host.Valid() && area == PaneArea(l.cols, l.rows)
    requires command == if direction.Horizontal? then SplitHorizontal else SplitVertical
    requires (host, done) == SplitHost(l.host, direction, area, ok)
    ensures LocalCommand(l, command, ok) == l.(host := host, status := if done then Running else Failed)
  {
  }

  /** Ctrl-B % puts a new pane beside the focused one; it fails exactly if a call or the identifiers run out. */
  lemma PercentSplits(l: Local, ok: Oracle)
    requires l.host.Valid() && l.status == Running && !l.pending
    requires l.host.session.nextId < U64_MAX && ok(l.host.calls)
    ensures var t := LocalBytes(l, Typed('%'), ok);
            && SplitsRoom(l.host.session, t.host.session, Horizontal, Window(l))
            && t.status == (if AllOk(ok, l.host.calls, |Leaves(l.host.session.root)| + 2) then Running else Failed)
  {
    CommandTyped(l, '%', SplitHorizontal, ok);
    SplitTyped(l, SplitHorizontal, Horizontal, ok);
  }

  /** Ctrl-B " puts a new pane below the focused one. */
  lemma QuoteSplits(l: Local, ok: Oracle)
    requires l.host.Valid() && l.status == Running && !l.pending
    requires l.host.session.nextId < U64_MAX && ok(l.host.calls)
    ensures var t := LocalBytes(l, Typed('\"'), ok);
            && SplitsRoom(l.host.session, t.host.session, Vertical, Window(l))
            && t.status == (if AllOk(ok, l.host.calls, |Leaves(l.host.session.root)| + 2) then Running else Failed)
  {
    CommandTyped(l, '\"', SplitVertical, ok);
    SplitTyped(l, SplitVertical, Vertical, ok);
  }

  lemma SplitTyped(l: Local, command: MuxCommand, direction: Direction, ok: Oracle)
    requires l.host.Valid() && l.host.session.nextId < U64_MAX && ok(l.host.calls)
    requires command == if direction.Horizontal? then SplitHorizontal else SplitVertical
    ensures var t := LocalCommand(l, command, ok);
            && SplitsRoom(l.host.session, t.host.session, direction, Window(l))
            && t.status == (if AllOk(ok, l.host.calls, |Leaves(l.host.session.root)| + 2) then Running else Failed)
  {
    var area := Window(l);
    assert area == PaneArea(l.cols, l.rows);
    var (host, done) := SplitHost(l.host, direction, area, ok);
    LocalSplitIs(l, command, direction, area, ok, host, done);
    SplitHostDividesRoom(l.host, direction, area, ok);
    SplitSucceedsIff(l.host, direction, area, ok);
  }

  lemma LocalFocusIs(l: Local, ok: Oracle, host: Host)
    requires l.host.Valid() && host == FocusHost(l.host)
    ensures LocalCommand(l, MuxCommand.FocusNext, ok) == l.(host := host)
  {
  }

  /** Ctrl-B o focuses the next pane in visual order, or the first after the last. */
  lemma OFocuses(l: Local, ok: Oracle)
    requires l.host.Valid() && l.status == Running && !l.pending
    ensures var panes := Leaves(l.host.session.root);
            var i := IndexOf(panes, l.host.session.focused);
            var next := if i + 1 == |panes| then panes[0] else panes[i + 1];
            LocalBytes(l, Typed('o'), ok) == l.(host := l.host.(session := l.host.session.(focused := next)))
  {
    CommandTyped(l, 'o', MuxCommand.FocusNext, ok);
    LocalFocusIs(l, ok, FocusHost(l.host));
    FocusHostEffect(l.host);
  }

  /** Ctrl-B x takes the focused pane and its PTY away, unless it is the last pane. */
  lemma XCloses(l: Local, ok: Oracle)
    requires l.host.Valid() && l.status == Running && !l.pending
    ensures var t := LocalBytes(l, Typed('x'), ok);
            var before, after := Leaves(l.host.session.root), Leaves(t.host.session.root);
            var gone := l.host.session.focused;
            if |before| == 1 then t == l
            else
              && (forall id :: id in after <==> id in before && id != gone)
              && t.host.ptys == l.host.ptys - {gone}
              && t.status == (if ok(l.host.calls) then Running else Failed)
  {
    CommandTyped(l, 'x', MuxCommand.CloseFocused, ok);
    CloseHostSteps(l.host, ok);
    if |Leaves(l.host.session.root)| > 1 {
      CloseEffect(l.host.session);
    }
  }

  /** Ctrl-B d and Ctrl-B q stop the application, Ctrl-B [ starts copy mode, and nothing else happens. */
  lemma OtherCommandsTyped(l: Local, ok: Oracle)
    requires l.host.Valid() && l.status == Running && !l.pending
    ensures LocalBytes(l, Typed('d'), ok) == l.(status := Stopped)
    ensures LocalBytes(l, Typed('q'), ok) == l.(status := Stopped)
    ensures LocalBytes(l, Typed('['), ok) == l.(copying := true)
  {
    CommandTyped(l, 'd', MuxCommand.Detach, ok);
    CommandTyped(l, 'q', Quit, ok);
    CommandTyped(l, '[', EnterCopyMode, ok);
    OtherCommandsAre(l, ok);
  }

  lemma OtherCommandsAre(l: Local, ok: Oracle)
    requires l.host.Valid()
    ensures LocalCommand(l, MuxCommand.Detach, ok) == LocalCommand(l, Quit, ok) == l.(status := Stopped)
    ensures LocalCommand(l, EnterCopyMode, ok) == l.(copying := true)
  {
  }

  // ---- Copy mode, the window and the start ----

  /** In copy mode no key reaches a pane, the router or a command; a key only may leave the mode. */
  lemma CopyModeShields(l: Local, bytes: Bytes, leaves: bool, ok: Oracle)
    requires l.host.Valid() && l.status == Running && l.copying
    ensures LocalEvent(l, KeyPress(bytes, leaves), ok) == l.(copying := !leaves)
  {
  }

  /** Outside it a key is its bytes; without a key nothing happens; an application that has ended stays ended. */
  lemma EventsAreBytes(l: Local, bytes: Bytes, leaves: bool, event: Event, ok: Oracle)
    requires l.host.Valid()
    ensures l.status == Running && !l.copying ==> LocalEvent(l, KeyPress(bytes, leaves), ok) == LocalBytes(l, bytes, ok)
    ensures LocalEvent(l, Quiet, ok) == l
    ensures l.status != Running ==> LocalEvent(l, event, ok) == l
  {
    if l.status != Running {
      assert LocalBytes(l, bytes, ok) == l;
    }
  }

  /** A new window size is taken over exactly if every PTY can be resized; panes, focus and keys stay as they are. */
  lemma WindowEffect(l: Local, cols: u16, rows: u16, ok: Oracle)
    requires l.host.Valid() && l.status == Running
    ensures var t := LocalEvent(l, WindowResized(cols, rows), ok);
            && t.host.session == l.host.session && SamePtysButSize(l.host.ptys, t.host.ptys)
            && t.pending == l.pending && t.copying == l.copying
            && (if AllOk(ok, l.host.calls, |Leaves(l.host.session.root)|)
                then t.status == Running && t.cols == cols && t.rows == rows
                else t.status == Failed && t.cols == l.cols && t.rows == l.rows)
  {
    var result := ResizeHost(l.host, PaneArea(cols, rows), ok);
    WindowIs(l, cols, rows, ok, result);
    ResizeHostKeeps(l.host, PaneArea(cols, rows), ok);
    ResizeHostSucceedsIff(l.host, PaneArea(cols, rows), ok);
  }

  /** After it every PTY is as large as its pane in the new window without the border, and at least 2 by 2. */
  lemma WindowFits(l: Local, cols: u16, rows: u16, ok: Oracle, id: PaneId)
    requires l.host.Valid() && l.status == Running && id in Leaves(l.host.session.root)
    requires AllOk(ok, l.host.calls, |Leaves(l.host.session.root)|)
    ensures var t := LocalEvent(l, WindowResized(cols, rows), ok);
            var rect := RectOf(l.host.session.root, Rect(0, 0, cols, if rows > 0 then rows - 1 else 0), id);
            && id in t.host.ptys
            && t.host.ptys[id].size.cols == (if rect.width > 4 then rect.width - 2 else 2)
            && t.host.ptys[id].size.rows == (if rect.height > 4 then rect.height - 2 else 2)
  {
    var result := ResizeHost(l.host, PaneArea(cols, rows), ok);
    WindowIs(l, cols, rows, ok, result);
    ResizeHostSucceedsIff(l.host, PaneArea(cols, rows), ok);
    ResizeLeavesBorder(l.host, PaneArea(cols, rows), ok, id);
  }

  lemma WindowIs(l: Local, cols: u16, rows: u16, ok: Oracle, result: (Host, bool))
    requires l.host.Valid() && l.status == Running && result == ResizeHost(l.host, PaneArea(cols, rows), ok)
    ensures LocalEvent(l, WindowResized(cols, rows), ok) ==
            if result.1 then l.(host := result.0, cols := cols, rows := rows)
            else l.(host := result.0, status := Failed)
  {
  }

  /** The application starts with one pane, focused and unwritten, fitted to the window; two calls can fail. */
  lemma StartEffect(cols: u16, rows: u16, name: SessionName, ok: Oracle)
    ensures var l := LocalStart(cols, rows, name, ok);
            && l.status == (if ok(0) && ok(1) then Running else Failed)
            && !l.pending && !l.copying && l.cols == cols && l.rows == rows
            && l.host.session.name == name && Leaves(l.host.session.root) == [1] && l.host.session.focused == 1
            && (l.status == Running ==>
                  && l.host.Valid() && l.host.calls == 2 && l.host.ptys.Keys == {1}
                  && l.host.ptys[1].serial == 0 && l.host.ptys[1].delivered == []
                  && l.host.ptys[1].size.cols == (if cols > 4 then cols - 2 else 2)
                  && l.host.ptys[1].size.rows == (if rows > 5 then rows - 3 else 2))
  {
    OpenHostValid(name, SPAWN_SIZE, ok);
    if ok(0) {
      var h := OpenHost(name, SPAWN_SIZE, ok).0;
      ResizeHostKeeps(h, PaneArea(cols, rows), ok);
      ResizeHostSucceedsIff(h, PaneArea(cols, rows), ok);
      if ok(1) {
        ResizeLeavesBorder(h, PaneArea(cols, rows), ok, 1);
      }
    }
  }
}
