/** The local application over whole runs, with shells that exit at any time. */
module LocalRuns {
  import opened Basics
  import opened PaneTree
  import opened Layout
  import opened Hosting
  import opened Service
  import opened Router
  import opened Frontends

  /** No closed pane has come back, every remaining pane has kept its PTY and input, and no PTY has become shared. */
  ghost predicate Follows(a: Host, b: Host) {
    b.Valid() && LaterHost(a, b) && (a.OwnSpawns() ==> b.OwnSpawns())
  }

  lemma FollowsComposes(a: Host, b: Host, c: Host)
    requires a.Valid() && Follows(a, b) && Follows(b, c)
    ensures Follows(a, c)
  {
    LaterHostComposes(a, b, c);
  }

  lemma SplitFollows(h: Host, direction: Direction, area: Rect, ok: Oracle)
    requires h.Valid()
    ensures Follows(h, SplitHost(h, direction, area, ok).0)
  {
    SplitHostValid(h, direction, area, ok);
    SplitHostLater(h, direction, area, ok);
    if h.OwnSpawns() {
      SplitKeepsOwnSpawns(h, direction, area, ok);
    }
  }

  lemma CloseFollows(h: Host, ok: Oracle)
    requires h.Valid()
    ensures Follows(h, CloseHost(h, ok).0)
  {
    CloseHostValid(h, ok);
    CloseHostLater(h, ok);
    if h.OwnSpawns() {
      CloseKeepsOwnSpawns(h, ok);
    }
  }

  lemma ResizeFollows(h: Host, area: Rect, ok: Oracle)
    requires h.Valid()
    ensures Follows(h, ResizeHost(h, area, ok).0)
  {
    ResizeHostKeeps(h, area, ok);
    ResizeHostLater(h, area, ok);
    if h.OwnSpawns() {
      ResizeKeepsOwnSpawns(h, area, ok);
    }
  }

  lemma WriteFollows(h: Host, bytes: Bytes, ok: Oracle)
    requires h.Valid()
    ensures Follows(h, WriteHost(h, bytes, ok).0)
  {
    if h.OwnSpawns() {
      WriteKeepsOwnSpawns(h, bytes, ok);
    }
  }

  lemma FocusFollows(h: Host, s: SessionState)
    requires h.Valid() && s.focused in Leaves(h.session.root) && s == h.session.(focused := s.focused)
    ensures Follows(h, h.(session := s))
  {
  }

  lemma CommandFollows(l: Local, command: MuxCommand, ok: Oracle)
    requires l.host.Valid()
    ensures Follows(l.host, LocalCommand(l, command, ok).host)
  {
    match command
    case SplitHorizontal => SplitFollows(l.host, Horizontal, PaneArea(l.cols, l.rows), ok);
    case SplitVertical => SplitFollows(l.host, Vertical, PaneArea(l.cols, l.rows), ok);
    case FocusNext => FocusFollows(l.host, PaneTree.FocusNext(l.host.session));
    case CloseFocused => CloseFollows(l.host, ok);
    case _ => FocusFollows(l.host, l.host.session);
  }

  lemma ByteFollows(l: Local, b: byte, ok: Oracle)
    requires l.host.Valid()
    ensures Follows(l.host, LocalByte(l, b, ok).host)
  {
    var (pending, action) := Routed(l.pending, b);
    match action
    case Pending => FocusFollows(l.host, l.host.session);
    case Forward(bytes) => WriteFollows(l.host, bytes, ok);
    case Command(command) => CommandFollows(l.(pending := pending), command, ok);
  }

  lemma {:induction false} BytesFollow(l: Local, bytes: Bytes, ok: Oracle)
    requires l.host.Valid()
    ensures Follows(l.host, LocalBytes(l, bytes, ok).host)
    decreases |bytes|
  {
    if bytes == [] || l.status != Running {
      FocusFollows(l.host, l.host.session);
    } else {
      var t := LocalByte(l, bytes[0], ok);
      ByteFollows(l, bytes[0], ok);
      BytesFollow(t, bytes[1..], ok);
      FollowsComposes(l.host, t.host, LocalBytes(t, bytes[1..], ok).host);
    }
  }

  lemma EventFollows(l: Local, event: Event, ok: Oracle)
    requires l.host.Valid()
    ensures Follows(l.host, LocalEvent(l, event, ok).host)
  {
    FocusFollows(l.host, l.host.session);
    if l.status == Running {
      match event
      case KeyPress(bytes, _) => BytesFollow(l, bytes, ok);
      case WindowResized(cols, rows) => ResizeFollows(l.host, PaneArea(cols, rows), ok);
      case Quiet =>
    }
  }

  lemma ReapFollows(l: Local, exited: set<PaneId>, ok: Oracle)
    requires l.host.Valid()
    ensures Follows(l.host, Reaped(l, exited, ok).host)
  {
    FocusFollows(l.host, l.host.session);
    var first := FirstExited(Leaves(l.host.session.root), exited);
    if first.Some? {
      var s := l.host.session.(focused := first.value);
      var h := l.host.(session := s);
      FocusFollows(l.host, s);
      CloseFollows(h, ok);
      FollowsComposes(l.host, h, CloseHost(h, ok).0);
    }
  }

  lemma TurnFollows(l: Local, event: Event, exited: set<PaneId>, ok: Oracle)
    requires l.host.Valid()
    ensures Follows(l.host, LocalTurn(l, event, exited, ok).host)
  {
    var t := LocalEvent(l, event, ok);
    EventFollows(l, event, ok);
    ReapFollows(t, exited, ok);
    FollowsComposes(l.host, t.host, Reaped(t, exited, ok).host);
  }

  /**
    * Over any turns, whatever is typed, whatever fails and whichever shells exit when: tree and registry agree, no
    * closed pane comes back, every remaining pane keeps its PTY and input, and no two panes share one.
    */
  lemma {:induction false} TurnsFollow(l: Local, turns: seq<(Event, set<PaneId>)>, ok: Oracle)
    requires l.host.Valid()
    ensures Follows(l.host, LocalTurns(l, turns, ok).host)
    decreases |turns|
  {
    if turns == [] {
      FocusFollows(l.host, l.host.session);
    } else {
      var t := LocalTurn(l, turns[0].0, turns[0].1, ok);
      TurnFollows(l, turns[0].0, turns[0].1, ok);
      TurnsFollow(t, turns[1..], ok);
      FollowsComposes(l.host, t.host, LocalTurns(t, turns[1..], ok).host);
    }
  }

  /** Reaping closes exactly the first exited pane, and neither the last pane nor one whose shell runs. */
  lemma ReapEffect(l: Local, exited: set<PaneId>, ok: Oracle)
    requires l.host.Valid()
    ensures var before, after := Leaves(l.host.session.root), Leaves(Reaped(l, exited, ok).host.session.root);
            if |before| == 1 || FirstExited(before, exited).None? then Reaped(l, exited, ok) == l
            else forall id :: id in after <==> id in before && id != FirstExited(before, exited).value
  {
    var before := Leaves(l.host.session.root);
    var first := FirstExited(before, exited);
    if |before| > 1 && first.Some? {
      var h := l.host.(session := l.host.session.(focused := first.value));
      CloseHostSteps(h, ok);
      CloseEffect(h.session);
    }
  }

  /** Whether a turn with this event gets to the panes whose shells have exited: not after a key in copy mode. */
  predicate LooksForExits(l: Local, event: Event, ok: Oracle)
    requires l.host.Valid()
  {
    LocalEvent(l, event, ok).status == Running && !(event.KeyPress? && l.copying)
  }

  /** A turn closes the first pane, in visual order, whose shell has exited, and terminates its PTY. */
  lemma TurnReaps(l: Local, event: Event, exited: set<PaneId>, ok: Oracle, i: nat)
    requires l.host.Valid() && LooksForExits(l, event, ok)
    requires var panes := Leaves(LocalEvent(l, event, ok).host.session.root);
             1 < |panes| && i < |panes| && panes[i] in exited && forall j | 0 <= j < i :: panes[j] !in exited
    ensures var before, after := LocalEvent(l, event, ok), LocalTurn(l, event, exited, ok);
            var gone := Leaves(before.host.session.root)[i];
            && (forall id :: id in Leaves(after.host.session.root) <==>
                             id in Leaves(before.host.session.root) && id != gone)
            && after.host.ptys == before.host.ptys - {gone}
            && after.status == (if ok(before.host.calls) then Running else Failed)
            && after == before.(host := after.host, status := after.status)
  {
    var t := LocalEvent(l, event, ok);
    FirstExitedIs(Leaves(t.host.session.root), exited, i);
    ReapCloses(t, exited, ok, Leaves(t.host.session.root)[i]);
  }

  lemma ReapCloses(t: Local, exited: set<PaneId>, ok: Oracle, id: PaneId)
    requires t.host.Valid() && t.status == Running && |Leaves(t.host.session.root)| > 1
    requires FirstExited(Leaves(t.host.session.root), exited) == Some(id)
    ensures var after := Reaped(t, exited, ok);
            && (forall p :: p in Leaves(after.host.session.root) <==> p in Leaves(t.host.session.root) && p != id)
            && after.host.ptys == t.host.ptys - {id}
            && after.status == (if ok(t.host.calls) then Running else Failed)
            && after == t.(host := after.host, status := after.status)
  {
    var h := t.host.(session := t.host.session.(focused := id));
    CloseHostSteps(h, ok);
    CloseEffect(h.session);
  }

  /** Otherwise a turn is its event: no shell has exited, one pane is left, or it does not get that far. */
  lemma TurnIsEvent(l: Local, event: Event, exited: set<PaneId>, ok: Oracle)
    requires l.host.Valid()
    requires LooksForExits(l, event, ok) ==>
             var panes := Leaves(LocalEvent(l, event, ok).host.session.root);
             |panes| == 1 || forall i | 0 <= i < |panes| :: panes[i] !in exited
    ensures LocalTurn(l, event, exited, ok) == LocalEvent(l, event, ok)
  {
  }

  lemma NoneExited(panes: seq<PaneId>)
    ensures FirstExited(panes, {}) == None
  {
  }

  function Events(turns: seq<(Event, set<PaneId>)>): seq<Event> {
    seq(|turns|, i requires 0 <= i < |turns| => turns[i].0)
  }

  /** As long as no shell exits, a run of turns is the run of their events. */
  lemma {:induction false} TurnsAreEvents(l: Local, turns: seq<(Event, set<PaneId>)>, ok: Oracle)
    requires l.host.Valid() && forall i | 0 <= i < |turns| :: turns[i].1 == {}
    ensures LocalTurns(l, turns, ok) == LocalEvents(l, Events(turns), ok)
    decreases |turns|
  {
    if turns != [] {
      var t := LocalEvent(l, turns[0].0, ok);
      NoneExited(Leaves(t.host.session.root));
      TurnsAreEvents(LocalTurn(l, turns[0].0, turns[0].1, ok), turns[1..], ok);
      assert Events(turns)[1..] == Events(turns[1..]);
    }
  }
}
