/** The mutable objects of the daemon: hosted sessions and the map of them. */
module HostedSessions {
  import opened Basics
  import opened Names
  import opened PaneTree
  import opened Layout
  import opened Sessions
  import opened Registry
  import opened Hosting
  import opened Wire
  import opened Service
  import Utf8

  lemma ViewsSnoc(h: Hosted, layout: seq<(PaneId, Rect)>, texts: PaneId -> Utf8.Text, allowance: nat, i: nat)
    requires i < |layout|
    ensures var (views, (id, rect)) := (PaneViews(h, layout, texts, allowance), layout[i]);
            views[..i + 1] == views[..i] + [PaneView(h, id, rect, texts(id), allowance)]
  {
  }

  class HostedSession {
    var session: Session
    var panes: PaneRegistry<Pty>
    var attached: bool
    var viewport: (u16, u16)
    const world: World

    ghost function State(): Hosted
      reads this, session, panes, world
    {
      Hosted(View(session, panes, world), attached, viewport.0, viewport.1)
    }

    ghost predicate Valid()
      reads this, session, panes, world
    {
      State().Valid()
    }

    /** The parts of a session whose first PTY is about to be spawned. */
    constructor (name: SessionName, world: World)
      ensures fresh(session) && fresh(panes) && this.world == world && !attached && viewport == (80, 24)
      ensures session.State() == NewSession(name) && panes.resources == map[]
    {
      session := new Session(name);
      panes := new PaneRegistry<Pty>();
      attached, viewport := false, (80, 24);
      this.world := world;
    }

    static method Create(name: SessionName, world: World) returns (r: Result<HostedSession, Fault>)
      requires world.calls == 0
      modifies world
      ensures var (hosted, done) := CreateHosted(name, world.ok);
              && (done <==> r.Success?)
              && (done ==>
                  && fresh(r.value) && fresh(r.value.session) && fresh(r.value.panes) && r.value.world == world
                  && r.value.State() == hosted)
    {
      var hosted := new HostedSession(name, world);
      var spawned := ReconcilePanes(hosted.session, hosted.panes, world, TerminalSize(24, 80));
      if spawned.Failure? {
        return Failure(spawned.error);
      }
      r := Success(hosted);
    }

    method Resize(cols: u16, rows: u16) returns (done: bool)
      modifies this, panes, world
      ensures session == old(session) && panes == old(panes)
      ensures (State(), done) == ResizeHosted(old(State()), cols, rows, world.ok)
    {
      viewport := (Max(cols, 2), Max(rows, 2));
      done := ResizePanes(session, panes, world, PaneArea(viewport.0, viewport.1));
    }

    method Snapshot(texts: PaneId -> Utf8.Text) returns (response: Response)
      ensures response == SnapshotOf(State(), texts)
    {
      var layout := session.LayoutIn(PaneArea(viewport.0, viewport.1));
      var allowance := SNAPSHOT_TEXT_BYTES / Max(|layout|, 1);
      ghost var h := State();
      ghost var all := PaneViews(h, layout, texts, allowance);
      var views: seq<PaneSnapshot> := [];
      for i := 0 to |layout|
        invariant views == all[..i]
      {
        var (id, rect) := layout[i];
        ViewsSnoc(h, layout, texts, allowance, i);
        var text := if id in panes.resources then texts(id) else [];
        text := Utf8.TruncateUtf8(text, allowance);
        views := views +
          [PaneSnapshot(id, rect.x, rect.y, rect.width, rect.height, id == session.focused, text)];
      }
      assert all[..|layout|] == all;
      response := Screen(views);
    }

    /** Splits a copy of the session, which replaces it once its new PTY is running. */
    method Split(direction: Direction) returns (done: bool)
      requires Valid()
      modifies this, panes, world
      ensures panes == old(panes) && (session == old(session) || fresh(session))
      ensures var (host, split) :=
                SplitHost(old(State()).host, direction, PaneArea(old(viewport.0), old(viewport.1)), world.ok);
              State() == old(State()).(host := host) && done == split
    {
      var grown := Grow(session, panes, world, direction, PaneArea(viewport.0, viewport.1));
      if grown.Failure? {
        return false;
      }
      session := grown.value;
      done := Resize(viewport.0, viewport.1);
    }

    /** Closes the focused pane and its PTY. */
    method Close() returns (done: bool)
      requires Valid()
      modifies session, panes, world
      ensures var (host, closed) := CloseHost(old(State()).host, world.ok);
              State() == old(State()).(host := host) && done == closed
    {
      done := Shrink(session, panes, world);
    }

    method RunCommand(command: byte) returns (done: bool)
      requires Valid()
      modifies this, session, panes, world
      ensures Valid() && panes == old(panes) && (session == old(session) || fresh(session))
      ensures (State(), done) == CommandHosted(old(State()), command, world.ok)
    {
      CommandKeeps(State(), command, world.ok);
      if command == 1 || command == 2 {
        done := Split(if command == 1 then Horizontal else Vertical);
      } else if command == 3 {
        session.FocusNext();
        done := true;
      } else if command == 4 {
        done := Close();
      } else {
        done := false;
      }
    }

    /** The locked part of one turn of the attached loop. */
    method Handle(request: Request, name: SessionName, texts: PaneId -> Utf8.Text) returns (reply: Reply)
      requires Valid()
      modifies this, session, panes, world
      ensures Valid() && panes == old(panes) && (session == old(session) || fresh(session))
      ensures (State(), reply) == HandleAttached(old(State()), request, name, texts, world.ok)
    {
      HandleKeeps(State(), request, name, texts, world.ok);
      var done := true;
      match request {
        case Snapshot =>
        case Input(bytes) =>
          if session.focused !in panes.resources {
            return Drop;
          }
          done := WriteFocused(session, panes, world, bytes);
        case Resize(cols, rows) =>
          done := this.Resize(cols, rows);
        case Command(command) =>
          done := RunCommand(command);
        case Detach(other) =>
          if other == name {
            return Farewell(Detached(name));
          }
          return Answer(ServiceError(Conflict, INVALID_REQUEST));
        case _ =>
          return Answer(ServiceError(Conflict, INVALID_REQUEST));
      }
      if !done {
        return Drop;
      }
      var response := Snapshot(texts);
      reply := Answer(response);
    }
  }
}
