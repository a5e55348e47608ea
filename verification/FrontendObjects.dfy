/** The two front ends as the mutable objects that run them. */
module FrontendObjects {
  import opened Basics
  import opened Names
  import opened PaneTree
  import opened Sessions
  import opened Registry
  import opened Hosting
  import opened Wire
  import opened Service
  import opened HostedSessions
  import opened Router
  import opened Frontends
  import Codec
  import Utf8

  lemma NoneReaped(l: Local, exited: set<PaneId>, ok: Oracle)
    requires l.host.Valid()
    requires var panes := Leaves(l.host.session.root);
             |panes| == 1 || forall i | 0 <= i < |panes| :: panes[i] !in exited
    ensures Reaped(l, exited, ok) == l
  {
  }

  lemma ReapedIs(l: Local, exited: set<PaneId>, ok: Oracle, i: nat)
    requires l.host.Valid()
    requires var panes := Leaves(l.host.session.root);
             1 < |panes| && i < |panes| && panes[i] in exited && forall j | 0 <= j < i :: panes[j] !in exited
    ensures var h := l.host.(session := l.host.session.(focused := Leaves(l.host.session.root)[i]));
            h.Valid() && Reaped(l, exited, ok) == LocalResult(l, CloseHost(h, ok))
  {
    FirstExitedIs(Leaves(l.host.session.root), exited, i);
  }

  /** The local application. */
  class App {
    var session: Session
    var panes: PaneRegistry<Pty>
    var copying: bool
    var lastSize: (u16, u16)
    const router: InputRouter
    const world: World

    ghost function State(status: Status): Local
      reads this, session, panes, router, world
    {
      Local(View(session, panes, world), router.prefixPending, copying, lastSize.0, lastSize.1, status)
    }

    ghost predicate Valid()
      reads this, session, panes, world
    {
      View(session, panes, world).Valid()
    }

    /** The application before its first PTY is spawned. */
    constructor (name: SessionName, size: (u16, u16), world: World)
      ensures fresh(session) && fresh(panes) && fresh(router) && this.world == world
      ensures session.State() == NewSession(name) && panes.resources == map[]
      ensures !router.prefixPending && !copying && lastSize == size
    {
      session := new Session(name);
      panes := new PaneRegistry<Pty>();
      router := new InputRouter();
      copying, lastSize := false, size;
      this.world := world;
    }

    static method Start(name: SessionName, size: (u16, u16), world: World) returns (app: App, status: Status)
      requires world.calls == 0
      modifies world
      ensures fresh(app) && fresh(app.session) && fresh(app.panes) && fresh(app.router) && app.world == world
      ensures app.State(status) == LocalStart(size.0, size.1, name, world.ok)
    {
      app := new App(name, size, world);
      status := Failed;
      var spawned := ReconcilePanes(app.session, app.panes, world, SPAWN_SIZE);
      if spawned.Success? {
        var done := app.ResizeAll(size);
        status := if done then Running else Failed;
      }
    }

    method ResizeAll(size: (u16, u16)) returns (done: bool)
      modifies panes, world
      ensures (View(session, panes, world), done) ==
              ResizeHost(old(View(session, panes, world)), PaneArea(size.0, size.1), world.ok)
    {
      done := ResizePanes(session, panes, world, PaneArea(size.0, size.1));
    }

    method Split(direction: Direction) returns (done: bool)
      requires Valid()
      modifies this`session, panes, world
      ensures session == old(session) || fresh(session)
      ensures (View(session, panes, world), done) ==
              SplitHost(old(View(session, panes, world)), direction, PaneArea(lastSize.0, lastSize.1), world.ok)
    {
      var grown := Grow(session, panes, world, direction, PaneArea(lastSize.0, lastSize.1));
      if grown.Failure? {
        return false;
      }
      session := grown.value;
      done := ResizeAll(lastSize);
    }

    method SplitCommand(direction: Direction) returns (status: Status)
      requires Valid()
      modifies this`session, panes, world
      ensures session == old(session) || fresh(session)
      ensures State(status) ==
              LocalResult(old(State(Running)), SplitHost(old(View(session, panes, world)), direction,
                                                         PaneArea(lastSize.0, lastSize.1), world.ok))
    {
      var done := Split(direction);
      status := if done then Running else Failed;
    }

    method CloseCommand() returns (status: Status)
      requires Valid()
      modifies session, panes, world
      ensures State(status) == LocalResult(old(State(Running)), CloseHost(old(View(session, panes, world)), world.ok))
    {
      var done := Close();
      status := if done then Running else Failed;
    }

    method Close() returns (done: bool)
      requires Valid()
      modifies session, panes, world
      ensures (View(session, panes, world), done) == CloseHost(old(View(session, panes, world)), world.ok)
    {
      done := Shrink(session, panes, world);
    }

    method RunCommand(command: MuxCommand) returns (status: Status)
      requires Valid()
      modifies this, session, panes, world
      ensures panes == old(panes) && (session == old(session) || fresh(session))
      ensures State(status) == LocalCommand(old(State(Running)), command, world.ok)
    {
      status := Running;
      match command
      case SplitHorizontal =>
        status := SplitCommand(Horizontal);
      case SplitVertical =>
        status := SplitCommand(Vertical);
      case FocusNext =>
        session.FocusNext();
      case CloseFocused =>
        status := CloseCommand();
      case EnterCopyMode =>
        copying := true;
      case _ =>
        status := Stopped;
    }

    method HandleByte(b: byte) returns (status: Status)
      requires Valid()
      modifies this, session, panes, router, world
      ensures Valid() && panes == old(panes) && (session == old(session) || fresh(session))
      ensures State(status) == LocalByte(old(State(Running)), b, world.ok)
    {
      var action := router.Route(b);
      match action
      case Pending => status := Running;
      case Forward(bytes) =>
        var done := WriteFocused(session, panes, world, bytes);
        status := if done then Running else Failed;
      case Command(command) =>
        status := RunCommand(command);
    }

    method HandleBytes(bytes: Bytes) returns (status: Status)
      requires Valid()
      modifies this, session, panes, router, world
      ensures Valid() && panes == old(panes) && (session == old(session) || fresh(session))
      ensures State(status) == LocalBytes(old(State(Running)), bytes, world.ok)
    {
      status := Running;
      var i := 0;
      assert bytes[0..] == bytes;
      while i < |bytes| && status == Running
        invariant i <= |bytes|
        invariant Valid() && panes == old(panes) && (session == old(session) || fresh(session))
        invariant LocalBytes(State(status), bytes[i..], world.ok) == LocalBytes(old(State(Running)), bytes, world.ok)
      {
        assert bytes[i..][1..] == bytes[i + 1..];
        status := HandleByte(bytes[i]);
        i := i + 1;
      }
    }

    method HandleEvent(event: Event) returns (status: Status)
      requires Valid()
      modifies this, session, panes, router, world
      ensures Valid() && panes == old(panes) && (session == old(session) || fresh(session))
      ensures State(status) == LocalEvent(old(State(Running)), event, world.ok)
    {
      status := Running;
      match event
      case KeyPress(bytes, leaves) =>
        if copying {
          copying := !leaves;
        } else {
          status := HandleBytes(bytes);
        }
      case WindowResized(cols, rows) =>
        ResizeHostKeeps(View(session, panes, world), PaneArea(cols, rows), world.ok);
        var done := ResizeAll((cols, rows));
        if !done {
          return Failed;
        }
        lastSize := (cols, rows);
      case Quiet =>
    }

    /** Closes the first pane, in visual order, whose shell has exited, unless it is the last pane. */
    method ReapExited(exited: set<PaneId>) returns (status: Status)
      requires Valid()
      modifies session, panes, world
      ensures Valid() && State(status) == Reaped(old(State(Running)), exited, world.ok)
    {
      ghost var l := State(Running);
      var leaves := session.Panes();
      var i := 0;
      while i < |leaves| && (leaves[i] !in exited || |leaves| == 1)
        modifies {}
        invariant i <= |leaves|
        invariant |leaves| > 1 ==> forall j | 0 <= j < i :: leaves[j] !in exited
      {
        i := i + 1;
      }
      if i == |leaves| {
        NoneReaped(l, exited, world.ok);
        return Running;
      }
      ReapedIs(l, exited, world.ok, i);
      status := CloseExited(leaves[i]);
    }

    /** Moves the focus to a pane and closes it. */
    method CloseExited(id: PaneId) returns (status: Status)
      requires Valid() && id in Leaves(session.root)
      modifies session, panes, world
      ensures var h := old(View(session, panes, world));
              State(status) == LocalResult(old(State(Running)),
                                           CloseHost(h.(session := h.session.(focused := id)), world.ok))
    {
      session.FocusUntil(id);
      status := CloseCommand();
    }

    /** One turn of the event loop. */
    method Turn(event: Event, exited: set<PaneId>) returns (status: Status)
      requires Valid()
      modifies this, session, panes, router, world
      ensures Valid() && State(status) == LocalTurn(old(State(Running)), event, exited, world.ok)
    {
      var skips := event.KeyPress? && copying;
      status := HandleEvent(event);
      if status == Running && !skips {
        status := ReapExited(exited);
      }
    }
  }

  lemma AskIsAnswered(
    r: Remote, request: Request, ok: Oracle, screens: Screens, hosted: Hosted, answer: Option<Response>)
    requires r.hosted.Valid() && (hosted, answer) == Frontends.Exchange(r.hosted, request, screens(|r.sent|), ok)
    ensures RemoteExchange(r, request, ok, screens) == Answered(r, request, hosted, answer)
  {
  }

  /** The client of one daemon-owned session, and the connection's other end. */
  class AttachedClient {
    const router: InputRouter
    const hosted: HostedSession
    var response: Response
    var copying: bool
    var sent: seq<Request>

    ghost function State(status: Status): Remote
      reads this, router, hosted, hosted.session, hosted.panes, hosted.world
    {
      Remote(hosted.State(), response, router.prefixPending, copying, status, sent)
    }

    constructor (hosted: HostedSession)
      ensures this.hosted == hosted && fresh(router) && !router.prefixPending && !copying && sent == []
      ensures response == Attached(hosted.session.name)
    {
      this.hosted := hosted;
      router := new InputRouter();
      response, copying, sent := Attached(hosted.session.name), false, [];
    }

    /** Sends a request through the wire to the daemon and reads the answer back. */
    method Exchange(request: Request, texts: PaneId -> Utf8.Text) returns (answer: Option<Response>)
      requires hosted.Valid()
      modifies hosted, hosted.session, hosted.panes, hosted.world
      ensures hosted.Valid() && hosted.panes == old(hosted.panes)
      ensures hosted.session == old(hosted.session) || fresh(hosted.session)
      ensures (hosted.State(), answer) ==
              Frontends.Exchange(old(hosted.State()), request, texts, hosted.world.ok)
    {
      var sent := Codec.EncodeRequest(request);
      if sent.Failure? {
        return None;
      }
      var reader := new Codec.Reader(sent.value);
      var frame := reader.ReadFrame();
      if frame.Failure? {
        return None;
      }
      var received := Codec.DecodeRequest(frame.value);
      if received.Failure? {
        return None;
      }
      var reply := hosted.Handle(received.value, hosted.session.name, texts);
      if reply.Drop? {
        return None;
      }
      answer := Receive(reply.response);
    }

    /** The way of a response from the daemon to the client. */
    static method Receive(response: Response) returns (answer: Option<Response>)
      ensures answer == Delivered(response)
    {
      var sent := Codec.EncodeResponse(response);
      if sent.Failure? {
        return None;
      }
      var reader := new Codec.Reader(sent.value);
      var frame := reader.ReadFrame();
      if frame.Failure? {
        return None;
      }
      var received := Codec.DecodeResponse(frame.value);
      if received.Failure? {
        return None;
      }
      answer := Some(received.value);
    }

    /** Exchanges a request and keeps the answer to be drawn. */
    method Ask(request: Request, screens: Screens) returns (status: Status)
      requires hosted.Valid()
      modifies this, hosted, hosted.session, hosted.panes, hosted.world
      ensures hosted.Valid() && hosted.panes == old(hosted.panes)
      ensures hosted.session == old(hosted.session) || fresh(hosted.session)
      ensures State(status) == RemoteExchange(old(State(Running)), request, hosted.world.ok, screens)
    {
      ghost var before := State(Running);
      var answer := Exchange(request, screens(|sent|));
      AskIsAnswered(before, request, hosted.world.ok, screens, hosted.State(), answer);
      sent := sent + [request];
      if answer.None? {
        return Failed;
      }
      response := answer.value;
      status := Running;
    }

    /** Gives the session back. */
    method Leave(screens: Screens) returns (status: Status)
      requires hosted.Valid()
      modifies this, hosted, hosted.session, hosted.panes, hosted.world
      ensures hosted.Valid() && hosted.panes == old(hosted.panes)
      ensures hosted.session == old(hosted.session) || fresh(hosted.session)
      ensures State(status) == RemoteLeave(old(State(Running)), hosted.world.ok, screens)
    {
      status := Ask(Request.Detach(hosted.session.name), screens);
      if status == Running {
        status := if response.Detached? then Stopped else Failed;
      }
    }

    method RunCommand(command: MuxCommand, screens: Screens) returns (status: Status)
      requires hosted.Valid()
      modifies this, hosted, hosted.session, hosted.panes, hosted.world
      ensures hosted.Valid() && hosted.panes == old(hosted.panes)
      ensures hosted.session == old(hosted.session) || fresh(hosted.session)
      ensures State(status) == RemoteCommand(old(State(Running)), command, hosted.world.ok, screens)
    {
      match command
      case EnterCopyMode =>
        copying := true;
        status := Running;
      case Detach => status := Leave(screens);
      case Quit => status := Leave(screens);
      case _ => status := Ask(Request.Command(CommandCode(command)), screens);
    }

    method HandleByte(b: byte, screens: Screens) returns (status: Status)
      requires hosted.Valid()
      modifies this, router, hosted, hosted.session, hosted.panes, hosted.world
      ensures hosted.Valid() && hosted.panes == old(hosted.panes)
      ensures hosted.session == old(hosted.session) || fresh(hosted.session)
      ensures State(status) == RemoteByte(old(State(Running)), b, hosted.world.ok, screens)
    {
      var action := router.Route(b);
      match action
      case Pending => status := Running;
      case Forward(bytes) => status := Ask(Input(bytes), screens);
      case Command(command) => status := RunCommand(command, screens);
    }

    method HandleBytes(bytes: Bytes, screens: Screens) returns (status: Status)
      requires hosted.Valid()
      modifies this, router, hosted, hosted.session, hosted.panes, hosted.world
      ensures hosted.Valid() && hosted.panes == old(hosted.panes)
      ensures hosted.session == old(hosted.session) || fresh(hosted.session)
      ensures State(status) == RemoteBytes(old(State(Running)), bytes, hosted.world.ok, screens)
    {
      status := Running;
      var i := 0;
      assert bytes[0..] == bytes;
      while i < |bytes| && status == Running
        invariant i <= |bytes|
        invariant hosted.Valid() && hosted.panes == old(hosted.panes)
        invariant hosted.session == old(hosted.session) || fresh(hosted.session)
        invariant RemoteBytes(State(status), bytes[i..], hosted.world.ok, screens) ==
                  RemoteBytes(old(State(Running)), bytes, hosted.world.ok, screens)
      {
        assert bytes[i..][1..] == bytes[i + 1..];
        status := HandleByte(bytes[i], screens);
        i := i + 1;
      }
    }

    /** One turn of the loop: draws the latest response, then handles what the terminal delivers. */
    method HandleEvent(event: Event, screens: Screens) returns (status: Status)
      requires hosted.Valid()
      modifies this, router, hosted, hosted.session, hosted.panes, hosted.world
      ensures hosted.Valid()
      ensures State(status) == RemoteEvent(old(State(Running)), event, hosted.world.ok, screens)
    {
      if !response.Screen? {
        return Failed;
      }
      status := Running;
      match event
      case KeyPress(bytes, leaves) =>
        if copying {
          copying := !leaves;
        } else {
          status := HandleBytes(bytes, screens);
        }
      case WindowResized(cols, rows) =>
        status := Ask(Resize(cols, rows), screens);
      case Quiet =>
        status := Ask(Request.Snapshot, screens);
    }
  }
}
