/** The two front ends as state machines: the local application, and the client of a daemon-owned session. */
module Frontends {
  import opened Basics
  import opened Names
  import opened PaneTree
  import opened Hosting
  import opened Wire
  import opened CodecLaws
  import opened Service
  import opened Router
  import Utf8

  datatype Status = Running | Stopped | Failed

  /** What the terminal delivers between two turns of an event loop. */
  datatype Event =
    | KeyPress(bytes: Bytes, leavesCopyMode: bool)
    | WindowResized(cols: u16, rows: u16)
    | Quiet // nothing arrived before the poll timed out

  /** Whether a multiplexer command is a numbered one, and its number on the wire. */
  function CommandCode(command: MuxCommand): byte {
    match command
    case SplitHorizontal => 1
    case SplitVertical => 2
    case FocusNext => 3
    case CloseFocused => 4
    case _ => 0
  }

  // ---- The local application ----

  /** The local front end: its panes, its router, whether copy mode is on, and the window size. */
  datatype Local = Local(host: Host, pending: bool, copying: bool, cols: u16, rows: u16, status: Status)

  function LocalResult(l: Local, result: (Host, bool)): Local {
    l.(host := result.0, status := if result.1 then Running else Failed)
  }

  /** The window's new size is taken over once every pane has been resized to it. */
  function LocalResized(l: Local, result: (Host, bool), cols: u16, rows: u16): Local {
    if result.1 then LocalResult(l, result).(cols := cols, rows := rows) else LocalResult(l, result)
  }

  function LocalStart(cols: u16, rows: u16, name: SessionName, ok: Oracle): Local {
    var (host, done) := OpenHost(name, SPAWN_SIZE, ok);
    var l := Local(host, false, false, cols, rows, Failed);
    if done then LocalResult(l, ResizeHost(host, PaneArea(cols, rows), ok)) else l
  }

  /** `App::command`. */
  function LocalCommand(l: Local, command: MuxCommand, ok: Oracle): (r: Local)
    requires l.host.Valid()
    ensures r.host.Valid()
  {
    match command
    case SplitHorizontal =>
      SplitHostValid(l.host, Horizontal, PaneArea(l.cols, l.rows), ok);
      LocalResult(l, SplitHost(l.host, Horizontal, PaneArea(l.cols, l.rows), ok))
    case SplitVertical =>
      SplitHostValid(l.host, Vertical, PaneArea(l.cols, l.rows), ok);
      LocalResult(l, SplitHost(l.host, Vertical, PaneArea(l.cols, l.rows), ok))
    case FocusNext => l.(host := FocusHost(l.host))
    case CloseFocused =>
      CloseHostValid(l.host, ok);
      LocalResult(l, CloseHost(l.host, ok))
    case EnterCopyMode => l.(copying := true)
    case _ => l.(status := Stopped)
  }

  /** One byte of a key. */
  function LocalByte(l: Local, b: byte, ok: Oracle): (r: Local)
    requires l.host.Valid()
    ensures r.host.Valid()
  {
    var (pending, action) := Routed(l.pending, b);
    var t := l.(pending := pending);
    match action
    case Pending => t
    case Forward(bytes) => LocalResult(t, WriteHost(t.host, bytes, ok))
    case Command(command) => LocalCommand(t, command, ok)
  }

  function LocalBytes(l: Local, bytes: Bytes, ok: Oracle): (r: Local)
    requires l.host.Valid()
    ensures r.host.Valid()
    decreases |bytes|
  {
    if bytes == [] || l.status != Running then l else LocalBytes(LocalByte(l, bytes[0], ok), bytes[1..], ok)
  }

  /** What a turn of `App::event_loop` does with the event it reads. */
  function LocalEvent(l: Local, event: Event, ok: Oracle): (r: Local)
    requires l.host.Valid()
    ensures r.host.Valid()
  {
    if l.status != Running then l
    else
      match event
      case KeyPress(bytes, leaves) =>
        if l.copying then l.(copying := !leaves) else LocalBytes(l, bytes, ok)
      case WindowResized(cols, rows) =>
        ResizeHostKeeps(l.host, PaneArea(cols, rows), ok);
        LocalResized(l, ResizeHost(l.host, PaneArea(cols, rows), ok), cols, rows)
      case Quiet => l
  }

  function LocalEvents(l: Local, events: seq<Event>, ok: Oracle): (r: Local)
    requires l.host.Valid()
    ensures r.host.Valid()
    decreases |events|
  {
    if events == [] then l else LocalEvents(LocalEvent(l, events[0], ok), events[1..], ok)
  }

  /** The first of `panes` whose shell has exited. */
  function FirstExited(panes: seq<PaneId>, exited: set<PaneId>): (r: Option<PaneId>)
    ensures match r
            case Some(id) =>
              id in panes && id in exited && forall j | 0 <= j < IndexOf(panes, id) :: panes[j] !in exited
            case None => forall id | id in panes :: id !in exited
  {
    if panes == [] then None
    else if panes[0] in exited then Some(panes[0])
    else FirstExited(panes[1..], exited)
  }

  lemma FirstExitedIs(panes: seq<PaneId>, exited: set<PaneId>, i: nat)
    requires i < |panes| && panes[i] in exited && forall j | 0 <= j < i :: panes[j] !in exited
    ensures FirstExited(panes, exited) == Some(panes[i])
  {
    var first := FirstExited(panes, exited);
    assert first.Some? by {
      assert panes[i] in panes;
    }
    assert panes[IndexOf(panes, first.value)] in exited;
  }

  /** Closes the first pane, in visual order, whose shell has exited, unless it is the last pane. */
  function Reaped(l: Local, exited: set<PaneId>, ok: Oracle): (r: Local)
    requires l.host.Valid()
    ensures r.host.Valid()
  {
    var panes := Leaves(l.host.session.root);
    match FirstExited(panes, exited)
    case None => l
    case Some(id) =>
      if |panes| == 1 then l
      else
        var h := l.host.(session := l.host.session.(focused := id));
        CloseHostValid(h, ok);
        LocalResult(l, CloseHost(h, ok))
  }

  /** One turn of `App::event_loop`: an event, then the panes found `exited`; a key in copy mode ends the turn early. */
  function LocalTurn(l: Local, event: Event, exited: set<PaneId>, ok: Oracle): (r: Local)
    requires l.host.Valid()
    ensures r.host.Valid()
  {
    var t := LocalEvent(l, event, ok);
    if t.status != Running || (event.KeyPress? && l.copying) then t else Reaped(t, exited, ok)
  }

  /** Any turns, each with its event and the shells that have exited by then. */
  function LocalTurns(l: Local, turns: seq<(Event, set<PaneId>)>, ok: Oracle): (r: Local)
    requires l.host.Valid()
    ensures r.host.Valid()
    decreases |turns|
  {
    if turns == [] then l else LocalTurns(LocalTurn(l, turns[0].0, turns[0].1, ok), turns[1..], ok)
  }

  // ---- The attached client and the session it holds ----

  /** What the terminals show at each exchange. */
  type Screens = nat -> PaneId -> Utf8.Text

  /** The client, the session it holds, and the requests made so far; `response` is the latest one received. */
  datatype Remote = Remote(
    hosted: Hosted, response: Response, pending: bool, copying: bool, status: Status, sent: seq<Request>)

  /** A request through the wire to the daemon and the answer back; None when the connection ends instead. */
  function Exchange(h: Hosted, request: Request, texts: PaneId -> Utf8.Text, ok: Oracle): (Hosted, Option<Response>)
    requires h.Valid()
  {
    match EncodedRequest(request)
    case Failure(_) => (h, None)
    case Success(sent) =>
      match NextFrame(sent)
      case Failure(_) => (h, None)
      case Success((frame, _)) =>
        match DecodedRequest(frame)
        case Failure(_) => (h, None)
        case Success(received) =>
          var (t, reply) := HandleAttached(h, received, h.Name(), texts, ok);
          (t, if reply.Drop? then None else Delivered(reply.response))
  }

  /** A response through the wire to the client. */
  function Delivered(response: Response): Option<Response> {
    match EncodedResponse(response)
    case Failure(_) => None
    case Success(sent) =>
      match NextFrame(sent)
      case Failure(_) => None
      case Success((frame, _)) =>
        match DecodedResponse(frame)
        case Failure(_) => None
        case Success(received) => Some(received)
  }

  function RemoteExchange(r: Remote, request: Request, ok: Oracle, screens: Screens): (t: Remote)
    requires r.hosted.Valid()
    ensures t.hosted.Valid()
  {
    ExchangeIsHandle(r.hosted, request, screens(|r.sent|), ok);
    var (hosted, answer) := Exchange(r.hosted, request, screens(|r.sent|), ok);
    Answered(r, request, hosted, answer)
  }

  /** The client keeps an answer to be drawn; without one it fails. */
  function Answered(r: Remote, request: Request, hosted: Hosted, answer: Option<Response>): Remote {
    var t := r.(hosted := hosted, sent := r.sent + [request]);
    if answer.Some? then t.(response := answer.value) else t.(status := Failed)
  }

  /** `run_attached` up to its loop, on a session that already exists. */
  function RemoteStart(hosted: Hosted, cols: u16, rows: u16, ok: Oracle, screens: Screens): (t: Remote)
    requires hosted.Valid()
    ensures t.hosted.Valid()
  {
    RemoteExchange(Remote(hosted, Attached(hosted.Name()), false, false, Running, []), Resize(cols, rows), ok, screens)
  }

  /** A multiplexer command typed at the client. */
  function RemoteCommand(r: Remote, command: MuxCommand, ok: Oracle, screens: Screens): (t: Remote)
    requires r.hosted.Valid()
    ensures t.hosted.Valid()
  {
    match command
    case EnterCopyMode => r.(copying := true)
    case Detach => RemoteLeave(r, ok, screens)
    case Quit => RemoteLeave(r, ok, screens)
    case _ => RemoteExchange(r, Request.Command(CommandCode(command)), ok, screens)
  }

  /** Gives the session back: the daemon must say farewell. */
  function RemoteLeave(r: Remote, ok: Oracle, screens: Screens): (t: Remote)
    requires r.hosted.Valid()
    ensures t.hosted.Valid()
  {
    var t := RemoteExchange(r, Request.Detach(r.hosted.Name()), ok, screens);
    if t.status == Running then t.(status := if t.response.Detached? then Stopped else Failed) else t
  }

  /** One byte of a key. */
  function RemoteByte(r: Remote, b: byte, ok: Oracle, screens: Screens): (t: Remote)
    requires r.hosted.Valid()
    ensures t.hosted.Valid()
  {
    var (pending, action) := Routed(r.pending, b);
    var t := r.(pending := pending);
    match action
    case Pending => t
    case Forward(bytes) => RemoteExchange(t, Input(bytes), ok, screens)
    case Command(command) => RemoteCommand(t, command, ok, screens)
  }

  function RemoteBytes(r: Remote, bytes: Bytes, ok: Oracle, screens: Screens): (t: Remote)
    requires r.hosted.Valid()
    ensures t.hosted.Valid()
    decreases |bytes|
  {
    if bytes == [] || r.status != Running then r
    else RemoteBytes(RemoteByte(r, bytes[0], ok, screens), bytes[1..], ok, screens)
  }

  /** One turn of the loop in `run_attached`: it draws the latest response, which must be a screen. */
  function RemoteEvent(r: Remote, event: Event, ok: Oracle, screens: Screens): (t: Remote)
    requires r.hosted.Valid()
    ensures t.hosted.Valid()
  {
    if r.status != Running then r
    else if !r.response.Screen? then r.(status := Failed)
    else
      match event
      case KeyPress(bytes, leaves) =>
        if r.copying then r.(copying := !leaves) else RemoteBytes(r, bytes, ok, screens)
      case WindowResized(cols, rows) => RemoteExchange(r, Resize(cols, rows), ok, screens)
      case Quiet => RemoteExchange(r, Request.Snapshot, ok, screens)
  }

  function RemoteEvents(r: Remote, events: seq<Event>, ok: Oracle, screens: Screens): (t: Remote)
    requires r.hosted.Valid()
    ensures t.hosted.Valid()
    decreases |events|
  {
    if events == [] then r else RemoteEvents(RemoteEvent(r, events[0], ok, screens), events[1..], ok, screens)
  }

  // ---- The wire is transparent ----

  lemma DeliveredIs(response: Response)
    ensures Delivered(response) == if EncodedResponse(response).Success? then Some(response) else None
  {
    if EncodedResponse(response).Success? {
      var sent := EncodedResponse(response).value;
      ResponseRoundTrip(response);
      FrameThenRest(sent, []);
      assert sent + [] == sent;
    }
  }

  /** An exchange is the daemon's handling of the request, seen by the client if the answer has a frame. */
  lemma ExchangeIsHandle(h: Hosted, request: Request, texts: PaneId -> Utf8.Text, ok: Oracle)
    requires h.Valid()
    ensures var (t, answer) := Exchange(h, request, texts, ok);
            && t.Valid() && t.Name() == h.Name()
            && (EncodedRequest(request).Success? ==>
                  var (u, reply) := HandleAttached(h, request, h.Name(), texts, ok);
                  && t == u
                  && answer == if !reply.Drop? && EncodedResponse(reply.response).Success? then Some(reply.response)
                               else None)
  {
    if EncodedRequest(request).Success? {
      var sent := EncodedRequest(request).value;
      RequestRoundTrip(request);
      FrameThenRest(sent, []);
      assert sent + [] == sent;
      var (u, reply) := HandleAttached(h, request, h.Name(), texts, ok);
      HandleKeeps(h, request, h.Name(), texts, ok);
      if !reply.Drop? {
        DeliveredIs(reply.response);
      }
    }
  }
}
