/**
  * The local application and the attached client do the same thing.
  *
  * Both front ends are given the same terminal events and the same outcomes of calls into the operating
  * system. As long as the panes fit a snapshot they build the same tree, deliver the same bytes to every
  * pane, stop at the same key and fail at the same call; the first split that leaves 33 panes ends the
  * client's connection.
  */
module Simulation {
  import opened Basics
  import opened Names
  import opened PaneTree
  import opened Layout
  import opened Hosting
  import opened InStep
  import opened Wire
  import opened CodecLaws
  import opened Service
  import opened Router
  import opened Frontends
  import Utf8

  // ---- The simulation relation ----

  /** The front ends agree: same router and mode, same status, same panes and deliveries. */
  ghost predicate Agree(l: Local, r: Remote) {
    && l.host.Valid() && r.hosted.Valid()
    && SameHost(l.host, r.hosted.host)
    && l.pending == r.pending && l.copying == r.copying && l.status == r.status
    && (l.status == Running ==> InView(l, r))
  }

  /** While both run: the daemon has the window's size, the client a screen, and equal PTYs from 2 by 2 cells on. */
  ghost predicate InView(l: Local, r: Remote) {
    && r.hosted.cols == Max(l.cols, 2) && r.hosted.rows == Max(l.rows, 2)
    && r.response.Screen? && |r.hosted.Panes()| <= MAX_SNAPSHOT_PANES
    && (l.cols >= 2 && l.rows >= 2 ==> l.host.ptys == r.hosted.host.ptys)
  }

  /** The panes of a running local application fit a snapshot. */
  predicate Fits(l: Local) {
    l.status == Running ==> |Leaves(l.host.session.root)| <= MAX_SNAPSHOT_PANES
  }

  /** The client has lost its connection to a session of 33 panes. */
  ghost predicate CutOff(r: Remote) {
    r.status == Failed && |r.hosted.Panes()| == MAX_SNAPSHOT_PANES + 1
  }

  lemma AnswerIsSnapshot(h: Hosted, request: Request, name: SessionName, texts: PaneId -> Utf8.Text, ok: Oracle)
    requires h.Valid() && (request.Input? || request.Resize? || request.Command? || request.Snapshot?)
    ensures var (t, reply) := HandleAttached(h, request, name, texts, ok);
            reply == Drop || reply == Answer(SnapshotOf(t, texts))
  {
  }

  lemma SnapshotReaches(t: Remote, h: Hosted, reply: Reply, texts: PaneId -> Utf8.Text)
    requires reply == Drop || reply == Answer(SnapshotOf(h, texts))
    requires t.status == if !reply.Drop? && EncodedResponse(reply.response).Success? then Running else Failed
    requires t.status == Running ==> t.response == reply.response
    ensures t.status == Running <==> reply.Answer? && |h.Panes()| <= MAX_SNAPSHOT_PANES
    ensures t.status == Running ==> t.response.Screen?
  {
    SnapshotEncodesIff(h, texts);
  }

  /** What a request that ends in a snapshot does to the client. */
  lemma ExchangeShows(r: Remote, request: Request, ok: Oracle, screens: Screens)
    requires r.hosted.Valid() && r.status == Running
    requires EncodedRequest(request).Success?
    requires request.Input? || request.Resize? || request.Command? || request.Snapshot?
    ensures var t := RemoteExchange(r, request, ok, screens);
            var (h, reply) := HandleAttached(r.hosted, request, r.hosted.Name(), screens(|r.sent|), ok);
            && t.hosted == h && t.pending == r.pending && t.copying == r.copying
            && (t.status == Running <==> reply.Answer? && |h.Panes()| <= MAX_SNAPSHOT_PANES)
            && (t.status == Running || t.status == Failed)
            && (t.status == Running ==> t.response.Screen?)
  {
    var texts := screens(|r.sent|);
    var (h, reply) := HandleAttached(r.hosted, request, r.hosted.Name(), texts, ok);
    ExchangeIsHandle(r.hosted, request, texts, ok);
    AnswerIsSnapshot(r.hosted, request, r.hosted.Name(), texts, ok);
    SnapshotReaches(RemoteExchange(r, request, ok, screens), h, reply, texts);
  }

  /** The client follows a host operation: it runs on if the operation succeeded and the panes still fit. */
  ghost predicate Follows(r: Remote, t: Remote, u: Host, cols: u16, rows: u16, done: bool) {
    && t.hosted == r.hosted.(host := u, cols := cols, rows := rows)
    && t.pending == r.pending && t.copying == r.copying
    && (t.status == Running <==> done && |Leaves(u.session.root)| <= MAX_SNAPSHOT_PANES)
    && (t.status == Running || t.status == Failed)
    && (t.status == Running ==> t.response.Screen?)
  }

  /** The same operation on both sides: they still agree, or the client is cut off by the one pane too many. */
  lemma OperationAgrees(l: Local, r: Remote, t: Remote, a: Host, u: Host, cols: u16, rows: u16, done: bool)
    requires Agree(l, r) && l.status == Running
    requires a.Valid() && u.Valid() && SameHost(a, u)
    requires done && cols >= 2 && rows >= 2 ==> a.ptys == u.ptys
    requires |Leaves(a.session.root)| <= |Leaves(l.host.session.root)| + 1
    requires Follows(r, t, u, Max(cols, 2), Max(rows, 2), done)
    ensures var after := LocalResized(l, (a, done), cols, rows);
            if Fits(after) then Agree(after, t) else CutOff(t)
  {
  }

  lemma InputFollows(r: Remote, bytes: Bytes, ok: Oracle, screens: Screens)
    requires r.hosted.Valid() && r.status == Running && |bytes| <= MAX_INPUT_BYTES
    ensures var (u, done) := WriteHost(r.hosted.host, bytes, ok);
            Follows(r, RemoteExchange(r, Input(bytes), ok, screens), u, r.hosted.cols, r.hosted.rows, done)
  {
    ExchangeShows(r, Input(bytes), ok, screens);
  }

  lemma ResizeFollows(r: Remote, cols: u16, rows: u16, ok: Oracle, screens: Screens)
    requires r.hosted.Valid() && r.status == Running
    ensures var (c, w) := (Max(cols, 2), Max(rows, 2));
            var (u, done) := ResizeHost(r.hosted.host, PaneArea(c, w), ok);
            Follows(r, RemoteExchange(r, Resize(cols, rows), ok, screens), u, c, w, done)
  {
    ExchangeShows(r, Resize(cols, rows), ok, screens);
  }

  lemma CommandFollows(r: Remote, code: byte, ok: Oracle, screens: Screens)
    requires r.hosted.Valid() && r.status == Running
    ensures var (h, done) := CommandHosted(r.hosted, code, ok);
            Follows(r, RemoteExchange(r, Request.Command(code), ok, screens),
                    h.host, r.hosted.cols, r.hosted.rows, done)
  {
    ExchangeShows(r, Request.Command(code), ok, screens);
  }

  lemma SnapshotFollows(r: Remote, ok: Oracle, screens: Screens)
    requires r.hosted.Valid() && r.status == Running
    ensures Follows(r, RemoteExchange(r, Request.Snapshot, ok, screens),
                    r.hosted.host, r.hosted.cols, r.hosted.rows, true)
  {
    ExchangeShows(r, Request.Snapshot, ok, screens);
  }

  lemma LeavingStops(r: Remote, ok: Oracle, screens: Screens)
    requires r.hosted.Valid() && r.status == Running
    ensures var t := RemoteLeave(r, ok, screens);
            t.status == Stopped && t.hosted == r.hosted && t.pending == r.pending && t.copying == r.copying
  {
    var name := r.hosted.Name();
    ExchangeIsHandle(r.hosted, Request.Detach(name), screens(|r.sent|), ok);
    ResponseEncodable(Detached(name));
  }

  // ---- One byte, one key, one event, any events ----

  /** The same operation within the same window. */
  lemma PaneOperationAgrees(l: Local, r: Remote, t: Remote, a: Host, u: Host, done: bool)
    requires Agree(l, r) && l.status == Running
    requires a.Valid() && u.Valid() && SameHost(a, u)
    requires done && l.cols >= 2 && l.rows >= 2 ==> a.ptys == u.ptys
    requires |Leaves(a.session.root)| <= |Leaves(l.host.session.root)| + 1
    requires Follows(r, t, u, r.hosted.cols, r.hosted.rows, done)
    ensures if Fits(LocalResult(l, (a, done))) then Agree(LocalResult(l, (a, done)), t) else CutOff(t)
  {
    OperationAgrees(l, r, t, a, u, l.cols, l.rows, done);
    assert LocalResized(l, (a, done), l.cols, l.rows) == LocalResult(l, (a, done));
  }

  lemma SplitAgrees(l: Local, r: Remote, t: Remote, direction: Direction, ok: Oracle)
    requires Agree(l, r) && l.status == Running
    requires var (u, done) := SplitHost(r.hosted.host, direction, PaneArea(r.hosted.cols, r.hosted.rows), ok);
             Follows(r, t, u, r.hosted.cols, r.hosted.rows, done)
    ensures var after := LocalResult(l, SplitHost(l.host, direction, PaneArea(l.cols, l.rows), ok));
            if Fits(after) then Agree(after, t) else CutOff(t)
  {
    var areaL, areaR := PaneArea(l.cols, l.rows), PaneArea(r.hosted.cols, r.hosted.rows);
    SplitBothWays(l.host, r.hosted.host, direction, areaL, areaR, ok);
    var (a, done) := SplitHost(l.host, direction, areaL, ok);
    PaneOperationAgrees(l, r, t, a, SplitHost(r.hosted.host, direction, areaR, ok).0, done);
  }

  lemma SplitBothWays(a: Host, b: Host, direction: Direction, areaA: Rect, areaB: Rect, ok: Oracle)
    requires a.Valid() && b.Valid() && SameHost(a, b)
    ensures var (t, done) := SplitHost(a, direction, areaA, ok);
            var u := SplitHost(b, direction, areaB, ok).0;
            && t.Valid() && u.Valid() && SameHost(t, u) && done == SplitHost(b, direction, areaB, ok).1
            && (areaA == areaB && done ==> t.ptys == u.ptys)
            && |Leaves(t.session.root)| <= |Leaves(a.session.root)| + 1
  {
    SplitHostInStep(a, b, direction, areaA, areaB, ok);
    SplitHostValid(a, direction, areaA, ok);
    SplitHostValid(b, direction, areaB, ok);
  }

  lemma CloseAgrees(l: Local, r: Remote, t: Remote, ok: Oracle)
    requires Agree(l, r) && l.status == Running
    requires var (u, done) := CloseHost(r.hosted.host, ok); Follows(r, t, u, r.hosted.cols, r.hosted.rows, done)
    ensures var after := LocalResult(l, CloseHost(l.host, ok));
            if Fits(after) then Agree(after, t) else CutOff(t)
  {
    var (a, done) := CloseHost(l.host, ok);
    var (u, _) := CloseHost(r.hosted.host, ok);
    CloseHostInStep(l.host, r.hosted.host, ok);
    CloseHostValid(l.host, ok);
    CloseHostValid(r.hosted.host, ok);
    PaneOperationAgrees(l, r, t, a, u, done);
  }

  lemma SplitCommandAgrees(l: Local, r: Remote, command: MuxCommand, ok: Oracle, screens: Screens)
    requires Agree(l, r) && l.status == Running && (command.SplitHorizontal? || command.SplitVertical?)
    ensures var after := LocalCommand(l, command, ok);
            if Fits(after) then Agree(after, RemoteCommand(r, command, ok, screens))
            else CutOff(RemoteCommand(r, command, ok, screens))
  {
    CommandFollows(r, CommandCode(command), ok, screens);
    var direction := if command.SplitHorizontal? then Horizontal else Vertical;
    SplitAgrees(l, r, RemoteCommand(r, command, ok, screens), direction, ok);
  }

  lemma FocusAgrees(l: Local, r: Remote, t: Remote)
    requires Agree(l, r) && l.status == Running
    requires Follows(r, t, FocusHost(r.hosted.host), r.hosted.cols, r.hosted.rows, true)
    ensures Agree(l.(host := FocusHost(l.host)), t)
  {
    PaneOperationAgrees(l, r, t, FocusHost(l.host), FocusHost(r.hosted.host), true);
  }

  lemma FocusCommandAgrees(l: Local, r: Remote, ok: Oracle, screens: Screens)
    requires Agree(l, r) && l.status == Running
    ensures Agree(LocalCommand(l, FocusNext, ok), RemoteCommand(r, FocusNext, ok, screens))
  {
    CommandFollows(r, 3, ok, screens);
    FocusAgrees(l, r, RemoteCommand(r, FocusNext, ok, screens));
  }

  lemma CloseCommandAgrees(l: Local, r: Remote, ok: Oracle, screens: Screens)
    requires Agree(l, r) && l.status == Running
    ensures var after := LocalCommand(l, CloseFocused, ok);
            if Fits(after) then Agree(after, RemoteCommand(r, CloseFocused, ok, screens))
            else CutOff(RemoteCommand(r, CloseFocused, ok, screens))
  {
    CommandFollows(r, 4, ok, screens);
    CloseAgrees(l, r, RemoteCommand(r, CloseFocused, ok, screens), ok);
  }

  lemma CommandAgrees(l: Local, r: Remote, command: MuxCommand, ok: Oracle, screens: Screens)
    requires Agree(l, r) && l.status == Running
    ensures var after := LocalCommand(l, command, ok);
            if Fits(after) then Agree(after, RemoteCommand(r, command, ok, screens))
            else CutOff(RemoteCommand(r, command, ok, screens))
  {
    match command
    case SplitHorizontal => SplitCommandAgrees(l, r, command, ok, screens);
    case SplitVertical => SplitCommandAgrees(l, r, command, ok, screens);
    case FocusNext => FocusCommandAgrees(l, r, ok, screens);
    case CloseFocused => CloseCommandAgrees(l, r, ok, screens);
    case EnterCopyMode =>
    case _ => LeavingStops(r, ok, screens);
  }

  lemma WriteAgrees(l: Local, r: Remote, bytes: Bytes, ok: Oracle, screens: Screens)
    requires Agree(l, r) && l.status == Running && |bytes| <= MAX_INPUT_BYTES
    ensures var after := LocalResult(l, WriteHost(l.host, bytes, ok));
            Agree(after, RemoteExchange(r, Input(bytes), ok, screens))
  {
    var (a, done) := WriteHost(l.host, bytes, ok);
    var (u, _) := WriteHost(r.hosted.host, bytes, ok);
    WriteHostInStep(l.host, r.hosted.host, bytes, ok);
    InputFollows(r, bytes, ok, screens);
    PaneOperationAgrees(l, r, RemoteExchange(r, Input(bytes), ok, screens), a, u, done);
  }

  lemma ByteAgrees(l: Local, r: Remote, b: byte, ok: Oracle, screens: Screens)
    requires Agree(l, r) && l.status == Running
    ensures if Fits(LocalByte(l, b, ok)) then Agree(LocalByte(l, b, ok), RemoteByte(r, b, ok, screens))
            else CutOff(RemoteByte(r, b, ok, screens))
  {
    var (pending, action) := Routed(l.pending, b);
    var l1, r1 := l.(pending := pending), r.(pending := pending);
    match action
    case Pending =>
    case Forward(bytes) => WriteAgrees(l1, r1, bytes, ok, screens);
    case Command(command) => CommandAgrees(l1, r1, command, ok, screens);
  }

  /** Whether every state of the local application while it handles a key fits a snapshot. */
  predicate BytesFit(l: Local, bytes: Bytes, ok: Oracle)
    requires l.host.Valid()
    decreases |bytes|
  {
    bytes == [] || l.status != Running ||
    (Fits(LocalByte(l, bytes[0], ok)) && BytesFit(LocalByte(l, bytes[0], ok), bytes[1..], ok))
  }

  lemma {:induction false} BytesAgree(l: Local, r: Remote, bytes: Bytes, ok: Oracle, screens: Screens)
    requires Agree(l, r)
    ensures if BytesFit(l, bytes, ok) then Agree(LocalBytes(l, bytes, ok), RemoteBytes(r, bytes, ok, screens))
            else CutOff(RemoteBytes(r, bytes, ok, screens))
    decreases |bytes|
  {
    if bytes != [] && l.status == Running {
      var l1, r1 := LocalByte(l, bytes[0], ok), RemoteByte(r, bytes[0], ok, screens);
      ByteAgrees(l, r, bytes[0], ok, screens);
      if Fits(l1) {
        BytesAgree(l1, r1, bytes[1..], ok, screens);
      }
    }
  }

  predicate EventFits(l: Local, event: Event, ok: Oracle)
    requires l.host.Valid()
  {
    event.KeyPress? && l.status == Running && !l.copying ==> BytesFit(l, event.bytes, ok)
  }

  lemma EventAgrees(l: Local, r: Remote, event: Event, ok: Oracle, screens: Screens)
    requires Agree(l, r)
    ensures if EventFits(l, event, ok) then Agree(LocalEvent(l, event, ok), RemoteEvent(r, event, ok, screens))
            else CutOff(RemoteEvent(r, event, ok, screens))
  {
    if l.status == Running {
      match event
      case KeyPress(bytes, leaves) => if !l.copying { BytesAgree(l, r, bytes, ok, screens); }
      case WindowResized(cols, rows) => WindowAgrees(l, r, cols, rows, ok, screens);
      case Quiet =>
        SnapshotFollows(r, ok, screens);
        OperationAgrees(l, r, RemoteExchange(r, Request.Snapshot, ok, screens),
                        l.host, r.hosted.host, l.cols, l.rows, true);
    }
  }

  lemma WindowAgrees(l: Local, r: Remote, cols: u16, rows: u16, ok: Oracle, screens: Screens)
    requires l.host.Valid() && r.hosted.Valid() && SameHost(l.host, r.hosted.host)
    requires l.pending == r.pending && l.copying == r.copying && r.status == Running
    requires |r.hosted.Panes()| <= MAX_SNAPSHOT_PANES
    ensures var after := LocalResized(l, ResizeHost(l.host, PaneArea(cols, rows), ok), cols, rows);
            after.host.Valid() && Agree(after, RemoteExchange(r, Resize(cols, rows), ok, screens))
  {
    var (c, w) := (Max(cols, 2), Max(rows, 2));
    ResizeHostInStep(l.host, r.hosted.host, PaneArea(cols, rows), PaneArea(c, w), ok);
    ResizeHostKeeps(l.host, PaneArea(cols, rows), ok);
    ResizeHostKeeps(r.hosted.host, PaneArea(c, w), ok);
    ResizeFollows(r, cols, rows, ok, screens);
  }

  /** Whether the local application, while it runs, never has more than 32 panes. */
  predicate AlwaysFits(l: Local, events: seq<Event>, ok: Oracle)
    requires l.host.Valid()
    decreases |events|
  {
    events == [] || (EventFits(l, events[0], ok) && AlwaysFits(LocalEvent(l, events[0], ok), events[1..], ok))
  }

  /** A client that has failed stays as it is. */
  lemma {:induction false} FailedStays(r: Remote, events: seq<Event>, ok: Oracle, screens: Screens)
    requires r.hosted.Valid() && r.status == Failed
    ensures RemoteEvents(r, events, ok, screens) == r
    decreases |events|
  {
    if events != [] {
      FailedStays(r, events[1..], ok, screens);
    }
  }

  /**
    * For every list of terminal events: if the panes always fit a snapshot, the two front ends agree at the
    * end; otherwise the client has been cut off from a session of 33 panes.
    */
  lemma {:induction false} FrontEndsAgree(l: Local, r: Remote, events: seq<Event>, ok: Oracle, screens: Screens)
    requires Agree(l, r)
    ensures if AlwaysFits(l, events, ok) then Agree(LocalEvents(l, events, ok), RemoteEvents(r, events, ok, screens))
            else CutOff(RemoteEvents(r, events, ok, screens))
    decreases |events|
  {
    if events != [] {
      var l1, r1 := LocalEvent(l, events[0], ok), RemoteEvent(r, events[0], ok, screens);
      EventAgrees(l, r, events[0], ok, screens);
      if EventFits(l, events[0], ok) {
        FrontEndsAgree(l1, r1, events[1..], ok, screens);
      } else {
        FailedStays(r1, events[1..], ok, screens);
      }
    }
  }

  /** In terms of what a user sees: the same panes and focus, the same input in every pane, and the same end. */
  lemma FrontEndsDoTheSame(l: Local, r: Remote, events: seq<Event>, ok: Oracle, screens: Screens)
    requires Agree(l, r) && AlwaysFits(l, events, ok)
    ensures var a, b := LocalEvents(l, events, ok), RemoteEvents(r, events, ok, screens);
            var s, t := a.host.session, b.hosted.host.session;
            && s.root == t.root && s.focused == t.focused && s.nextId == t.nextId
            && (forall id :: id in a.host.ptys <==> id in b.hosted.host.ptys)
            && (forall id | id in a.host.ptys :: a.host.ptys[id].delivered == b.hosted.host.ptys[id].delivered)
            && a.status == b.status && a.pending == b.pending
  {
    FrontEndsAgree(l, r, events, ok, screens);
  }

  /** A session with more than 32 panes shuts every client out: its first exchange fails, and keeps the panes. */
  lemma TooManyPanesShutOut(hosted: Hosted, cols: u16, rows: u16, ok: Oracle, screens: Screens)
    requires hosted.Valid()
    ensures var t := RemoteStart(hosted, cols, rows, ok, screens);
            t.hosted.Panes() == hosted.Panes() && (|hosted.Panes()| > MAX_SNAPSHOT_PANES ==> t.status == Failed)
  {
    var r := Remote(hosted, Attached(hosted.Name()), false, false, Running, []);
    ExchangeShows(r, Resize(cols, rows), ok, screens);
    ResizeHostKeeps(hosted.host, PaneArea(Max(cols, 2), Max(rows, 2)), ok);
  }

  /** They start in agreement: the application on its own session, the client on one the daemon has just created. */
  lemma FrontEndsStartAlike(name: SessionName, own: SessionName, cols: u16, rows: u16, ok: Oracle, screens: Screens)
    requires ok(0)
    ensures var (hosted, created) := CreateHosted(name, ok);
            && created && hosted.Valid() && hosted.(attached := true).Valid()
            && Agree(LocalStart(cols, rows, own, ok), RemoteStart(hosted.(attached := true), cols, rows, ok, screens))
  {
    OpenHostValid(own, SPAWN_SIZE, ok);
    OpenHostValid(name, TerminalSize(24, 80), ok);
    var hosted := CreateHosted(name, ok).0.(attached := true);
    var host := OpenHost(own, SPAWN_SIZE, ok).0;
    WindowAgrees(Local(host, false, false, cols, rows, Failed),
                 Remote(hosted, Attached(hosted.Name()), false, false, Running, []), cols, rows, ok, screens);
  }
}
