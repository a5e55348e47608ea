/** What requests do to a hosted session and what is answered, in terms of panes, cells, bytes and text. */
module HostedLaws {
  import opened Basics
  import opened Names
  import opened PaneTree
  import opened Layout
  import opened Hosting
  import opened Wire
  import opened Service
  import Utf8

  /** The cells of the client's window that show panes: all rows but the last, which is the status row. */
  function Window(h: Hosted): Rect
    requires h.rows >= 1
  {
    Rect(0, 0, h.cols, h.rows - 1)
  }

  // ---- Creation ----

  /** A new session has one unwritten PTY of 24 rows and 80 columns, nobody attached, and that viewport. */
  lemma CreatedIs(name: SessionName, ok: Oracle)
    ensures var (h, done) := CreateHosted(name, ok);
            && (done <==> ok(0))
            && (done ==>
                  && h.Name() == name && h.Panes() == [1] && h.host.session.focused == 1 && !h.attached
                  && h.cols == 80 && h.rows == 24
                  && h.host.ptys == map[1 := Pty(0, [], TerminalSize(24, 80))] && h.host.calls == 1)
  {
    OpenHostValid(name, TerminalSize(24, 80), ok);
  }

  // ---- Commands ----

  function DirectionOf(command: byte): Direction {
    if command == 1 then Horizontal else Vertical
  }

  lemma WindowIsArea(h: Hosted)
    requires h.Valid()
    ensures Window(h) == PaneArea(h.cols, h.rows)
  {
  }

  lemma SplitCommandIs(
    h: Hosted, command: byte, direction: Direction, ok: Oracle, area: Rect, host: Host, done: bool)
    requires h.Valid() && (command == 1 || command == 2) && area == PaneArea(h.cols, h.rows)
    requires direction == DirectionOf(command) && (host, done) == SplitHost(h.host, direction, area, ok)
    ensures CommandHosted(h, command, ok) == (h.(host := host), done)
  {
  }

  /** Command 1 puts the new pane beside the focused one, command 2 below it. */
  lemma SplitCommandDivides(h: Hosted, command: byte, ok: Oracle)
    requires h.Valid() && (command == 1 || command == 2)
    requires h.host.session.nextId < U64_MAX && ok(h.host.calls)
    ensures var t := CommandHosted(h, command, ok).0;
            SplitsRoom(h.host.session, t.host.session, if command == 1 then Horizontal else Vertical, Window(h))
  {
    var direction := DirectionOf(command);
    WindowIsArea(h);
    var (host, done) := SplitHost(h.host, direction, Window(h), ok);
    SplitCommandIs(h, command, direction, ok, Window(h), host, done);
    SplitHostDividesRoom(h.host, direction, Window(h), ok);
  }

  /** Command 3 focuses the next pane in visual order, or the first after the last, and does nothing else. */
  lemma FocusCommandEffect(h: Hosted, ok: Oracle)
    requires h.Valid()
    ensures var panes := h.Panes();
            var i := IndexOf(panes, h.host.session.focused);
            var next := if i + 1 == |panes| then panes[0] else panes[i + 1];
            CommandHosted(h, 3, ok) ==
            (h.(host := h.host.(session := h.host.session.(focused := next))), true)
  {
    FocusHostEffect(h.host);
  }

  /** Command 4 takes the focused pane and its PTY away, unless it is the last pane. */
  lemma CloseCommandEffect(h: Hosted, ok: Oracle)
    requires h.Valid()
    ensures var (t, done) := CommandHosted(h, 4, ok);
            var gone := h.host.session.focused;
            if |h.Panes()| == 1 then t == h && done
            else
              && (done <==> ok(h.host.calls))
              && (forall id :: id in t.Panes() <==> id in h.Panes() && id != gone)
              && t.host.ptys == h.host.ptys - {gone} && |t.Panes()| == |h.Panes()| - 1
  {
    CloseHostSteps(h.host, ok);
    CloseCommandIs(h, ok, CloseHost(h.host, ok).0, CloseHost(h.host, ok).1);
    if |h.Panes()| > 1 {
      CloseEffect(h.host.session);
    }
  }

  lemma CloseCommandIs(h: Hosted, ok: Oracle, host: Host, done: bool)
    requires h.Valid() && (host, done) == CloseHost(h.host, ok)
    ensures CommandHosted(h, 4, ok) == (h.(host := host), done)
  {
  }

  /** Any other number is refused and changes nothing. */
  lemma UnknownCommand(h: Hosted, command: byte, ok: Oracle)
    requires h.Valid() && !(1 <= command <= 4)
    ensures CommandHosted(h, command, ok) == (h, false)
  {
  }

  // ---- Input and size ----

  /** Attached input reaches exactly the focused pane if its write succeeds. */
  lemma InputArrives(h: Hosted, bytes: Bytes, name: SessionName, texts: PaneId -> Utf8.Text, ok: Oracle)
    requires h.Valid()
    ensures var t := HandleAttached(h, Input(bytes), name, texts, ok).0;
            Delivers(h.host, t.host, h.host.session.focused, if ok(h.host.calls) then bytes else [])
  {
    WriteEffect(h.host, bytes, ok);
  }

  /** A resize takes over the client's window, of at least 2 by 2 cells, and fits every PTY inside its border. */
  lemma ResizeFits(h: Hosted, cols: u16, rows: u16, ok: Oracle, id: PaneId)
    requires h.Valid() && id in h.Panes()
    ensures var (t, done) := ResizeHosted(h, cols, rows, ok);
            && t.cols == (if cols > 2 then cols else 2) && t.rows == (if rows > 2 then rows else 2)
            && t.host.session == h.host.session && t.Panes() == h.Panes()
            && (done <==> AllOk(ok, h.host.calls, |h.Panes()|))
            && (done ==>
                  var rect := RectOf(h.host.session.root, Window(t), id);
                  && id in t.host.ptys
                  && t.host.ptys[id].size.cols == (if rect.width > 4 then rect.width - 2 else 2)
                  && t.host.ptys[id].size.rows == (if rect.height > 4 then rect.height - 2 else 2))
  {
    var area := PaneArea(Max(cols, 2), Max(rows, 2));
    ResizeHostKeeps(h.host, area, ok);
    ResizeHostSucceedsIff(h.host, area, ok);
    if ResizeHost(h.host, area, ok).1 {
      ResizeLeavesBorder(h.host, area, ok, id);
    }
  }

  // ---- Screens ----

  /** The bytes of text that each of so many panes may show. */
  function Share(panes: nat): nat {
    if panes == 0 then 0 else 6500 / panes
  }

  /** A view shows its pane: where it is, whether it has the focus, and the end of its terminal's text. */
  ghost predicate ViewShows(view: PaneSnapshot, h: Hosted, id: PaneId, text: Utf8.Text, limit: nat)
    requires h.Valid() && id in h.Panes()
  {
    var rect := RectOf(h.host.session.root, Window(h), id);
    && view.id == id && Rect(view.x, view.y, view.width, view.height) == rect
    && (view.focused <==> id == h.host.session.focused)
    && Utf8.IsLongestSuffix(view.text, text, limit)
  }

  /** A screen shows a session: every pane once, in visual order, with as much of its text as its share allows. */
  ghost predicate Shows(response: Response, h: Hosted, texts: PaneId -> Utf8.Text)
    requires h.Valid()
  {
    && response.Screen? && |response.panes| == |h.Panes()|
    && forall i | 0 <= i < |h.Panes()| ::
         ViewShows(response.panes[i], h, h.Panes()[i], texts(h.Panes()[i]), Share(|h.Panes()|))
  }

  lemma PaneViewShows(h: Hosted, text: Utf8.Text, id: PaneId, rect: Rect, limit: nat)
    requires h.Valid() && id in h.Panes() && rect == RectOf(h.host.session.root, Window(h), id)
    ensures ViewShows(PaneView(h, id, rect, text, limit), h, id, text, limit)
  {
    Utf8.TruncatedIs(text, limit);
  }

  lemma ShareIs(n: nat)
    requires n > 0
    ensures Share(n) == SNAPSHOT_TEXT_BYTES / Max(n, 1)
  {
  }

  lemma ViewAt(h: Hosted, texts: PaneId -> Utf8.Text, limit: nat, i: nat)
    requires h.Valid() && i < |h.Panes()|
    ensures var id := h.Panes()[i];
            var layout := Layout.Layout(h.host.session.root, Window(h));
            PaneViews(h, layout, texts, limit)[i] ==
            PaneView(h, id, RectOf(h.host.session.root, Window(h), id), texts(id), limit)
  {
    LayoutIsRectOf(h.host.session.root, Window(h), i);
  }

  lemma SnapshotIs(h: Hosted, texts: PaneId -> Utf8.Text, limit: nat)
    requires h.Valid() && limit == SNAPSHOT_TEXT_BYTES / Max(|h.Panes()|, 1)
    ensures SnapshotOf(h, texts) ==
            Screen(PaneViews(h, Layout.Layout(h.host.session.root, Window(h)), texts, limit))
  {
  }

  /** A snapshot shows the session as it is. */
  lemma SnapshotShows(h: Hosted, texts: PaneId -> Utf8.Text)
    requires h.Valid()
    ensures Shows(SnapshotOf(h, texts), h, texts)
  {
    var panes, limit := h.Panes(), Share(|h.Panes()|);
    ShareIs(|panes|);
    SnapshotIs(h, texts, limit);
    var views := PaneViews(h, Layout.Layout(h.host.session.root, Window(h)), texts, limit);
    forall i | 0 <= i < |panes|
      ensures ViewShows(views[i], h, panes[i], texts(panes[i]), limit)
    {
      ViewAt(h, texts, limit, i);
      PaneViewShows(h, texts(panes[i]), panes[i], RectOf(h.host.session.root, Window(h), panes[i]), limit);
    }
  }

  predicate CellOf(view: PaneSnapshot, col: int, row: int) {
    view.x <= col < view.x + view.width && view.y <= row < view.y + view.height
  }

  lemma CellIs(response: Response, h: Hosted, texts: PaneId -> Utf8.Text, i: nat, col: int, row: int)
    requires h.Valid() && Shows(response, h, texts) && i < |h.Panes()|
    ensures CellOf(response.panes[i], col, row) ==
            Layout.Layout(h.host.session.root, Window(h))[i].1.Covers(col, row)
  {
    LayoutIsRectOf(h.host.session.root, Window(h), i);
    assert ViewShows(response.panes[i], h, h.Panes()[i], texts(h.Panes()[i]), Share(|h.Panes()|));
  }

  /** On a screen every cell above the status row belongs to one view and to no other. */
  lemma ScreenCell(response: Response, h: Hosted, texts: PaneId -> Utf8.Text, col: int, row: int) returns (i: nat)
    requires h.Valid() && Shows(response, h, texts) && 0 <= col < h.cols && 0 <= row < h.rows - 1
    ensures i < |response.panes| && CellOf(response.panes[i], col, row)
    ensures forall j | 0 <= j < |response.panes| && j != i :: !CellOf(response.panes[j], col, row)
  {
    i := PaneAtCell(h.host.session.root, Window(h), col, row);
    CellIs(response, h, texts, i, col, row);
    forall j | 0 <= j < |response.panes| && j != i
      ensures !CellOf(response.panes[j], col, row)
    {
      CellIs(response, h, texts, j, col, row);
    }
  }

  /** The status row, and what lies outside the window, belongs to no view. */
  lemma StatusRowIsFree(response: Response, h: Hosted, texts: PaneId -> Utf8.Text, i: nat, col: int, row: int)
    requires h.Valid() && Shows(response, h, texts) && i < |response.panes|
    requires !(0 <= col < h.cols && 0 <= row < h.rows - 1)
    ensures !CellOf(response.panes[i], col, row)
  {
    CellIs(response, h, texts, i, col, row);
    if CellOf(response.panes[i], col, row) {
      PanesStayInside(h.host.session.root, Window(h), i, col, row);
    }
  }

  // ---- Which calls a request makes, and what it answers ----

  /** A request that is answered with a screen if it succeeds. */
  predicate ScreenDue(request: Request) {
    request.Snapshot? || request.Input? || request.Resize? || request.Command?
  }

  /** Every call that the request needs into the operating system succeeds, and a command is known. */
  ghost predicate Succeeds(h: Hosted, request: Request, ok: Oracle) {
    match request
    case Input(_) => ok(h.host.calls)
    case Resize(_, _) => AllOk(ok, h.host.calls, |h.Panes()|)
    case Command(command) =>
      if command == 1 || command == 2 then
        h.host.session.nextId < U64_MAX && AllOk(ok, h.host.calls, |h.Panes()| + 2)
      else if command == 3 then true
      else command == 4 && (|h.Panes()| == 1 || ok(h.host.calls))
    case _ => true
  }

  /** The number of panes after a request that succeeds. */
  function PanesAfter(h: Hosted, request: Request): nat {
    if request == Request.Command(1) || request == Request.Command(2) then |h.Panes()| + 1
    else if request == Request.Command(4) && |h.Panes()| > 1 then |h.Panes()| - 1
    else |h.Panes()|
  }

  lemma CommandSucceedsIff(h: Hosted, command: byte, ok: Oracle, t: Hosted, done: bool)
    requires h.Valid() && (t, done) == CommandHosted(h, command, ok)
    ensures done <==> Succeeds(h, Request.Command(command), ok)
    ensures done ==> |t.Panes()| == PanesAfter(h, Request.Command(command))
  {
    if command == 1 || command == 2 {
      SplitCommandSucceedsIff(h, command, t, done, ok);
    } else if command == 4 {
      CloseCommandEffect(h, ok);
    }
  }

  lemma SplitResult(h: Host, direction: Direction, area: Rect, ok: Oracle, n: nat, result: (Host, bool))
    requires h.Valid() && n == |Leaves(h.session.root)| && result == SplitHost(h, direction, area, ok)
    ensures result.1 <==> h.session.nextId < U64_MAX && AllOk(ok, h.calls, n + 2)
    ensures result.1 ==> |Leaves(result.0.session.root)| == n + 1
  {
    SplitSucceedsIff(h, direction, area, ok);
    if result.1 {
      SplitHostEffect(h, direction, area, ok);
      SplitEffect(h.session, direction);
    }
  }

  lemma SplitCommandOutcome(h: Hosted, command: byte, direction: Direction, area: Rect, ok: Oracle)
    returns (host: Host, done: bool)
    requires h.Valid() && (command == 1 || command == 2)
    requires direction == DirectionOf(command) && area == PaneArea(h.cols, h.rows)
    ensures CommandHosted(h, command, ok) == (h.(host := host), done)
    ensures done <==> h.host.session.nextId < U64_MAX && AllOk(ok, h.host.calls, |h.Panes()| + 2)
    ensures done ==> |Leaves(host.session.root)| == |h.Panes()| + 1
  {
    var result := SplitHost(h.host, direction, area, ok);
    host, done := result.0, result.1;
    assert (host, done) == result;
    SplitResult(h.host, direction, area, ok, |h.Panes()|, result);
    SplitCommandIs(h, command, direction, ok, area, host, done);
  }

  lemma SplitCommandSucceedsIff(h: Hosted, command: byte, t: Hosted, done: bool, ok: Oracle)
    requires h.Valid() && (command == 1 || command == 2) && (t, done) == CommandHosted(h, command, ok)
    ensures done <==> Succeeds(h, Request.Command(command), ok)
    ensures done ==> |t.Panes()| == |h.Panes()| + 1
  {
    var host, split := SplitCommandOutcome(h, command, DirectionOf(command), PaneArea(h.cols, h.rows), ok);
  }

  /** How a request that leads to `t` is answered: with a screen of `t`, or not at all. */
  function ScreenReply(t: Hosted, done: bool, texts: PaneId -> Utf8.Text): (Hosted, Reply) {
    (t, if done then Answer(SnapshotOf(t, texts)) else Drop)
  }

  lemma InputReply(
    h: Hosted, bytes: Bytes, name: SessionName, texts: PaneId -> Utf8.Text, ok: Oracle, host: Host, done: bool)
    requires h.Valid() && (host, done) == WriteHost(h.host, bytes, ok)
    ensures HandleAttached(h, Input(bytes), name, texts, ok) == ScreenReply(h.(host := host), done, texts)
  {
  }

  lemma ResizeReply(
    h: Hosted, cols: u16, rows: u16, name: SessionName, texts: PaneId -> Utf8.Text, ok: Oracle, t: Hosted, done: bool)
    requires h.Valid() && (t, done) == ResizeHosted(h, cols, rows, ok)
    ensures HandleAttached(h, Resize(cols, rows), name, texts, ok) == ScreenReply(t, done, texts)
  {
  }

  lemma CommandReply(
    h: Hosted, command: byte, name: SessionName, texts: PaneId -> Utf8.Text, ok: Oracle, t: Hosted, done: bool)
    requires h.Valid() && (t, done) == CommandHosted(h, command, ok)
    ensures HandleAttached(h, Request.Command(command), name, texts, ok) == ScreenReply(t, done, texts)
  {
  }

  lemma ReplyShows(t: Hosted, done: bool, texts: PaneId -> Utf8.Text)
    requires t.Valid()
    ensures var reply := ScreenReply(t, done, texts).1;
            if done then reply.Answer? && Shows(reply.response, t, texts) else reply == Drop
  {
    SnapshotShows(t, texts);
  }

  /** What a request with this outcome leads to: the screen of the new state, or the end of the connection. */
  lemma ScreenOutcome(
    h: Hosted, request: Request, name: SessionName, texts: PaneId -> Utf8.Text, ok: Oracle)
    returns (t: Hosted, done: bool)
    requires h.Valid() && ScreenDue(request)
    ensures HandleAttached(h, request, name, texts, ok) == ScreenReply(t, done, texts)
    ensures done <==> Succeeds(h, request, ok)
    ensures done ==> |t.Panes()| == PanesAfter(h, request)
  {
    t, done := h, true;
    match request
    case Input(bytes) =>
      var result := WriteHost(h.host, bytes, ok);
      t, done := h.(host := result.0), result.1;
      WriteEffect(h.host, bytes, ok);
      InputReply(h, bytes, name, texts, ok, result.0, done);
    case Resize(cols, rows) =>
      var result := ResizeHosted(h, cols, rows, ok);
      t, done := result.0, result.1;
      ResizeFits(h, cols, rows, ok, h.Panes()[0]);
      ResizeReply(h, cols, rows, name, texts, ok, t, done);
    case Command(command) =>
      var result := CommandHosted(h, command, ok);
      t, done := result.0, result.1;
      CommandSucceedsIff(h, command, ok, t, done);
      CommandReply(h, command, name, texts, ok, t, done);
    case _ =>
  }

  /** A request that fails ends the connection; one that succeeds is answered with the screen of the new state. */
  lemma ScreenAnswers(h: Hosted, request: Request, name: SessionName, texts: PaneId -> Utf8.Text, ok: Oracle)
    requires h.Valid() && ScreenDue(request)
    ensures var (t, reply) := HandleAttached(h, request, name, texts, ok);
            && t.Valid()
            && (if Succeeds(h, request, ok) then
                  reply.Answer? && Shows(reply.response, t, texts) && |t.Panes()| == PanesAfter(h, request)
                else reply == Drop)
  {
    HandleKeeps(h, request, name, texts, ok);
    var t, done := ScreenOutcome(h, request, name, texts, ok);
    ReplyShows(t, done, texts);
  }

  /** The screen that answers a request has a frame exactly if no more than 32 panes are left. */
  lemma ScreenFitsIff(h: Hosted, request: Request, name: SessionName, texts: PaneId -> Utf8.Text, ok: Oracle)
    requires h.Valid() && ScreenDue(request) && Succeeds(h, request, ok)
    ensures var reply := HandleAttached(h, request, name, texts, ok).1;
            reply.Answer? && (EncodedResponse(reply.response).Success? <==> PanesAfter(h, request) <= 32)
  {
    var t, done := ScreenOutcome(h, request, name, texts, ok);
    SnapshotEncodesIff(t, texts);
  }

  /** A detach under the session's name is confirmed, anything else out of place refused; neither changes anything. */
  lemma OtherAnswers(h: Hosted, request: Request, name: SessionName, texts: PaneId -> Utf8.Text, ok: Oracle)
    requires h.Valid() && !ScreenDue(request)
    ensures var (t, reply) := HandleAttached(h, request, name, texts, ok);
            && t == h
            && (if request == Request.Detach(name) then reply == Farewell(Detached(name))
                else reply == Answer(Error(Conflict, Say("invalid attached request"))))
  {
  }

  // ---- Requests outside an attachment ----

  /** Which answer each request gets from a daemon with these sessions, and why. */
  lemma DispatchOutcome(sessions: map<SessionName, Hosted>, request: Request, ok: Oracle, trouble: Utf8.Text)
    ensures var (after, response) := Dispatched(sessions, request, ok, trouble);
            match request
            case Ping(nonce) => after == sessions && response == Pong(nonce)
            case List => after == sessions && response.Sessions?
            case Create(name) =>
              && (response == Created(name) <==> name in after && name !in sessions)
              && (response.Created? <==> name !in sessions && |sessions| < 64 && ok(0))
              && (name in sessions ==> response == Error(AlreadyExists, Say("session already exists")))
              && (name !in sessions && |sessions| >= 64 ==> response == Error(Conflict, Say("session limit reached")))
              && (name !in sessions && |sessions| < 64 && !ok(0) ==>
                    response.Error? && response.code == Internal && response.message <= trouble)
            case _ => after == sessions && response.Error? && response.code == Conflict
  {
    match request
    case Create(name) => CreatedIs(name, ok);
    case _ =>
  }

  /** A listing states the names of the sessions, each with one client if its flag is set and none if not. */
  lemma ListingStates(sessions: map<SessionName, Hosted>, ok: Oracle, trouble: Utf8.Text, n: SessionName, clients: u16)
    requires forall m | m in sessions :: sessions[m].Name() == m
    ensures var response := Dispatched(sessions, List, ok, trouble).1;
            && response.Sessions?
            && (SessionInfo(n, clients) in response.sessions <==>
                n in sessions && clients == (if sessions[n].attached then 1 else 0))
  {
    ListingIsComplete(sessions, ok, trouble);
    if n in sessions {
      assert InfoOf(sessions[n]) == SessionInfo(n, if sessions[n].attached then 1 else 0);
    }
  }
}
