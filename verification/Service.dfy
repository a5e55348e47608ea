/** Daemon-owned sessions: what attached requests do to one, and what other requests do to the map of them. */
module Service {
  import opened Basics
  import opened Names
  import opened PaneTree
  import opened Layout
  import opened Hosting
  import opened Wire
  import opened CodecLaws
  import Utf8

  const SNAPSHOT_TEXT_BYTES: nat := 6500

  // ---- Messages ----

  /** The text of an ASCII literal. */
  function Say(message: string): (r: Utf8.Text)
    ensures |r| == |message| && forall i | 0 <= i < |r| && message[i] as int < 128 :: r[i] == message[i] as int
  {
    var bytes: Bytes := seq(|message|, i requires 0 <= i < |message| => Min(message[i] as int, 127));
    Utf8.AsciiIsValid(bytes);
    bytes
  }

  const NOT_FOUND: Utf8.Text := Say("session not found")
  const ALREADY_ATTACHED: Utf8.Text := Say("session already has an attached client")
  const INVALID_REQUEST: Utf8.Text := Say("invalid attached request")
  const ALREADY_EXISTS: Utf8.Text := Say("session already exists")
  const LIMIT_REACHED: Utf8.Text := Say("session limit reached")
  const NOT_STREAMING: Utf8.Text := Say("attach and detach streaming are not implemented")

  function ServiceError(code: ErrorCode, message: Utf8.Text): (r: Response)
    ensures EncodedResponse(r).Success?
    ensures r.Error? && r.code == code && r.message <= message && (|message| <= 256 ==> r.message == message)
  {
    Utf8.BoundedIsLongestPrefix(message);
    ResponseEncodable(Error(code, Utf8.Bounded(message)));
    Error(code, Utf8.Bounded(message))
  }

  // ---- One hosted session ----

  /** A hosted session: its panes, whether a client holds it, and the client's viewport. */
  datatype Hosted = Hosted(host: Host, attached: bool, cols: u16, rows: u16) {
    ghost predicate Valid() {
      host.Valid() && cols >= 2 && rows >= 2
    }

    function Name(): SessionName {
      host.session.name
    }

    function Panes(): seq<PaneId> {
      Leaves(host.session.root)
    }
  }

  /** The cells of a viewport above its status row. */
  function PaneArea(cols: u16, rows: u16): Rect {
    Rect(0, 0, cols, SatSub(rows, 1))
  }

  function CreateHosted(name: SessionName, ok: Oracle): (Hosted, bool) {
    var (host, done) := OpenHost(name, TerminalSize(24, 80), ok);
    (Hosted(host, false, 80, 24), done)
  }

  function ResizeHosted(h: Hosted, cols: u16, rows: u16, ok: Oracle): (Hosted, bool) {
    var (c, r) := (Max(cols, 2), Max(rows, 2));
    var (host, done) := ResizeHost(h.host, PaneArea(c, r), ok);
    (Hosted(host, h.attached, c, r), done)
  }

  /** Applies a numbered multiplexer command; false when it fails or the number is unknown. */
  function CommandHosted(h: Hosted, command: byte, ok: Oracle): (Hosted, bool)
    requires h.Valid()
  {
    if command == 1 || command == 2 then
      var (host, done) :=
        SplitHost(h.host, if command == 1 then Horizontal else Vertical, PaneArea(h.cols, h.rows), ok);
      (h.(host := host), done)
    else if command == 3 then (h.(host := FocusHost(h.host)), true)
    else if command == 4 then
      var (host, done) := CloseHost(h.host, ok);
      (h.(host := host), done)
    else (h, false)
  }

  /** One pane of a snapshot; `text` is what its terminal shows. */
  function PaneView(h: Hosted, id: PaneId, rect: Rect, text: Utf8.Text, allowance: nat): PaneSnapshot {
    PaneSnapshot(id, rect.x, rect.y, rect.width, rect.height, id == h.host.session.focused,
                 Utf8.Truncated(if id in h.host.ptys then text else [], allowance))
  }

  function PaneViews(h: Hosted, layout: seq<(PaneId, Rect)>, texts: PaneId -> Utf8.Text, allowance: nat):
    (r: seq<PaneSnapshot>)
    ensures |r| == |layout|
  {
    seq(|layout|, i requires 0 <= i < |layout| =>
      PaneView(h, layout[i].0, layout[i].1, texts(layout[i].0), allowance))
  }

  function SnapshotOf(h: Hosted, texts: PaneId -> Utf8.Text): Response {
    var layout := Layout.Layout(h.host.session.root, PaneArea(h.cols, h.rows));
    Screen(PaneViews(h, layout, texts, SNAPSHOT_TEXT_BYTES / Max(|layout|, 1)))
  }

  /** What one attached request leads to. */
  datatype Reply =
    | Answer(response: Response) // written to the client, which stays attached
    | Farewell(response: Response) // written to the client, which then leaves
    | Drop // the connection ends with an error

  /** The locked part of one turn of `attached_loop` for the holder of session `name`. */
  function HandleAttached(h: Hosted, request: Request, name: SessionName, texts: PaneId -> Utf8.Text, ok: Oracle):
    (Hosted, Reply)
    requires h.Valid()
  {
    match request
    case Snapshot => (h, Answer(SnapshotOf(h, texts)))
    case Input(bytes) =>
      if h.host.session.focused !in h.host.ptys then (h, Drop)
      else
        var (host, done) := WriteHost(h.host, bytes, ok);
        var t := h.(host := host);
        (t, if done then Answer(SnapshotOf(t, texts)) else Drop)
    case Resize(cols, rows) =>
      var (t, done) := ResizeHosted(h, cols, rows, ok);
      (t, if done then Answer(SnapshotOf(t, texts)) else Drop)
    case Command(command) =>
      var (t, done) := CommandHosted(h, command, ok);
      (t, if done then Answer(SnapshotOf(t, texts)) else Drop)
    case Detach(other) =>
      if other == name then (h, Farewell(Detached(name)))
      else (h, Answer(ServiceError(Conflict, INVALID_REQUEST)))
    case _ => (h, Answer(ServiceError(Conflict, INVALID_REQUEST)))
  }

  // ---- What an attached request keeps ----

  /** A later state under the same client. */
  ghost predicate Evolves(a: Hosted, b: Hosted) {
    LaterHost(a.host, b.host) && a.attached == b.attached
  }

  lemma CreateHostedValid(name: SessionName, ok: Oracle)
    ensures var (h, done) := CreateHosted(name, ok);
            done ==> h.Valid() && h.Name() == name && !h.attached && h.Panes() == [1]
  {
    OpenHostValid(name, TerminalSize(24, 80), ok);
  }

  lemma CommandKeeps(h: Hosted, command: byte, ok: Oracle)
    requires h.Valid()
    ensures var (t, _) := CommandHosted(h, command, ok); t.Valid() && Evolves(h, t)
  {
    var area := PaneArea(h.cols, h.rows);
    if command == 1 || command == 2 {
      var direction := if command == 1 then Horizontal else Vertical;
      SplitHostValid(h.host, direction, area, ok);
      SplitHostLater(h.host, direction, area, ok);
    } else if command == 4 {
      CloseHostValid(h.host, ok);
      CloseHostLater(h.host, ok);
    }
  }

  lemma ResizeKeeps(h: Hosted, cols: u16, rows: u16, ok: Oracle)
    requires h.Valid()
    ensures var (t, _) := ResizeHosted(h, cols, rows, ok); t.Valid() && Evolves(h, t)
  {
    var area := PaneArea(Max(cols, 2), Max(rows, 2));
    ResizeHostKeeps(h.host, area, ok);
    ResizeHostLater(h.host, area, ok);
  }

  lemma InputKeeps(h: Hosted, bytes: Bytes, ok: Oracle)
    requires h.Valid()
    ensures var t := h.(host := WriteHost(h.host, bytes, ok).0); t.Valid() && Evolves(h, t)
  {
  }

  /** The part of an attached request that changes the session. */
  function Handled(h: Hosted, request: Request, ok: Oracle): Hosted
    requires h.Valid()
  {
    match request
    case Input(bytes) => h.(host := WriteHost(h.host, bytes, ok).0)
    case Resize(cols, rows) => ResizeHosted(h, cols, rows, ok).0
    case Command(command) => CommandHosted(h, command, ok).0
    case _ => h
  }

  lemma HandledIs(h: Hosted, request: Request, name: SessionName, texts: PaneId -> Utf8.Text, ok: Oracle)
    requires h.Valid()
    ensures HandleAttached(h, request, name, texts, ok).0 == Handled(h, request, ok)
  {
  }

  lemma HandledKeeps(h: Hosted, request: Request, ok: Oracle)
    requires h.Valid()
    ensures Handled(h, request, ok).Valid() && Evolves(h, Handled(h, request, ok))
  {
    match request
    case Input(bytes) => InputKeeps(h, bytes, ok);
    case Resize(cols, rows) => ResizeKeeps(h, cols, rows, ok);
    case Command(command) => CommandKeeps(h, command, ok);
    case _ =>
  }

  /** Tree and registry agree after every attached request, whatever it is and whatever fails. */
  lemma HandleKeeps(h: Hosted, request: Request, name: SessionName, texts: PaneId -> Utf8.Text, ok: Oracle)
    requires h.Valid()
    ensures var (t, _) := HandleAttached(h, request, name, texts, ok); t.Valid() && Evolves(h, t)
  {
    HandledIs(h, request, name, texts, ok);
    HandledKeeps(h, request, ok);
  }

  // ---- No two panes share a PTY ----

  lemma CreateHostedOwnsSpawns(name: SessionName, ok: Oracle)
    ensures CreateHosted(name, ok).1 ==> CreateHosted(name, ok).0.host.OwnSpawns()
  {
    OpenHostValid(name, TerminalSize(24, 80), ok);
    if ok(0) {
      OpenHostOwnsSpawns(name, TerminalSize(24, 80), ok);
    }
  }

  lemma CommandKeepsOwnSpawns(h: Hosted, command: byte, ok: Oracle)
    requires h.Valid() && h.host.OwnSpawns()
    ensures CommandHosted(h, command, ok).0.host.OwnSpawns()
  {
    if command == 1 || command == 2 {
      SplitKeepsOwnSpawns(h.host, if command == 1 then Horizontal else Vertical, PaneArea(h.cols, h.rows), ok);
    } else if command == 4 {
      CloseKeepsOwnSpawns(h.host, ok);
    }
  }

  /** After every attached request the panes still have PTYs from different spawns, whatever fails. */
  lemma HandleKeepsOwnSpawns(h: Hosted, request: Request, name: SessionName, texts: PaneId -> Utf8.Text, ok: Oracle)
    requires h.Valid() && h.host.OwnSpawns()
    ensures HandleAttached(h, request, name, texts, ok).0.host.OwnSpawns()
  {
    HandledIs(h, request, name, texts, ok);
    match request
    case Input(bytes) => WriteKeepsOwnSpawns(h.host, bytes, ok);
    case Resize(cols, rows) => ResizeKeepsOwnSpawns(h.host, PaneArea(Max(cols, 2), Max(rows, 2)), ok);
    case Command(command) => CommandKeepsOwnSpawns(h, command, ok);
    case _ =>
  }

  // ---- Snapshots ----

  lemma OneMore(n: nat, allowance: nat)
    ensures (n + 1) * allowance == n * allowance + allowance
  {
  }

  lemma {:induction false} TextsWithin(panes: seq<PaneSnapshot>, allowance: nat)
    requires forall pane | pane in panes :: |pane.text| <= allowance
    ensures TextBytes(panes) <= |panes| * allowance
  {
    if panes != [] {
      TextsWithin(panes[1..], allowance);
      OneMore(|panes[1..]|, allowance);
    }
  }

  lemma ViewsFit(h: Hosted, layout: seq<(PaneId, Rect)>, texts: PaneId -> Utf8.Text, allowance: nat)
    ensures TextBytes(PaneViews(h, layout, texts, allowance)) <= |layout| * allowance
  {
    forall i | 0 <= i < |layout|
      ensures |PaneViews(h, layout, texts, allowance)[i].text| <= allowance
    {
      var id := layout[i].0;
      Utf8.TruncatedIsLongestSuffix(if id in h.host.ptys then texts(id) else [], allowance);
    }
    TextsWithin(PaneViews(h, layout, texts, allowance), allowance);
  }

  lemma ShareOfTexts(n: nat)
    requires n > 0
    ensures n * (SNAPSHOT_TEXT_BYTES / n) <= SNAPSHOT_TEXT_BYTES
  {
  }

  /** A snapshot has a frame exactly when there are at most 32 panes, whatever the terminals show. */
  lemma SnapshotEncodesIff(h: Hosted, texts: PaneId -> Utf8.Text)
    ensures EncodedResponse(SnapshotOf(h, texts)).Success? <==> |h.Panes()| <= MAX_SNAPSHOT_PANES
  {
    var layout := Layout.Layout(h.host.session.root, PaneArea(h.cols, h.rows));
    var n := |layout|;
    ViewsFit(h, layout, texts, SNAPSHOT_TEXT_BYTES / n);
    ShareOfTexts(n);
    ResponseEncodable(SnapshotOf(h, texts));
  }

  /** What the client decodes: the panes in visual order with their rectangles, exactly one of them focused. */
  lemma SnapshotArrives(h: Hosted, texts: PaneId -> Utf8.Text)
    requires h.Valid() && |h.Panes()| <= MAX_SNAPSHOT_PANES
    ensures var sent := EncodedResponse(SnapshotOf(h, texts));
            && sent.Success? && DecodedResponse(sent.value) == Success(SnapshotOf(h, texts))
    ensures var views := SnapshotOf(h, texts).panes;
            && |views| == |h.Panes()|
            && forall i | 0 <= i < |views| ::
                 var rect := RectOf(h.host.session.root, PaneArea(h.cols, h.rows), h.Panes()[i]);
                 && views[i].id == h.Panes()[i]
                 && Rect(views[i].x, views[i].y, views[i].width, views[i].height) == rect
                 && (views[i].focused <==> i == IndexOf(h.Panes(), h.host.session.focused))
  {
    SnapshotEncodesIff(h, texts);
    ResponseRoundTrip(SnapshotOf(h, texts));
    var area := PaneArea(h.cols, h.rows);
    var views := SnapshotOf(h, texts).panes;
    forall i | 0 <= i < |views|
      ensures views[i].id == h.Panes()[i]
      ensures Rect(views[i].x, views[i].y, views[i].width, views[i].height)
              == RectOf(h.host.session.root, area, h.Panes()[i])
      ensures views[i].focused <==> i == IndexOf(h.Panes(), h.host.session.focused)
    {
      LayoutIsRectOf(h.host.session.root, area, i);
    }
  }

  // ---- The map of sessions ----

  function InfoOf(h: Hosted): SessionInfo {
    SessionInfo(h.Name(), if h.attached then 1 else 0)
  }

  /** The listing of the sessions `names`, in that order. */
  function Listing(sessions: map<SessionName, Hosted>, names: seq<SessionName>): (r: seq<SessionInfo>)
    requires forall n | n in names :: n in sessions
    ensures |r| == |names|
  {
    seq(|names|, i requires 0 <= i < |names| => InfoOf(sessions[names[i]]))
  }

  /** The request to create a session; `trouble` is the text of the error when its PTY cannot be created. */
  function CreateIn(sessions: map<SessionName, Hosted>, name: SessionName, ok: Oracle, trouble: Utf8.Text):
    (map<SessionName, Hosted>, Response)
  {
    if name in sessions then (sessions, ServiceError(AlreadyExists, ALREADY_EXISTS))
    else if |sessions| >= MAX_LISTED_SESSIONS then (sessions, ServiceError(Conflict, LIMIT_REACHED))
    else
      var (hosted, done) := CreateHosted(name, ok);
      if done then (sessions[name := hosted], Created(name)) else (sessions, ServiceError(Internal, trouble))
  }

  /** `dispatch`. */
  function Dispatched(sessions: map<SessionName, Hosted>, request: Request, ok: Oracle, trouble: Utf8.Text):
    (map<SessionName, Hosted>, Response)
  {
    match request
    case Ping(nonce) => (sessions, Pong(nonce))
    case List => (sessions, Sessions(Listing(sessions, Sorted(sessions.Keys))))
    case Create(name) => CreateIn(sessions, name, ok, trouble)
    case _ => (sessions, ServiceError(Conflict, NOT_STREAMING))
  }

  /** Every session is filed under its own name, and all of them fit in one listing. */
  ghost predicate MapValid(sessions: map<SessionName, Hosted>) {
    && |sessions| <= MAX_LISTED_SESSIONS
    && forall n | n in sessions :: sessions[n].Valid() && sessions[n].Name() == n
  }

  /** `after` has every session of `sessions` unchanged, and possibly `added`, which is new. */
  ghost predicate GrowsBy(
    sessions: map<SessionName, Hosted>, after: map<SessionName, Hosted>, added: set<SessionName>)
  {
    && (forall n | n in sessions :: n in after && after[n] == sessions[n])
    && (forall n | n in after && n !in sessions :: n in added && !after[n].attached && after[n].Panes() == [1])
  }

  lemma CreateKeeps(sessions: map<SessionName, Hosted>, name: SessionName, ok: Oracle, trouble: Utf8.Text)
    requires MapValid(sessions)
    ensures var (after, response) := CreateIn(sessions, name, ok, trouble);
            && MapValid(after) && GrowsBy(sessions, after, {name})
            && (name !in sessions && name in after <==> response == Created(name))
  {
    CreateHostedValid(name, ok);
    var (hosted, done) := CreateHosted(name, ok);
    if done && name !in sessions && |sessions| < MAX_LISTED_SESSIONS {
      NewSessionFiled(sessions, name, hosted);
    }
  }

  lemma NewSessionFiled(sessions: map<SessionName, Hosted>, name: SessionName, hosted: Hosted)
    requires MapValid(sessions) && name !in sessions && |sessions| < MAX_LISTED_SESSIONS
    requires hosted.Valid() && hosted.Name() == name && !hosted.attached && hosted.Panes() == [1]
    ensures MapValid(sessions[name := hosted]) && GrowsBy(sessions, sessions[name := hosted], {name})
  {
  }

  /** Dispatching never loses or replaces a session; what it adds is new, unattached and has one pane. */
  lemma DispatchKeeps(sessions: map<SessionName, Hosted>, request: Request, ok: Oracle, trouble: Utf8.Text)
    requires MapValid(sessions)
    ensures var (after, response) := Dispatched(sessions, request, ok, trouble);
            && MapValid(after)
            && GrowsBy(sessions, after, if request.Create? then {request.name} else {})
  {
    match request
    case Create(name) => CreateKeeps(sessions, name, ok, trouble);
    case _ =>
  }

  /** What a request to the daemon adds has its PTY from a spawn of its own. */
  lemma DispatchOwnsSpawns(
    sessions: map<SessionName, Hosted>, request: Request, ok: Oracle, trouble: Utf8.Text, n: SessionName)
    requires n !in sessions && n in Dispatched(sessions, request, ok, trouble).0
    ensures Dispatched(sessions, request, ok, trouble).0[n].host.OwnSpawns()
  {
    CreateHostedOwnsSpawns(n, ok);
  }

  /** Every response `dispatch` gives has a frame, which decodes to that response. */
  lemma DispatchAnswers(sessions: map<SessionName, Hosted>, request: Request, ok: Oracle, trouble: Utf8.Text)
    requires MapValid(sessions)
    ensures var sent := EncodedResponse(Dispatched(sessions, request, ok, trouble).1);
            && sent.Success? && |sent.value| <= MAX_FRAME_BYTES
            && DecodedResponse(sent.value) == Success(Dispatched(sessions, request, ok, trouble).1)
  {
    var response := Dispatched(sessions, request, ok, trouble).1;
    ResponseEncodable(response);
    ResponseRoundTrip(response);
  }

  /** A listing names every session once, in ascending order, with one client or none. */
  lemma ListingIsComplete(sessions: map<SessionName, Hosted>, ok: Oracle, trouble: Utf8.Text)
    ensures var infos := Listing(sessions, Sorted(sessions.Keys));
            && Dispatched(sessions, List, ok, trouble) == (sessions, Sessions(infos))
            && (forall i, j | 0 <= i < j < |infos| :: Before(infos[i].name, infos[j].name))
            && (forall n | n in sessions :: InfoOf(sessions[n]) in infos)
            && (forall info | info in infos :: exists n | n in sessions :: info == InfoOf(sessions[n]))
    requires forall n | n in sessions :: sessions[n].Name() == n
  {
    var names := Sorted(sessions.Keys);
    var infos := Listing(sessions, names);
    assert forall i | 0 <= i < |names| :: names[i] in sessions && infos[i].name == names[i];
    forall n | n in sessions
      ensures InfoOf(sessions[n]) in infos
    {
      assert n in names;
      var i :| 0 <= i < |names| && names[i] == n;
      assert infos[i] == InfoOf(sessions[n]);
    }
  }
}
