/** The attached client over whole runs: what its exchanges keep, it keeps; what it draws is what the session is. */
module ClientRuns {
  import opened Basics
  import opened Hosting
  import opened Wire
  import opened CodecLaws
  import opened Service
  import opened HostedLaws
  import opened Router
  import opened Frontends

  // ---- What every exchange keeps, the client keeps ----

  /** `inv` is about the session, what was sent and received, and whether the client runs; exchanges keep it. */
  ghost predicate Steady(inv: Remote -> bool, ok: Oracle, screens: Screens) {
    && (forall r: Remote, t: Remote {:trigger inv(r), inv(t)} ::
          inv(r) && t.hosted == r.hosted && t.sent == r.sent && t.response == r.response
          && (t.status == r.status || t.status != Running) ==>
          inv(t))
    && (forall r: Remote, q {:trigger RemoteExchange(r, q, ok, screens)} ::
          r.hosted.Valid() && inv(r) && r.status == Running && EncodedRequest(q).Success?
          && (q.Detach? || ScreenDue(q)) ==>
          var t := RemoteExchange(r, q, ok, screens); inv(t.(status := Failed)) && (!q.Detach? ==> inv(t)))
  }

  lemma LeaveSteady(inv: Remote -> bool, r: Remote, ok: Oracle, screens: Screens)
    requires Steady(inv, ok, screens) && r.hosted.Valid() && inv(r) && r.status == Running
    ensures inv(RemoteLeave(r, ok, screens))
  {
    var t := RemoteExchange(r, Request.Detach(r.hosted.Name()), ok, screens);
    assert inv(t.(status := Failed));
  }

  lemma CommandSteady(inv: Remote -> bool, r: Remote, command: MuxCommand, ok: Oracle, screens: Screens)
    requires Steady(inv, ok, screens) && r.hosted.Valid() && inv(r) && r.status == Running
    ensures inv(RemoteCommand(r, command, ok, screens))
  {
    if command.Detach? || command.Quit? {
      LeaveSteady(inv, r, ok, screens);
    } else if !command.EnterCopyMode? {
      assert EncodedRequest(Request.Command(CommandCode(command))).Success?;
    }
  }

  lemma ByteSteady(inv: Remote -> bool, r: Remote, b: byte, ok: Oracle, screens: Screens)
    requires Steady(inv, ok, screens) && r.hosted.Valid() && inv(r) && r.status == Running
    ensures inv(RemoteByte(r, b, ok, screens))
  {
    var (pending, action) := Routed(r.pending, b);
    var t := r.(pending := pending);
    assert inv(t);
    match action
    case Pending =>
    case Forward(bytes) => RequestEncodable(Input(bytes));
    case Command(command) => CommandSteady(inv, t, command, ok, screens);
  }

  lemma {:induction false} BytesSteady(inv: Remote -> bool, r: Remote, bytes: Bytes, ok: Oracle, screens: Screens)
    requires Steady(inv, ok, screens) && r.hosted.Valid() && inv(r)
    ensures inv(RemoteBytes(r, bytes, ok, screens))
    decreases |bytes|
  {
    if bytes != [] && r.status == Running {
      ByteSteady(inv, r, bytes[0], ok, screens);
      BytesSteady(inv, RemoteByte(r, bytes[0], ok, screens), bytes[1..], ok, screens);
    }
  }

  lemma EventSteady(inv: Remote -> bool, r: Remote, event: Event, ok: Oracle, screens: Screens)
    requires Steady(inv, ok, screens) && r.hosted.Valid() && inv(r)
    ensures inv(RemoteEvent(r, event, ok, screens))
  {
    if r.status == Running && r.response.Screen? {
      match event
      case KeyPress(bytes, _) => if !r.copying { BytesSteady(inv, r, bytes, ok, screens); }
      case WindowResized(cols, rows) => RequestEncodable(Resize(cols, rows));
      case Quiet => RequestEncodable(Request.Snapshot);
    }
  }

  lemma {:induction false} EventsSteady(
    inv: Remote -> bool, r: Remote, events: seq<Event>, ok: Oracle, screens: Screens)
    requires Steady(inv, ok, screens) && r.hosted.Valid() && inv(r)
    ensures inv(RemoteEvents(r, events, ok, screens))
    decreases |events|
  {
    if events != [] {
      EventSteady(inv, r, events[0], ok, screens);
      EventsSteady(inv, RemoteEvent(r, events[0], ok, screens), events[1..], ok, screens);
    }
  }

  // ---- What a client sends and draws ----

  /** An exchange either brings the screen of the session as it now is, or ends the client. */
  lemma ExchangeOutcome(r: Remote, request: Request, ok: Oracle, screens: Screens)
    requires r.hosted.Valid() && r.status == Running && ScreenDue(request) && EncodedRequest(request).Success?
    ensures var t := RemoteExchange(r, request, ok, screens);
            && t.hosted.Valid() && t.sent == r.sent + [request]
            && (if Succeeds(r.hosted, request, ok) && PanesAfter(r.hosted, request) <= 32
                then t.status == Running && Shows(t.response, t.hosted, screens(|r.sent|))
                else t.status == Failed)
  {
    var name, texts := r.hosted.Name(), screens(|r.sent|);
    ExchangeIsHandle(r.hosted, request, texts, ok);
    ScreenAnswers(r.hosted, request, name, texts, ok);
    if Succeeds(r.hosted, request, ok) {
      ScreenFitsIff(r.hosted, request, name, texts, ok);
    }
  }

  /** While it runs, the client has the screen of its session, with the texts of the latest exchange. */
  ghost predicate UpToDate(r: Remote, screens: Screens) {
    r.hosted.Valid() && (r.status == Running ==> r.sent != [] && Shows(r.response, r.hosted, screens(|r.sent| - 1)))
  }

  lemma LatestIsUpToDate(t: Remote, k: nat, screens: Screens)
    requires t.hosted.Valid() && |t.sent| == k + 1
    requires t.status == Running ==> Shows(t.response, t.hosted, screens(k))
    ensures UpToDate(t, screens)
  {
  }

  lemma ScreenExchangeUpToDate(r: Remote, q: Request, t: Remote, ok: Oracle, screens: Screens)
    requires r.hosted.Valid() && r.status == Running && EncodedRequest(q).Success? && ScreenDue(q)
    requires t == RemoteExchange(r, q, ok, screens)
    ensures UpToDate(t, screens)
  {
    ExchangeOutcome(r, q, ok, screens);
    LatestIsUpToDate(t, |r.sent|, screens);
  }

  lemma StoppedIsUpToDate(t: Remote, screens: Screens)
    requires t.hosted.Valid() && t.status != Running
    ensures UpToDate(t, screens)
  {
  }

  lemma ExchangeUpToDate(r: Remote, q: Request, t: Remote, ok: Oracle, screens: Screens)
    requires UpToDate(r, screens) && r.status == Running && EncodedRequest(q).Success?
    requires (q.Detach? || ScreenDue(q)) && t == RemoteExchange(r, q, ok, screens)
    ensures UpToDate(t.(status := Failed), screens) && (!q.Detach? ==> UpToDate(t, screens))
  {
    StoppedIsUpToDate(t.(status := Failed), screens);
    if ScreenDue(q) {
      ScreenExchangeUpToDate(r, q, t, ok, screens);
    }
  }

  lemma UpToDateIsSteady(ok: Oracle, screens: Screens)
    ensures Steady((r: Remote) => UpToDate(r, screens), ok, screens)
  {
    var inv := (r: Remote) => UpToDate(r, screens);
    forall r: Remote, q | r.hosted.Valid() && inv(r) && r.status == Running && EncodedRequest(q).Success?
                          && (q.Detach? || ScreenDue(q))
      ensures var t := RemoteExchange(r, q, ok, screens); inv(t.(status := Failed)) && (!q.Detach? ==> inv(t))
    {
      ExchangeUpToDate(r, q, RemoteExchange(r, q, ok, screens), ok, screens);
    }
  }

  /** Over any events: as long as the client runs, what it draws is what the daemon's session is. */
  lemma ClientDrawsSession(
    hosted: Hosted, cols: u16, rows: u16, events: seq<Event>, ok: Oracle, screens: Screens)
    requires hosted.Valid()
    ensures UpToDate(RemoteEvents(RemoteStart(hosted, cols, rows, ok, screens), events, ok, screens), screens)
  {
    var first := Remote(hosted, Attached(hosted.Name()), false, false, Running, []);
    var start := RemoteStart(hosted, cols, rows, ok, screens);
    ScreenExchangeUpToDate(first, Resize(cols, rows), start, ok, screens);
    EventsUpToDate(start, events, ok, screens);
  }

  lemma EventsUpToDate(r: Remote, events: seq<Event>, ok: Oracle, screens: Screens)
    requires UpToDate(r, screens) && r.hosted.Valid()
    ensures UpToDate(RemoteEvents(r, events, ok, screens), screens)
  {
    UpToDateIsSteady(ok, screens);
    var inv := (t: Remote) => UpToDate(t, screens);
    EventsSteady(inv, r, events, ok, screens);
    assert inv(RemoteEvents(r, events, ok, screens));
  }

  /** A client with nothing to do asks for a new screen; a new window is reported; copy mode sends nothing. */
  lemma EventSends(r: Remote, cols: u16, rows: u16, bytes: Bytes, leaves: bool, ok: Oracle, screens: Screens)
    requires r.hosted.Valid() && r.status == Running && r.response.Screen?
    ensures RemoteEvent(r, Quiet, ok, screens).sent == r.sent + [Request.Snapshot]
    ensures RemoteEvent(r, WindowResized(cols, rows), ok, screens).sent == r.sent + [Resize(cols, rows)]
    ensures r.copying ==> RemoteEvent(r, KeyPress(bytes, leaves), ok, screens) == r.(copying := !leaves)
  {
  }
}
