/**
  * The simulation carried over to the daemon that many clients share: the requests of an attached client,
  * interleaved with any steps of any other connections, leave its session as the local application is.
  */
module SharedDaemon {
  import opened Basics
  import opened Names
  import opened PaneTree
  import opened Hosting
  import opened Wire
  import opened CodecLaws
  import opened Service
  import opened Frontends
  import opened Simulation
  import opened ClientRuns
  import opened Attachment
  import opened AttachmentLaws
  import opened AttachmentRuns
  import opened Isolation
  import opened Runs
  import Utf8

  /** The turns in which the daemon serves these requests of a connection, each answer being written. */
  function Served(c: nat, sent: seq<Request>, ok: Oracle, screens: Screens): seq<Step> {
    seq(|sent|, k requires 0 <= k < |sent| => Turn(c, sent[k], ok, screens(k), true))
  }

  /** The client's session is the daemon's, and while the client runs it is in the attached loop. */
  ghost predicate InTouch(a: ValidSystem, r: Remote, c: nat, n: SessionName) {
    && r.hosted.Valid() && r.hosted.Name() == n && InLoop(PhaseOf(a, c), n)
    && n in a.sessions && a.sessions[n] == r.hosted
    && (r.status == Running ==> PhaseOf(a, c) == Holding(n))
  }

  /** Serving the requests of `r` in the daemon `a` leads to a daemon in touch with it. */
  ghost predicate Logged(a: ValidSystem, r: Remote, c: nat, n: SessionName, ok: Oracle, screens: Screens) {
    InTouch(Run(a, Served(c, r.sent, ok, screens)), r, c, n)
  }

  // ---- One exchange is one turn ----

  lemma ExchangeShape(r: Remote, request: Request, h: Hosted, reply: Reply, ok: Oracle, screens: Screens)
    requires r.hosted.Valid() && r.status == Running && EncodedRequest(request).Success?
    requires (h, reply) == HandleAttached(r.hosted, request, r.hosted.Name(), screens(|r.sent|), ok)
    ensures var t := RemoteExchange(r, request, ok, screens);
            && t.hosted == h && h.Valid() && h.Name() == r.hosted.Name() && t.sent == r.sent + [request]
            && (t.status == Running <==> !reply.Drop? && EncodedResponse(reply.response).Success?)
  {
    ExchangeIsHandle(r.hosted, request, screens(|r.sent|), ok);
  }

  lemma FarewellToDetachOnly(h: Hosted, request: Request, name: SessionName, texts: PaneId -> Utf8.Text, ok: Oracle)
    requires h.Valid() && !request.Detach?
    ensures !HandleAttached(h, request, name, texts, ok).1.Farewell?
  {
  }

  lemma TouchKept(b: ValidSystem, t: Remote, c: nat, n: SessionName, h: Hosted, reply: Reply)
    requires t.hosted == h && h.Valid() && h.Name() == n && n in b.sessions && b.sessions[n] == h
    requires t.status == Running <==> !reply.Drop? && EncodedResponse(reply.response).Success?
    requires PhaseOf(b, c) == if Stays(reply, true) then Holding(n) else Releasing(n)
    ensures InTouch(b, t.(status := Failed), c, n) && (!reply.Farewell? ==> InTouch(b, t, c, n))
  {
  }

  lemma TurnMeetsExchange(
    a: ValidSystem, r: Remote, request: Request, c: nat, n: SessionName, ok: Oracle, screens: Screens)
    requires InTouch(a, r, c, n) && r.status == Running && EncodedRequest(request).Success?
    ensures var t := RemoteExchange(r, request, ok, screens);
            var b := Advance(a, Turn(c, request, ok, screens(|r.sent|), true));
            InTouch(b, t.(status := Failed), c, n) && (!request.Detach? ==> InTouch(b, t, c, n))
  {
    var texts := screens(|r.sent|);
    var turn := Turn(c, request, ok, texts, true);
    var (h, reply) := HandleAttached(r.hosted, request, n, texts, ok);
    ExchangeShape(r, request, h, reply, ok, screens);
    TurnShape(a, turn, n);
    TouchKept(Advance(a, turn), RemoteExchange(r, request, ok, screens), c, n, h, reply);
    if !request.Detach? {
      FarewellToDetachOnly(r.hosted, request, n, texts, ok);
    }
  }

  lemma ServedSnoc(a: ValidSystem, sent: seq<Request>, request: Request, c: nat, ok: Oracle, screens: Screens)
    ensures Run(a, Served(c, sent + [request], ok, screens)) ==
            Advance(Run(a, Served(c, sent, ok, screens)), Turn(c, request, ok, screens(|sent|), true))
  {
    var steps := Served(c, sent + [request], ok, screens);
    assert steps[..|sent|] == Served(c, sent, ok, screens);
    FoldSnoc(Advance, a, steps);
  }

  lemma ExchangeLogged(
    a: ValidSystem, r: Remote, t: Remote, request: Request, c: nat, n: SessionName, ok: Oracle, screens: Screens)
    requires Logged(a, r, c, n, ok, screens) && r.status == Running && EncodedRequest(request).Success?
    requires t == RemoteExchange(r, request, ok, screens)
    ensures Logged(a, t.(status := Failed), c, n, ok, screens)
    ensures !request.Detach? ==> Logged(a, t, c, n, ok, screens)
  {
    ServedSnoc(a, r.sent, request, c, ok, screens);
    TurnMeetsExchange(Run(a, Served(c, r.sent, ok, screens)), r, request, c, n, ok, screens);
    assert t.sent == r.sent + [request];
  }

  // ---- Any events ----

  lemma LoggedIsSteady(a: ValidSystem, c: nat, n: SessionName, ok: Oracle, screens: Screens)
    ensures Steady((r: Remote) => Logged(a, r, c, n, ok, screens), ok, screens)
  {
    var inv := (r: Remote) => Logged(a, r, c, n, ok, screens);
    forall r: Remote, q | r.hosted.Valid() && inv(r) && r.status == Running && EncodedRequest(q).Success?
      ensures var t := RemoteExchange(r, q, ok, screens); inv(t.(status := Failed)) && (!q.Detach? ==> inv(t))
    {
      ExchangeLogged(a, r, RemoteExchange(r, q, ok, screens), q, c, n, ok, screens);
    }
  }

  lemma EventsLogged(
    a: ValidSystem, r: Remote, events: seq<Event>, c: nat, n: SessionName, ok: Oracle, screens: Screens)
    requires Logged(a, r, c, n, ok, screens) && r.hosted.Valid()
    ensures Logged(a, RemoteEvents(r, events, ok, screens), c, n, ok, screens)
  {
    var inv := (t: Remote) => Logged(a, t, c, n, ok, screens);
    LoggedIsSteady(a, c, n, ok, screens);
    EventsSteady(inv, r, events, ok, screens);
    assert inv(RemoteEvents(r, events, ok, screens));
  }

  lemma StartLogged(
    a: ValidSystem, hosted: Hosted, cols: u16, rows: u16, c: nat, n: SessionName, ok: Oracle, screens: Screens)
    requires PhaseOf(a, c) == Holding(n) && n in a.sessions && a.sessions[n] == hosted
    ensures Logged(a, RemoteStart(hosted, cols, rows, ok, screens), c, n, ok, screens)
  {
    var r := Remote(hosted, Attached(n), false, false, Running, []);
    assert Run(a, Served(c, [], ok, screens)) == a;
    RequestEncodable(Resize(cols, rows));
    ExchangeLogged(a, r, RemoteStart(hosted, cols, rows, ok, screens), Resize(cols, rows), c, n, ok, screens);
  }

  // ---- The shared daemon ----

  /**
    * A client that holds session `n` of a shared daemon is given any terminal events. Whatever the other
    * connections do between its requests, the daemon's session ends as the one the client has to itself.
    */
  lemma SharedSessionIsOwn(
    s: ValidSystem, steps: seq<Step>, r: Remote, c: nat, n: SessionName, ok: Oracle, screens: Screens)
    requires PhaseOf(s, c) == Holding(n) && InLoop(PhaseOf(Run(s, steps), c), n)
    requires Logged(Alone(s, c, n), r, c, n, ok, screens) && Own(steps, c) == Served(c, r.sent, ok, screens)
    ensures n in Run(s, steps).sessions && Run(s, steps).sessions[n] == r.hosted
    ensures r.status == Running ==> PhaseOf(Run(s, steps), c) == Holding(n)
  {
    HolderIsIsolated(s, steps, c, n);
    AloneInTouch(Run(s, steps), Run(Alone(s, c, n), Own(steps, c)), r, c, n);
  }

  lemma AloneInTouch(t: ValidSystem, a: ValidSystem, r: Remote, c: nat, n: SessionName)
    requires InLoop(PhaseOf(t, c), n) && a == Alone(t, c, n) && InTouch(a, r, c, n)
    ensures n in t.sessions && t.sessions[n] == r.hosted && (r.status == Running ==> PhaseOf(t, c) == Holding(n))
  {
    OnlyOwner(t, c, n);
    AloneIs(t, c, n, t.sessions[n], PhaseOf(t, c));
  }

  /**
    * The local application and a client of a shared daemon, in agreement at the start and given the same events:
    * they agree at the end, and the daemon's session is the one they agree on, or the client has been cut off
    * from a session of 33 panes.
    */
  lemma SharedFrontEndsAgree(
    s: ValidSystem, steps: seq<Step>, c: nat, n: SessionName, cols: u16, rows: u16, l: Local, events: seq<Event>,
    ok: Oracle, screens: Screens)
    requires PhaseOf(s, c) == Holding(n) && n in s.sessions && InLoop(PhaseOf(Run(s, steps), c), n)
    requires Agree(l, RemoteStart(s.sessions[n], cols, rows, ok, screens))
    requires var r := RemoteEvents(RemoteStart(s.sessions[n], cols, rows, ok, screens), events, ok, screens);
             Own(steps, c) == Served(c, r.sent, ok, screens)
    ensures var r := RemoteEvents(RemoteStart(s.sessions[n], cols, rows, ok, screens), events, ok, screens);
            && n in Run(s, steps).sessions && Run(s, steps).sessions[n] == r.hosted
            && if AlwaysFits(l, events, ok) then Agree(LocalEvents(l, events, ok), r) else CutOff(r)
  {
    var start := RemoteStart(s.sessions[n], cols, rows, ok, screens);
    StartLogged(Alone(s, c, n), s.sessions[n], cols, rows, c, n, ok, screens);
    EventsLogged(Alone(s, c, n), start, events, c, n, ok, screens);
    SharedSessionIsOwn(s, steps, RemoteEvents(start, events, ok, screens), c, n, ok, screens);
    FrontEndsAgree(l, start, events, ok, screens);
  }

  /** Such runs exist for every client and all events: its own turns are one. */
  lemma SharedRunExists(
    s: ValidSystem, c: nat, n: SessionName, cols: u16, rows: u16, events: seq<Event>, ok: Oracle, screens: Screens)
    requires PhaseOf(s, c) == Holding(n) && n in s.sessions
    ensures var r := RemoteEvents(RemoteStart(s.sessions[n], cols, rows, ok, screens), events, ok, screens);
            var steps := Served(c, r.sent, ok, screens);
            Own(steps, c) == steps && InLoop(PhaseOf(Run(s, steps), c), n)
  {
    var start := RemoteStart(s.sessions[n], cols, rows, ok, screens);
    StartLogged(s, s.sessions[n], cols, rows, c, n, ok, screens);
    EventsLogged(s, start, events, c, n, ok, screens);
    ServedIsSuch(s, RemoteEvents(start, events, ok, screens), c, n, ok, screens);
  }

  lemma ServedIsSuch(a: ValidSystem, r: Remote, c: nat, n: SessionName, ok: Oracle, screens: Screens)
    requires Logged(a, r, c, n, ok, screens)
    ensures var steps := Served(c, r.sent, ok, screens);
            Own(steps, c) == steps && InLoop(PhaseOf(Run(a, steps), c), n)
  {
    OwnIsAll(Served(c, r.sent, ok, screens), c);
  }
}
