/**
  * The attachment protocol: connection threads that share the locked map of sessions.
  *
  * Each step is one region under the lock, one write to a client or one failed read, so that every
  * interleaving of any number of connections is a list of steps. What the environment decides (which
  * request arrives, which calls and writes succeed, what the terminals show) is part of the step.
  */
module Attachment {
  import opened Basics
  import opened Names
  import opened PaneTree
  import opened Hosting
  import opened Wire
  import opened Service
  import opened Runs
  import Utf8

  /** Where a connection is in `serve_connection`. */
  datatype Phase =
    | Reading // waiting for its first request
    | Reserved(name: SessionName) // holds the reservation, has not yet written `Attached`
    | Holding(name: SessionName) // in the attached loop
    | Releasing(name: SessionName) // has left the loop, has not yet cleared the reservation
    | Abandoned(name: SessionName) // ended because `Attached` could not be written
    | Closed
  {
    /** The connection set the flag of session `n` and has not cleared it. */
    predicate Owns(n: SessionName) {
      (Reserved? || Holding? || Releasing? || Abandoned?) && name == n
    }

    /** The connection still has steps to take for session `n`. */
    predicate Live(n: SessionName) {
      Owns(n) && !Abandoned?
    }
  }

  datatype System = System(sessions: map<SessionName, Hosted>, conns: map<nat, Phase>)

  datatype Step =
    | Accept(conn: nat)
    | Hangup(conn: nat)
    | FirstRequest(conn: nat, request: Request, ok: Oracle, trouble: Utf8.Text)
    | Confirm(conn: nat, written: bool)
    | Turn(conn: nat, request: Request, ok: Oracle, texts: PaneId -> Utf8.Text, written: bool)
    | Release(conn: nat)

  function SetFlag(sessions: map<SessionName, Hosted>, name: SessionName, flag: bool): map<SessionName, Hosted>
    requires name in sessions
  {
    sessions[name := sessions[name].(attached := flag)]
  }

  /** The reservation: refused for an unknown or attached session. */
  function Reserve(sessions: map<SessionName, Hosted>, name: SessionName):
    (map<SessionName, Hosted>, Option<Response>)
  {
    if name !in sessions then (sessions, Some(ServiceError(NotFound, NOT_FOUND)))
    else if sessions[name].attached then (sessions, Some(ServiceError(Conflict, ALREADY_ATTACHED)))
    else (SetFlag(sessions, name, true), None)
  }

  /** The flag cleared on the way out of the attached loop. */
  function Released(sessions: map<SessionName, Hosted>, name: SessionName): map<SessionName, Hosted> {
    if name in sessions then SetFlag(sessions, name, false) else sessions
  }

  /** A response reaches the client when it has a frame and the write succeeds. */
  predicate Reaches(response: Response, written: bool) {
    written && EncodedResponse(response).Success?
  }

  /** The holder of a session stays in the loop if there is an answer and it reaches the client. */
  predicate Stays(reply: Reply, written: bool) {
    reply.Answer? && Reaches(reply.response, written)
  }

  function PhaseIn(conns: map<nat, Phase>, c: nat): Phase {
    if c in conns then conns[c] else Closed
  }

  function PhaseOf(s: System, c: nat): Phase {
    PhaseIn(s.conns, c)
  }

  /** One step; a step that its connection is not ready for changes nothing. */
  function Next(s: System, step: Step): System
    requires MapValid(s.sessions)
  {
    var c := step.conn;
    match step
    case Accept(_) => if c in s.conns then s else s.(conns := s.conns[c := Reading])
    case Hangup(_) =>
      (match PhaseOf(s, c)
       case Reading => s.(conns := s.conns[c := Closed])
       case Holding(name) => s.(conns := s.conns[c := Releasing(name)])
       case _ => s)
    case FirstRequest(_, request, ok, trouble) =>
      if PhaseOf(s, c) != Reading then s
      else if request.Attach? then
        var (sessions, refusal) := Reserve(s.sessions, request.name);
        System(sessions, s.conns[c := if refusal.None? then Reserved(request.name) else Closed])
      else
        System(Dispatched(s.sessions, request, ok, trouble).0, s.conns[c := Closed])
    case Confirm(_, written) =>
      (match PhaseOf(s, c)
       case Reserved(name) =>
         s.(conns := s.conns[c := if Reaches(Attached(name), written) then Holding(name) else Abandoned(name)])
       case _ => s)
    case Turn(_, request, ok, texts, written) =>
      (match PhaseOf(s, c)
       case Holding(name) =>
         if name !in s.sessions then s.(conns := s.conns[c := Releasing(name)])
         else
           var (hosted, reply) := HandleAttached(s.sessions[name], request, name, texts, ok);
           System(s.sessions[name := hosted],
                  s.conns[c := if Stays(reply, written) then Holding(name) else Releasing(name)])
       case _ => s)
    case Release(_) =>
      (match PhaseOf(s, c)
       case Releasing(name) => System(Released(s.sessions, name), s.conns[c := Closed])
       case _ => s)
  }

  /** The sessions whose flag is set. */
  function Flagged(sessions: map<SessionName, Hosted>): set<SessionName> {
    set n | n in sessions && sessions[n].attached
  }

  /** A session is flagged exactly when some connection owns it, and no two connections own the same one. */
  ghost predicate Exclusive(flagged: set<SessionName>, conns: map<nat, Phase>) {
    && (forall c, n | c in conns && conns[c].Owns(n) :: n in flagged)
    && (forall n | n in flagged :: exists c :: c in conns && conns[c].Owns(n))
    && (forall c, d, n | c in conns && d in conns && conns[c].Owns(n) && conns[d].Owns(n) :: c == d)
  }

  ghost predicate Inv(s: System) {
    MapValid(s.sessions) && Exclusive(Flagged(s.sessions), s.conns)
  }

  const START := System(map[], map[])

  // ---- The invariant is kept ----

  /** A phase change that keeps what the connection owns. */
  lemma SameOwnership(flagged: set<SessionName>, conns: map<nat, Phase>, c: nat, phase: Phase)
    requires Exclusive(flagged, conns) && forall n :: phase.Owns(n) <==> PhaseIn(conns, c).Owns(n)
    ensures Exclusive(flagged, conns[c := phase])
  {
    var after := conns[c := phase];
    forall n | n in flagged
      ensures exists d :: d in after && after[d].Owns(n)
    {
      var d :| d in conns && conns[d].Owns(n);
      assert after[d].Owns(n);
    }
  }

  lemma OwnershipTaken(flagged: set<SessionName>, conns: map<nat, Phase>, c: nat, n: SessionName)
    requires Exclusive(flagged, conns) && PhaseIn(conns, c) == Reading && n !in flagged
    ensures Exclusive(flagged + {n}, conns[c := Reserved(n)])
  {
    var after := conns[c := Reserved(n)];
    forall m | m in flagged + {n}
      ensures exists d :: d in after && after[d].Owns(m)
    {
      if m == n {
        assert after[c].Owns(n);
      } else {
        var d :| d in conns && conns[d].Owns(m);
        assert after[d].Owns(m);
      }
    }
  }

  lemma OwnershipGiven(flagged: set<SessionName>, conns: map<nat, Phase>, c: nat, n: SessionName)
    requires Exclusive(flagged, conns) && PhaseIn(conns, c) == Releasing(n)
    ensures n in flagged && Exclusive(flagged - {n}, conns[c := Closed])
  {
    assert conns[c].Owns(n);
    var after := conns[c := Closed];
    forall m | m in flagged - {n}
      ensures exists d :: d in after && after[d].Owns(m)
    {
      var d :| d in conns && conns[d].Owns(m);
      assert after[d].Owns(m);
    }
  }

  /** Updating one session keeps the map valid; only that session's flag can change. */
  lemma MapUpdateValid(sessions: map<SessionName, Hosted>, n: SessionName, h: Hosted)
    requires MapValid(sessions) && n in sessions && h.Valid() && h.Name() == n
    ensures MapValid(sessions[n := h])
    ensures h.attached ==> Flagged(sessions[n := h]) == Flagged(sessions) + {n}
    ensures !h.attached ==> Flagged(sessions[n := h]) == Flagged(sessions) - {n}
  {
    FlaggedUpdate(sessions, n, h);
    assert sessions[n := h].Keys == sessions.Keys;
  }

  lemma FlaggedUpdate(sessions: map<SessionName, Hosted>, n: SessionName, h: Hosted)
    ensures h.attached ==> Flagged(sessions[n := h]) == Flagged(sessions) + {n}
    ensures !h.attached ==> Flagged(sessions[n := h]) == Flagged(sessions) - {n}
  {
  }

  lemma ReserveKeepsInv(s: System, c: nat, n: SessionName)
    requires Inv(s) && PhaseOf(s, c) == Reading && n in s.sessions && !s.sessions[n].attached
    ensures Inv(System(SetFlag(s.sessions, n, true), s.conns[c := Reserved(n)]))
  {
    MapUpdateValid(s.sessions, n, s.sessions[n].(attached := true));
    OwnershipTaken(Flagged(s.sessions), s.conns, c, n);
  }

  lemma ReleaseKeepsInv(s: System, c: nat, n: SessionName)
    requires Inv(s) && PhaseOf(s, c) == Releasing(n)
    ensures Inv(System(Released(s.sessions, n), s.conns[c := Closed]))
  {
    OwnershipGiven(Flagged(s.sessions), s.conns, c, n);
    MapUpdateValid(s.sessions, n, s.sessions[n].(attached := false));
  }

  lemma DispatchKeepsInv(s: System, c: nat, after: map<SessionName, Hosted>, added: set<SessionName>)
    requires Inv(s) && PhaseOf(s, c) == Reading && MapValid(after) && GrowsBy(s.sessions, after, added)
    ensures Inv(System(after, s.conns[c := Closed]))
  {
    assert Flagged(after) == Flagged(s.sessions);
    SameOwnership(Flagged(s.sessions), s.conns, c, Closed);
  }

  lemma TurnKeepsInv(s: System, c: nat, n: SessionName, h: Hosted, phase: Phase)
    requires Inv(s) && PhaseOf(s, c) == Holding(n) && (phase == Holding(n) || phase == Releasing(n))
    requires n in s.sessions && h.Valid() && Evolves(s.sessions[n], h)
    ensures Inv(System(s.sessions[n := h], s.conns[c := phase]))
  {
    assert s.conns[c].Owns(n);
    MapUpdateValid(s.sessions, n, h);
    assert Flagged(s.sessions[n := h]) == Flagged(s.sessions);
    SameOwnership(Flagged(s.sessions), s.conns, c, phase);
  }

  /** A connection in the attached loop never finds its session gone. */
  lemma HeldSessionExists(s: System, c: nat)
    requires Inv(s) && PhaseOf(s, c).Holding?
    ensures PhaseOf(s, c).name in s.sessions && s.sessions[PhaseOf(s, c).name].attached
  {
    assert s.conns[c].Owns(PhaseOf(s, c).name);
    assert PhaseOf(s, c).name in Flagged(s.sessions);
  }

  lemma HangupKeepsInv(s: System, c: nat)
    requires Inv(s)
    ensures Inv(Next(s, Hangup(c)))
  {
    match PhaseOf(s, c)
    case Reading => SameOwnership(Flagged(s.sessions), s.conns, c, Closed);
    case Holding(name) => SameOwnership(Flagged(s.sessions), s.conns, c, Releasing(name));
    case _ =>
  }

  lemma FirstRequestKeepsInv(s: System, c: nat, request: Request, ok: Oracle, trouble: Utf8.Text)
    requires Inv(s)
    ensures Inv(Next(s, FirstRequest(c, request, ok, trouble)))
  {
    if PhaseOf(s, c) == Reading {
      if !request.Attach? {
        DispatchKeeps(s.sessions, request, ok, trouble);
        DispatchKeepsInv(s, c, Dispatched(s.sessions, request, ok, trouble).0,
                         if request.Create? then {request.name} else {});
      } else if request.name in s.sessions && !s.sessions[request.name].attached {
        ReserveKeepsInv(s, c, request.name);
      } else {
        SameOwnership(Flagged(s.sessions), s.conns, c, Closed);
      }
    }
  }

  lemma ConfirmKeepsInv(s: System, c: nat, written: bool)
    requires Inv(s)
    ensures Inv(Next(s, Confirm(c, written)))
  {
    if PhaseOf(s, c).Reserved? {
      SameOwnership(Flagged(s.sessions), s.conns, c, PhaseOf(Next(s, Confirm(c, written)), c));
    }
  }

  lemma HeldTurnKeepsInv(s: System, step: Step)
    requires Inv(s) && step.Turn?
    ensures Inv(Next(s, step))
  {
    var c := step.conn;
    if PhaseOf(s, c).Holding? {
      var n := PhaseOf(s, c).name;
      HeldSessionExists(s, c);
      HandleKeeps(s.sessions[n], step.request, n, step.texts, step.ok);
      var hosted := HandleAttached(s.sessions[n], step.request, n, step.texts, step.ok).0;
      TurnKeepsInv(s, c, n, hosted, PhaseOf(Next(s, step), c));
    }
  }

  lemma StepKeepsInv(s: System, step: Step)
    requires Inv(s)
    ensures Inv(Next(s, step))
  {
    match step
    case Accept(c) =>
      if c !in s.conns {
        SameOwnership(Flagged(s.sessions), s.conns, c, Reading);
      }
    case Hangup(c) => HangupKeepsInv(s, c);
    case FirstRequest(c, request, ok, trouble) => FirstRequestKeepsInv(s, c, request, ok, trouble);
    case Confirm(c, written) => ConfirmKeepsInv(s, c, written);
    case Turn(_, _, _, _, _) => HeldTurnKeepsInv(s, step);
    case Release(c) =>
      if PhaseOf(s, c).Releasing? {
        ReleaseKeepsInv(s, c, PhaseOf(s, c).name);
      }
  }

  // ---- Runs ----

  type ValidSystem = s: System | Inv(s) witness START

  function Advance(s: ValidSystem, step: Step): ValidSystem {
    StepKeepsInv(s, step);
    Next(s, step)
  }

  /** The state after any steps of any connections, in any order. */
  function Run(s: ValidSystem, steps: seq<Step>): ValidSystem {
    Fold(Advance, s, steps)
  }

  /** The state reached from a daemon with no sessions and no connections. */
  function Reached(steps: seq<Step>): ValidSystem {
    Run(START, steps)
  }
}
