/** What the attachment protocol promises in every reachable state. */
module AttachmentLaws {
  import opened Names
  import opened PaneTree
  import opened Hosting
  import opened Wire
  import opened Service
  import opened Attachment
  import opened Runs
  import Utf8

  /** The connections that own session `n`. */
  function Owners(s: System, n: SessionName): set<nat> {
    set c | c in s.conns && s.conns[c].Owns(n)
  }

  // ---- Exclusion ----

  /**
    * In every state reached from the start, by any steps of any connections, a session has as many owners
    * as its flag says: one if it is set and none if it is not.
    */
  lemma FlagCountsOwners(steps: seq<Step>, n: SessionName)
    requires n in Reached(steps).sessions
    ensures |Owners(Reached(steps), n)| == if Reached(steps).sessions[n].attached then 1 else 0
  {
    OwnersOne(Reached(steps), n);
  }

  lemma OwnersOne(s: System, n: SessionName)
    requires Inv(s) && n in s.sessions
    ensures |Owners(s, n)| == if s.sessions[n].attached then 1 else 0
  {
    if s.sessions[n].attached {
      assert n in Flagged(s.sessions);
      var c :| c in s.conns && s.conns[c].Owns(n);
      assert Owners(s, n) == {c};
    } else {
      assert n !in Flagged(s.sessions);
      assert Owners(s, n) == {};
    }
  }

  /** An attach request is granted exactly when the session exists and no connection owns it. */
  lemma AttachGrantedIff(s: System, c: nat, n: SessionName, ok: Oracle, trouble: Utf8.Text)
    requires Inv(s) && PhaseOf(s, c) == Reading
    ensures PhaseOf(Next(s, FirstRequest(c, Attach(n), ok, trouble)), c) == Reserved(n) <==>
            n in s.sessions && Owners(s, n) == {}
  {
    if n in s.sessions {
      OwnersOne(s, n);
    }
  }

  // ---- Isolation and history ----

  /** The same panes, PTYs and viewport; the flag may differ. */
  ghost predicate SameBut(a: Hosted, b: Hosted) {
    a.(attached := b.attached) == b
  }

  /** What a turn does: the holder's session is handled, and the holder stays if its answer reaches the client. */
  lemma TurnShape(s: System, step: Step, m: SessionName)
    requires MapValid(s.sessions) && step.Turn? && PhaseOf(s, step.conn) == Holding(m) && m in s.sessions
    ensures var (hosted, reply) := HandleAttached(s.sessions[m], step.request, m, step.texts, step.ok);
            && Next(s, step).sessions == s.sessions[m := hosted]
            && PhaseOf(Next(s, step), step.conn) ==
               if Stays(reply, step.written) then Holding(m) else Releasing(m)
  {
  }

  lemma TurnElsewhere(s: ValidSystem, step: Step, n: SessionName)
    requires n in s.sessions && step.Turn? && PhaseOf(s, step.conn) != Holding(n)
    ensures n in Next(s, step).sessions && Next(s, step).sessions[n] == s.sessions[n]
  {
    if PhaseOf(s, step.conn).Holding? {
      HeldSessionExists(s, step.conn);
      TurnShape(s, step, PhaseOf(s, step.conn).name);
    }
  }

  lemma FirstRequestElsewhere(s: System, step: Step, n: SessionName)
    requires MapValid(s.sessions) && n in s.sessions && step.FirstRequest?
    ensures n in Next(s, step).sessions && SameBut(s.sessions[n], Next(s, step).sessions[n])
  {
    var after := Next(s, step).sessions;
    if PhaseOf(s, step.conn) != Reading {
      assert after == s.sessions;
    } else if step.request.Attach? {
      assert after == Reserve(s.sessions, step.request.name).0;
    } else {
      DispatchKeeps(s.sessions, step.request, step.ok, step.trouble);
      assert after[n] == s.sessions[n];
    }
  }

  lemma ReleaseElsewhere(s: System, c: nat, n: SessionName)
    requires MapValid(s.sessions) && n in s.sessions
    ensures n in Next(s, Release(c)).sessions && SameBut(s.sessions[n], Next(s, Release(c)).sessions[n])
  {
    if PhaseOf(s, c).Releasing? {
      ReleasedElsewhere(s.sessions, PhaseOf(s, c).name, n);
    }
  }

  lemma ReleasedElsewhere(sessions: map<SessionName, Hosted>, m: SessionName, n: SessionName)
    requires n in sessions
    ensures n in Released(sessions, m) && SameBut(sessions[n], Released(sessions, m)[n])
  {
  }

  lemma OnlyPhasesChange(s: System, step: Step)
    requires MapValid(s.sessions) && (step.Accept? || step.Hangup? || step.Confirm?)
    ensures Next(s, step).sessions == s.sessions
  {
  }

  /** A step changes the panes of a session only if its connection holds that session. */
  lemma OnlyTheHolderChangesPanes(s: ValidSystem, step: Step, n: SessionName)
    requires n in s.sessions && !(step.Turn? && PhaseOf(s, step.conn) == Holding(n))
    ensures n in Next(s, step).sessions && SameBut(s.sessions[n], Next(s, step).sessions[n])
  {
    match step
    case Turn(_, _, _, _, _) => TurnElsewhere(s, step, n);
    case FirstRequest(_, _, _, _) => FirstRequestElsewhere(s, step, n);
    case Release(c) => ReleaseElsewhere(s, c, n);
    case _ => OnlyPhasesChange(s, step);
  }

  lemma StepEvolves(s: ValidSystem, step: Step, n: SessionName)
    requires n in s.sessions
    ensures n in Advance(s, step).sessions && LaterHost(s.sessions[n].host, Advance(s, step).sessions[n].host)
  {
    if step.Turn? && PhaseOf(s, step.conn) == Holding(n) {
      TurnShape(s, step, n);
      HandleKeeps(s.sessions[n], step.request, n, step.texts, step.ok);
    } else {
      OnlyTheHolderChangesPanes(s, step, n);
    }
  }

  /** From one state of the daemon to another, session `n` is kept. */
  ghost predicate Keeps(n: SessionName, a: System, b: System) {
    n in a.sessions ==> n in b.sessions && LaterHost(a.sessions[n].host, b.sessions[n].host)
  }

  lemma KeepsComposes(n: SessionName, a: ValidSystem, b: ValidSystem, c: ValidSystem)
    requires Keeps(n, a, b) && Keeps(n, b, c)
    ensures Keeps(n, a, c)
  {
    if n in a.sessions {
      LaterHostComposes(a.sessions[n].host, b.sessions[n].host, c.sessions[n].host);
    }
  }

  /** Over any run no session is lost, renamed or replaced, and no pane identifier is used again. */
  lemma SessionsPersist(s: ValidSystem, steps: seq<Step>, n: SessionName)
    requires n in s.sessions
    ensures n in Run(s, steps).sessions && LaterHost(s.sessions[n].host, Run(s, steps).sessions[n].host)
  {
    var rel := (a: ValidSystem, b: ValidSystem) => Keeps(n, a, b);
    forall a: ValidSystem
      ensures rel(a, a)
    {
    }
    forall a: ValidSystem, b: ValidSystem, c: ValidSystem | rel(a, b) && rel(b, c)
      ensures rel(a, c)
    {
      KeepsComposes(n, a, b, c);
    }
    forall a: ValidSystem, step | step in steps
      ensures rel(a, Advance(a, step))
    {
      if n in a.sessions {
        StepEvolves(a, step, n);
      }
    }
    FoldRelates(Advance, rel, s, steps);
    assert rel(s, Run(s, steps));
  }

  /** In every reachable state each session's registry holds a PTY for exactly the panes of its tree. */
  lemma RegistryAlwaysAgrees(steps: seq<Step>, n: SessionName, id: PaneId)
    requires n in Reached(steps).sessions
    ensures var h := Reached(steps).sessions[n];
            (id in h.host.ptys <==> id in h.Panes()) && h.Name() == n && h.host.session.focused in h.Panes()
  {
  }

  // ---- Release ----

  lemma OthersUndisturbed(s: ValidSystem, step: Step, c: nat)
    requires step.conn != c
    ensures PhaseOf(Advance(s, step), c) == PhaseOf(s, c)
  {
  }

  lemma OnlyOwner(s: ValidSystem, c: nat, n: SessionName)
    requires PhaseOf(s, c).Owns(n)
    ensures n in s.sessions && s.sessions[n].attached && Owners(s, n) == {c}
  {
    assert s.conns[c].Owns(n);
    assert n in Flagged(s.sessions);
  }

  /** Once in the attached loop, a connection keeps its session to itself until its own steps give it up. */
  lemma HolderKeepsSession(s: ValidSystem, steps: seq<Step>, c: nat, n: SessionName)
    requires PhaseOf(s, c) == Holding(n) && forall step | step in steps :: step.conn != c
    ensures PhaseOf(Run(s, steps), c) == Holding(n) && Owners(Run(s, steps), n) == {c}
  {
    var held := (a: ValidSystem) => PhaseOf(a, c) == Holding(n);
    forall a: ValidSystem, step | step in steps && held(a)
      ensures held(Advance(a, step))
    {
      OthersUndisturbed(a, step, c);
    }
    FoldKeeps(Advance, held, s, steps);
    OnlyOwner(Run(s, steps), c, n);
  }

  /** A snapshot request keeps its holder attached exactly when the reply can be written: at most 32 panes. */
  lemma SnapshotKeepsHolderIff(h: Hosted, name: SessionName, ok: Oracle, texts: PaneId -> Utf8.Text, written: bool)
    requires h.Valid()
    ensures Stays(HandleAttached(h, Snapshot, name, texts, ok).1, written) <==>
            written && |h.Panes()| <= MAX_SNAPSHOT_PANES
  {
    SnapshotEncodesIff(h, texts);
  }

  lemma FreeIsUnowned(s: ValidSystem, n: SessionName)
    requires n in s.sessions && !s.sessions[n].attached
    ensures Owners(s, n) == {}
  {
    OwnersOne(s, n);
  }

  /** A connection that has left the loop frees its session for anyone. */
  lemma ReleaseFrees(s: ValidSystem, c: nat, n: SessionName)
    requires PhaseOf(s, c) == Releasing(n)
    ensures var t := Advance(s, Release(c));
            n in t.sessions && !t.sessions[n].attached && Owners(t, n) == {}
  {
    OnlyOwner(s, c, n);
    ReleaseShape(s, c, n);
    FreeIsUnowned(Advance(s, Release(c)), n);
  }

  lemma ReleaseShape(s: System, c: nat, n: SessionName)
    requires MapValid(s.sessions) && PhaseOf(s, c) == Releasing(n) && n in s.sessions
    ensures var after := Next(s, Release(c)).sessions; n in after && !after[n].attached
  {
    assert Next(s, Release(c)) == System(Released(s.sessions, n), s.conns[c := Closed]);
  }

  lemma HolderTurns(s: ValidSystem, step: Step, n: SessionName)
    requires step.Turn? && PhaseOf(s, step.conn) == Holding(n)
    ensures PhaseOf(Advance(s, step), step.conn) == Holding(n) || PhaseOf(Advance(s, step), step.conn) == Releasing(n)
  {
    HeldSessionExists(s, step.conn);
    TurnShape(s, step, n);
  }

  lemma HolderWaits(s: ValidSystem, step: Step, n: SessionName)
    requires !step.Turn? && !step.Hangup? && PhaseOf(s, step.conn) == Holding(n)
    ensures Advance(s, step) == s
  {
  }

  lemma HolderHangsUp(s: ValidSystem, c: nat, n: SessionName)
    requires PhaseOf(s, c) == Holding(n)
    ensures PhaseOf(Advance(s, Hangup(c)), c) == Releasing(n)
  {
  }

  /** A failed read, a refused write, a failed call or a farewell: every way out of the loop leads to the release. */
  lemma HolderLeavesToRelease(s: ValidSystem, step: Step, c: nat, n: SessionName)
    requires PhaseOf(s, c) == Holding(n)
    ensures PhaseOf(Advance(s, step), c) == Holding(n) || PhaseOf(Advance(s, step), c) == Releasing(n)
  {
    if step.conn != c {
      OthersUndisturbed(s, step, c);
    } else if step.Turn? {
      HolderTurns(s, step, n);
    } else if step.Hangup? {
      HolderHangsUp(s, c, n);
    } else {
      HolderWaits(s, step, n);
    }
  }

  // ---- The one way a reservation is lost ----

  /**
    * A set flag with nobody left to clear it: exactly the sessions whose reservation was made by a
    * connection that could not write its confirmation.
    */
  lemma StuckIff(s: System, n: SessionName)
    requires Inv(s) && n in s.sessions
    ensures (s.sessions[n].attached && forall c | c in s.conns :: !s.conns[c].Live(n)) <==>
            exists c | c in s.conns :: s.conns[c] == Abandoned(n)
  {
    if s.sessions[n].attached {
      assert n in Flagged(s.sessions);
      var c :| c in s.conns && s.conns[c].Owns(n);
      assert s.conns[c].Live(n) || s.conns[c] == Abandoned(n);
    }
    if c :| c in s.conns && s.conns[c] == Abandoned(n) {
      assert s.conns[c].Owns(n) && n in Flagged(s.sessions);
      forall d | d in s.conns
        ensures !s.conns[d].Live(n)
      {
        assert s.conns[d].Owns(n) ==> d == c;
      }
    }
  }

  lemma AbandonedIsFinal(s: ValidSystem, step: Step, c: nat)
    requires PhaseOf(s, c).Abandoned?
    ensures PhaseOf(Advance(s, step), c) == PhaseOf(s, c)
  {
    if step.conn == c {
      assert Advance(s, step) == s;
    } else {
      OthersUndisturbed(s, step, c);
    }
  }

  /** Such a session is never attached again: whatever happens, its flag stays set and nobody else owns it. */
  lemma StuckForever(s: ValidSystem, steps: seq<Step>, c: nat, n: SessionName)
    requires PhaseOf(s, c) == Abandoned(n)
    ensures PhaseOf(Run(s, steps), c) == Abandoned(n)
    ensures n in Run(s, steps).sessions && Run(s, steps).sessions[n].attached
    ensures Owners(Run(s, steps), n) == {c}
  {
    var stuck := (a: ValidSystem) => PhaseOf(a, c) == Abandoned(n);
    forall a: ValidSystem, step | step in steps && stuck(a)
      ensures stuck(Advance(a, step))
    {
      AbandonedIsFinal(a, step, c);
    }
    FoldKeeps(Advance, stuck, s, steps);
    OnlyOwner(Run(s, steps), c, n);
  }

  /** A client that asks for an existing free session and disconnects before its confirmation is written. */
  lemma DisconnectCanLeakReservation(s: ValidSystem, c: nat, n: SessionName, ok: Oracle, trouble: Utf8.Text)
    requires c !in s.conns && n in s.sessions && !s.sessions[n].attached
    ensures var t := Run(s, [Accept(c), FirstRequest(c, Attach(n), ok, trouble), Confirm(c, false)]);
            && n in t.sessions && t.sessions[n].attached
            && (forall d | d in t.conns :: !t.conns[d].Live(n))
  {
    var accept, ask, lose := Accept(c), FirstRequest(c, Attach(n), ok, trouble), Confirm(c, false);
    var reading := Advance(s, accept);
    assert PhaseOf(reading, c) == Reading && reading.sessions == s.sessions;
    var reserved := Advance(reading, ask);
    FreeIsUnowned(reading, n);
    AttachGrantedIff(reading, c, n, ok, trouble);
    LostConfirmation(reserved, c, n);
    FoldThree(Advance, s, accept, ask, lose);
  }

  lemma LostConfirmation(s: ValidSystem, c: nat, n: SessionName)
    requires PhaseOf(s, c) == Reserved(n)
    ensures var t := Advance(s, Confirm(c, false));
            n in t.sessions && t.sessions[n].attached && forall d | d in t.conns :: !t.conns[d].Live(n)
  {
    var t := Advance(s, Confirm(c, false));
    assert PhaseOf(t, c) == Abandoned(n);
    OnlyOwner(t, c, n);
    StuckIff(t, n);
  }

  /** A session can be created under any new name as long as the daemon has room and its PTY can be spawned. */
  lemma CreateAddsFreeSession(s: ValidSystem, c: nat, n: SessionName, ok: Oracle, trouble: Utf8.Text)
    requires PhaseOf(s, c) == Reading && n !in s.sessions && |s.sessions| < MAX_LISTED_SESSIONS && ok(0)
    ensures var t := Advance(s, FirstRequest(c, Create(n), ok, trouble));
            n in t.sessions && !t.sessions[n].attached && Owners(t, n) == {}
  {
    OpenHostValid(n, TerminalSize(24, 80), ok);
    FreeIsUnowned(Advance(s, FirstRequest(c, Create(n), ok, trouble)), n);
  }
}
