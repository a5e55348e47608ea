/** A client in the attached loop cannot tell a shared daemon from one that has nothing but its session. */
module Isolation {
  import opened Names
  import opened Service
  import opened Attachment
  import opened AttachmentLaws
  import opened AttachmentRuns
  import opened Runs

  /** The steps of one connection. */
  function Own(steps: seq<Step>, c: nat): seq<Step> {
    if steps == [] then [] else (if steps[0].conn == c then [steps[0]] else []) + Own(steps[1..], c)
  }

  lemma {:induction false} OwnIsAll(steps: seq<Step>, c: nat)
    requires forall i | 0 <= i < |steps| :: steps[i].conn == c
    ensures Own(steps, c) == steps
  {
    if steps != [] {
      OwnIsAll(steps[1..], c);
      assert [steps[0]] + steps[1..] == steps;
    }
  }

  /** The daemon with nothing but one connection and the session it holds. */
  function Alone(s: ValidSystem, c: nat, n: SessionName): ValidSystem
    requires InLoop(PhaseOf(s, c), n)
  {
    AloneValid(s, c, n);
    System(map[n := s.sessions[n]], map[c := PhaseOf(s, c)])
  }

  lemma AloneValid(s: ValidSystem, c: nat, n: SessionName)
    requires InLoop(PhaseOf(s, c), n)
    ensures n in s.sessions && Inv(System(map[n := s.sessions[n]], map[c := PhaseOf(s, c)]))
  {
    OnlyOwner(s, c, n);
    var sessions, conns := map[n := s.sessions[n]], map[c := PhaseOf(s, c)];
    assert Flagged(sessions) == {n};
    assert conns[c].Owns(n);
  }

  /** A step of another connection does not show. */
  lemma OthersAreHidden(s: ValidSystem, step: Step, c: nat, n: SessionName)
    requires InLoop(PhaseOf(s, c), n) && step.conn != c
    ensures InLoop(PhaseOf(Advance(s, step), c), n) && Alone(Advance(s, step), c, n) == Alone(s, c, n)
  {
    OthersUndisturbed(s, step, c);
    OnlyOwner(s, c, n);
    OnlyOwner(Advance(s, step), c, n);
    NotTheHolder(s, step, c, n);
    OnlyTheHolderChangesPanes(s, step, n);
  }

  lemma NotTheHolder(s: ValidSystem, step: Step, c: nat, n: SessionName)
    requires InLoop(PhaseOf(s, c), n) && step.conn != c
    ensures PhaseOf(s, step.conn) != Holding(n)
  {
    if PhaseOf(s, step.conn) == Holding(n) {
      assert s.conns[c].Owns(n) && s.conns[step.conn].Owns(n);
    }
  }

  lemma OwnTurnIsAlone(s: ValidSystem, step: Step, n: SessionName)
    requires PhaseOf(s, step.conn) == Holding(n) && step.Turn?
    ensures InLoop(PhaseOf(Advance(s, step), step.conn), n)
    ensures Alone(Advance(s, step), step.conn, n) == Advance(Alone(s, step.conn, n), step)
  {
    var c := step.conn;
    HeldSessionExists(s, c);
    TurnShape(s, step, n);
    var alone := Alone(s, c, n);
    TurnShape(alone, step, n);
    var (hosted, reply) := HandleAttached(s.sessions[n], step.request, n, step.texts, step.ok);
    var phase := if Stays(reply, step.written) then Holding(n) else Releasing(n);
    AloneTurn(alone, step, n, s.sessions[n], hosted, phase);
    AloneIs(Advance(s, step), c, n, hosted, phase);
  }

  lemma AloneIs(s: ValidSystem, c: nat, n: SessionName, hosted: Hosted, phase: Phase)
    requires InLoop(phase, n) && PhaseOf(s, c) == phase && n in s.sessions && s.sessions[n] == hosted
    ensures Alone(s, c, n) == System(map[n := hosted], map[c := phase])
  {
  }

  lemma AloneTurn(a: System, step: Step, n: SessionName, h: Hosted, hosted: Hosted, phase: Phase)
    requires MapValid(a.sessions) && step.Turn? && a == System(map[n := h], map[step.conn := Holding(n)])
    requires Next(a, step).sessions == a.sessions[n := hosted] && PhaseOf(Next(a, step), step.conn) == phase
    ensures Next(a, step) == System(map[n := hosted], map[step.conn := phase])
  {
    assert Next(a, step).conns == a.conns[step.conn := phase];
  }

  lemma HangupShape(s: System, c: nat, n: SessionName)
    requires MapValid(s.sessions) && PhaseOf(s, c) == Holding(n)
    ensures Next(s, Hangup(c)) == System(s.sessions, s.conns[c := Releasing(n)])
  {
  }

  lemma OwnHangupIsAlone(s: ValidSystem, c: nat, n: SessionName)
    requires PhaseOf(s, c) == Holding(n)
    ensures PhaseOf(Advance(s, Hangup(c)), c) == Releasing(n)
    ensures Alone(Advance(s, Hangup(c)), c, n) == Advance(Alone(s, c, n), Hangup(c))
  {
    AloneValid(s, c, n);
    HangupShape(s, c, n);
    AloneIs(s, c, n, s.sessions[n], Holding(n));
    AloneIs(Advance(s, Hangup(c)), c, n, s.sessions[n], Releasing(n));
    AloneHangup(Alone(s, c, n), c, n, s.sessions[n]);
  }

  lemma AloneHangup(a: System, c: nat, n: SessionName, h: Hosted)
    requires MapValid(a.sessions) && a == System(map[n := h], map[c := Holding(n)])
    ensures Next(a, Hangup(c)) == System(map[n := h], map[c := Releasing(n)])
  {
    HangupShape(a, c, n);
    assert a.conns[c := Releasing(n)] == map[c := Releasing(n)];
  }

  /** A step of its own has the same effect as it would have alone. */
  lemma OwnStepIsAlone(s: ValidSystem, step: Step, n: SessionName)
    requires InLoop(PhaseOf(s, step.conn), n) && !(step.Release? && PhaseOf(s, step.conn) == Releasing(n))
    ensures InLoop(PhaseOf(Advance(s, step), step.conn), n)
    ensures Alone(Advance(s, step), step.conn, n) == Advance(Alone(s, step.conn, n), step)
  {
    var c := step.conn;
    if PhaseOf(s, c) == Releasing(n) {
      ReleasingWaits(s, step, n);
      ReleasingWaits(Alone(s, c, n), step, n);
    } else if step.Turn? {
      OwnTurnIsAlone(s, step, n);
    } else if step.Hangup? {
      OwnHangupIsAlone(s, c, n);
    } else {
      HolderWaits(s, step, n);
      HolderWaits(Alone(s, c, n), step, n);
    }
  }

  lemma OwnFirst(s: ValidSystem, step: Step, rest: seq<Step>)
    ensures Run(s, [step] + rest) == Run(Advance(s, step), rest)
  {
    assert ([step] + rest)[1..] == rest;
  }

  lemma ReleaseCloses(s: ValidSystem, c: nat, n: SessionName)
    requires PhaseOf(s, c) == Releasing(n)
    ensures c in Advance(s, Release(c)).conns && PhaseOf(Advance(s, Release(c)), c) == Closed
  {
    assert Next(s, Release(c)) == System(Released(s.sessions, n), s.conns[c := Closed]);
  }

  lemma ClosedIsFinal(s: ValidSystem, step: Step, c: nat)
    requires c in s.conns && PhaseOf(s, c) == Closed
    ensures c in Advance(s, step).conns && PhaseOf(Advance(s, step), c) == Closed
  {
    if step.conn != c {
      OthersUndisturbed(s, step, c);
    } else {
      assert Next(s, step) == s;
    }
  }

  /** A connection that has closed never takes part again. */
  lemma ClosedForever(s: ValidSystem, steps: seq<Step>, c: nat)
    requires c in s.conns && PhaseOf(s, c) == Closed
    ensures PhaseOf(Run(s, steps), c) == Closed
  {
    var closed := (a: ValidSystem) => c in a.conns && PhaseOf(a, c) == Closed;
    forall a: ValidSystem, step | step in steps && closed(a)
      ensures closed(Advance(a, step))
    {
      ClosedIsFinal(a, step, c);
    }
    FoldKeeps(Advance, closed, s, steps);
    assert closed(Run(s, steps));
  }

  lemma StillInLoop(s: ValidSystem, step: Step, rest: seq<Step>, c: nat, n: SessionName)
    requires InLoop(PhaseOf(s, c), n) && InLoop(PhaseOf(Run(Advance(s, step), rest), c), n)
    ensures !(step == Release(c) && PhaseOf(s, c) == Releasing(n))
  {
    if step == Release(c) && PhaseOf(s, c) == Releasing(n) {
      ReleaseCloses(s, c, n);
      ClosedForever(Advance(s, step), rest, c);
    }
  }

  /**
    * As long as a client is in the attached loop, what it sees after any run is what it would see if only its own
    * steps had been taken, in a daemon that has nothing but its session.
    */
  lemma {:induction false} HolderIsIsolated(s: ValidSystem, steps: seq<Step>, c: nat, n: SessionName)
    requires InLoop(PhaseOf(s, c), n) && InLoop(PhaseOf(Run(s, steps), c), n)
    ensures Alone(Run(s, steps), c, n) == Run(Alone(s, c, n), Own(steps, c))
    decreases |steps|
  {
    if steps != [] {
      var step, rest := steps[0], steps[1..];
      StillInLoop(s, step, rest, c, n);
      if step.conn == c {
        OwnStepIsAlone(s, step, n);
        OwnFirst(Alone(s, c, n), step, Own(rest, c));
      } else {
        OthersAreHidden(s, step, c, n);
        assert Own(steps, c) == Own(rest, c);
      }
      HolderIsIsolated(Advance(s, step), rest, c, n);
    }
  }
}
