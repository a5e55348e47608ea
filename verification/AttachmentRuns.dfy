/** What the attachment protocol promises over whole runs: release, the way a reservation is lost, isolation. */
module AttachmentRuns {
  import opened Basics
  import opened Names
  import opened PaneTree
  import opened Hosting
  import opened Wire
  import opened Service
  import opened Attachment
  import opened HostedLaws
  import opened AttachmentLaws
  import opened Runs
  import opened CodecLaws
  import Utf8

  /** The connection is in the attached loop of session `n`, or has left it and not yet cleared the flag. */
  predicate InLoop(phase: Phase, n: SessionName) {
    phase == Holding(n) || phase == Releasing(n)
  }

  /** Session `n` exists, its flag is clear and no connection owns it. */
  predicate Free(s: System, n: SessionName) {
    n in s.sessions && !s.sessions[n].attached && Owners(s, n) == {}
  }

  lemma LoopContinues(s: ValidSystem, step: Step, c: nat, n: SessionName)
    requires InLoop(PhaseOf(s, c), n) && !(step == Release(c) && PhaseOf(s, c) == Releasing(n))
    ensures InLoop(PhaseOf(Advance(s, step), c), n)
  {
    if step.conn != c {
      OthersUndisturbed(s, step, c);
    } else if PhaseOf(s, c) == Holding(n) {
      HolderLeavesToRelease(s, step, c, n);
    } else {
      ReleasingWaits(s, step, n);
    }
  }

  lemma ReleasingWaits(s: ValidSystem, step: Step, n: SessionName)
    requires PhaseOf(s, step.conn) == Releasing(n) && !step.Release?
    ensures Advance(s, step) == s
  {
  }

  lemma RunSnoc(s: ValidSystem, steps: seq<Step>, k: nat)
    requires k < |steps|
    ensures Run(s, steps[..k + 1]) == Advance(Run(s, steps[..k]), steps[k])
  {
    FoldSnoc(Advance, s, steps[..k + 1]);
    assert steps[..k + 1][..k] == steps[..k];
  }

  lemma ReleasedFrees(s: ValidSystem, steps: seq<Step>, c: nat, n: SessionName, k: nat)
    requires k < |steps| && steps[k] == Release(c) && PhaseOf(Run(s, steps[..k]), c) == Releasing(n)
    ensures Free(Run(s, steps[..k + 1]), n)
  {
    RunSnoc(s, steps, k);
    ReleaseFrees(Run(s, steps[..k]), c, n);
  }

  /**
    * Once in the attached loop, a connection owns its session, alone, until step `k` of the run clears the
    * flag and frees the session for anyone; `k` is the length of the run if that has not happened yet.
    */
  lemma LoopEndsInRelease(s: ValidSystem, steps: seq<Step>, c: nat, n: SessionName) returns (k: nat)
    requires InLoop(PhaseOf(s, c), n)
    ensures k <= |steps|
    ensures forall i | 0 <= i <= k ::
              InLoop(PhaseOf(Run(s, steps[..i]), c), n) && Owners(Run(s, steps[..i]), n) == {c}
    ensures k < |steps| ==>
              && steps[k] == Release(c) && PhaseOf(Run(s, steps[..k]), c) == Releasing(n)
              && Free(Run(s, steps[..k + 1]), n)
  {
    var holds := (a: ValidSystem) => InLoop(PhaseOf(a, c), n);
    var last := (a: ValidSystem, step: Step) => step == Release(c) && PhaseOf(a, c) == Releasing(n);
    forall a: ValidSystem, step | step in steps && holds(a) && !last(a, step)
      ensures holds(Advance(a, step))
    {
      LoopContinues(a, step, c, n);
    }
    k := FoldUntil(Advance, holds, last, s, steps);
    forall i | 0 <= i <= k
      ensures InLoop(PhaseOf(Run(s, steps[..i]), c), n) && Owners(Run(s, steps[..i]), n) == {c}
    {
      assert holds(Run(s, steps[..i]));
      OnlyOwner(Run(s, steps[..i]), c, n);
    }
    if k < |steps| {
      assert last(Run(s, steps[..k]), steps[k]);
      ReleasedFrees(s, steps, c, n, k);
    }
  }

  // ---- When a holder stays, and when a detach frees its session ----

  /**
    * The holder of session `n` asks for something. What it asks for is done and its answer written, without
    * leaving the attached loop: it is no detach, every call it needs succeeds, and at most 32 panes are to be shown.
    */
  ghost predicate ServesOn(h: Hosted, n: SessionName, request: Request, ok: Oracle, written: bool) {
    && written && request != Request.Detach(n) && Succeeds(h, request, ok)
    && (ScreenDue(request) ==> PanesAfter(h, request) <= 32)
  }

  lemma StaysIff(h: Hosted, n: SessionName, request: Request, ok: Oracle, texts: PaneId -> Utf8.Text, written: bool)
    requires h.Valid()
    ensures Stays(HandleAttached(h, request, n, texts, ok).1, written) <==> ServesOn(h, n, request, ok, written)
  {
    if ScreenDue(request) {
      ScreenAnswers(h, request, n, texts, ok);
      if Succeeds(h, request, ok) {
        ScreenFitsIff(h, request, n, texts, ok);
      }
    } else {
      OtherAnswers(h, request, n, texts, ok);
      if request != Request.Detach(n) {
        RefusalFits();
      }
    }
  }

  lemma RefusalFits()
    ensures EncodedResponse(Error(Conflict, Say("invalid attached request"))).Success?
  {
    ResponseEncodable(Error(Conflict, Say("invalid attached request")));
  }

  /** A holder stays in the attached loop exactly if it is served on; otherwise its session is about to be released. */
  lemma HolderStaysIff(s: ValidSystem, step: Step, n: SessionName)
    requires step.Turn? && PhaseOf(s, step.conn) == Holding(n)
    ensures n in s.sessions
    ensures PhaseOf(Advance(s, step), step.conn) ==
            if ServesOn(s.sessions[n], n, step.request, step.ok, step.written) then Holding(n) else Releasing(n)
  {
    HeldSessionExists(s, step.conn);
    TurnShape(s, step, n);
    StaysIff(s.sessions[n], n, step.request, step.ok, step.texts, step.written);
  }

  /** A detach frees the session, whether or not its confirmation is written. */
  lemma DetachFrees(s: ValidSystem, c: nat, n: SessionName, ok: Oracle, texts: PaneId -> Utf8.Text, written: bool)
    requires PhaseOf(s, c) == Holding(n)
    ensures Free(Run(s, [Turn(c, Request.Detach(n), ok, texts, written), Release(c)]), n)
  {
    var turn, release := Turn(c, Request.Detach(n), ok, texts, written), Release(c);
    HolderStaysIff(s, turn, n);
    ReleaseFrees(Advance(s, turn), c, n);
    FoldTwo(Advance, s, turn, release);
  }

  /** A reserved connection whose confirmation is written enters the attached loop. */
  lemma ConfirmedHolds(s: ValidSystem, c: nat, n: SessionName)
    requires PhaseOf(s, c) == Reserved(n)
    ensures PhaseOf(Advance(s, Confirm(c, true)), c) == Holding(n)
  {
    ResponseEncodable(Attached(n));
  }

  /** A new connection waits for its first request, and is over if that does not come. */
  lemma ConnectionStarts(s: ValidSystem, c: nat)
    requires c !in s.conns
    ensures var t := Advance(s, Accept(c));
            && PhaseOf(t, c) == Reading && t.sessions == s.sessions
            && PhaseOf(Advance(t, Hangup(c)), c) == Closed && Advance(t, Hangup(c)).sessions == s.sessions
  {
  }

  /** A connection is served one request, unless that is an attach that is granted. */
  lemma ServedOnce(s: ValidSystem, step: Step)
    requires step.FirstRequest? && PhaseOf(s, step.conn) == Reading
    ensures PhaseOf(Advance(s, step), step.conn) ==
            if step.request.Attach? && step.request.name in s.sessions && !s.sessions[step.request.name].attached
            then Reserved(step.request.name) else Closed
  {
  }

  /** Why an attach is refused: there is no such session, or some connection owns it. */
  lemma RefusedBecause(s: ValidSystem, n: SessionName)
    ensures var refusal := Reserve(s.sessions, n).1;
            && (n !in s.sessions ==> refusal == Some(Error(NotFound, Say("session not found"))))
            && (n in s.sessions && Owners(s, n) != {} ==>
                  refusal == Some(Error(Conflict, Say("session already has an attached client"))))
            && (n in s.sessions && Owners(s, n) == {} ==> refusal == None)
  {
    if n in s.sessions {
      OwnersOne(s, n);
    }
  }

  /** In every reachable state a listing states for each session how many connections own it. */
  lemma ListingCountsOwners(steps: seq<Step>, n: SessionName, clients: u16, ok: Oracle, trouble: Utf8.Text)
    ensures var response := Dispatched(Reached(steps).sessions, Request.List, ok, trouble).1;
            && response.Sessions?
            && (SessionInfo(n, clients) in response.sessions <==>
                n in Reached(steps).sessions && clients == |Owners(Reached(steps), n)|)
  {
    ListingStates(Reached(steps).sessions, ok, trouble, n, clients);
    if n in Reached(steps).sessions {
      FlagCountsOwners(steps, n);
    }
  }

  // ---- When a disconnect releases the reservation ----

  lemma UnconfirmedIsAbandoned(s: ValidSystem, c: nat, n: SessionName)
    requires PhaseOf(s, c) == Reserved(n)
    ensures PhaseOf(Advance(s, Confirm(c, false)), c) == Abandoned(n)
  {
  }

  /**
    * The client of an attached session disconnects and its connection takes all its remaining steps: the
    * reservation is released exactly if `Attached` had been written before.
    */
  lemma DisconnectReleasesIff(s: ValidSystem, c: nat, n: SessionName)
    requires PhaseOf(s, c) == Reserved(n) || PhaseOf(s, c) == Holding(n)
    ensures Free(Run(s, [Confirm(c, false), Hangup(c), Release(c)]), n) <==> PhaseOf(s, c) == Holding(n)
  {
    var confirm, hangup, release := Confirm(c, false), Hangup(c), Release(c);
    FoldThree(Advance, s, confirm, hangup, release);
    var s1 := Advance(s, confirm);
    var s2 := Advance(s1, hangup);
    if PhaseOf(s, c) == Holding(n) {
      HolderWaits(s, confirm, n);
      HolderHangsUp(s, c, n);
      ReleaseFrees(s2, c, n);
    } else {
      UnconfirmedIsAbandoned(s, c, n);
      AbandonedIsFinal(s1, hangup, c);
      AbandonedIsFinal(s2, release, c);
      OnlyOwner(Advance(s2, release), c, n);
    }
  }

  lemma BecomesAbandonedIff(s: ValidSystem, step: Step, c: nat, n: SessionName)
    requires PhaseOf(s, c) != Abandoned(n)
    ensures PhaseOf(Advance(s, step), c) == Abandoned(n) <==> step == Confirm(c, false) && PhaseOf(s, c) == Reserved(n)
  {
    if step.conn != c {
      OthersUndisturbed(s, step, c);
    } else if step == Confirm(c, false) && PhaseOf(s, c) == Reserved(n) {
      UnconfirmedIsAbandoned(s, c, n);
    } else {
      StaysUnabandoned(s, step, n);
    }
  }

  lemma StaysUnabandoned(s: ValidSystem, step: Step, n: SessionName)
    requires PhaseOf(s, step.conn) != Abandoned(n)
    requires !(step == Confirm(step.conn, false) && PhaseOf(s, step.conn) == Reserved(n))
    ensures PhaseOf(Advance(s, step), step.conn) != Abandoned(n)
  {
    if step.Confirm? && PhaseOf(s, step.conn) == Reserved(n) {
      ResponseEncodable(Attached(n));
    }
  }

  lemma AbandonedLast(s: ValidSystem, step: Step, c: nat, n: SessionName)
    ensures PhaseOf(Advance(s, step), c) == Abandoned(n) <==>
            PhaseOf(s, c) == Abandoned(n) || (step == Confirm(c, false) && PhaseOf(s, c) == Reserved(n))
  {
    if PhaseOf(s, c) == Abandoned(n) {
      AbandonedIsFinal(s, step, c);
    } else {
      BecomesAbandonedIff(s, step, c, n);
    }
  }

  lemma AbandonedIff(s: ValidSystem, steps: seq<Step>, c: nat, n: SessionName)
    ensures PhaseOf(Run(s, steps), c) == Abandoned(n) <==>
            PhaseOf(s, c) == Abandoned(n) ||
            exists k | 0 <= k < |steps| ::
              steps[k] == Confirm(c, false) && PhaseOf(Run(s, steps[..k]), c) == Reserved(n)
  {
    var abandoned := (a: ValidSystem) => PhaseOf(a, c) == Abandoned(n);
    var lost := (a: ValidSystem, step: Step) => step == Confirm(c, false) && PhaseOf(a, c) == Reserved(n);
    forall a: ValidSystem, step | step in steps
      ensures abandoned(Advance(a, step)) <==> abandoned(a) || lost(a, step)
    {
      AbandonedLast(a, step, c, n);
    }
    FoldBecomes(Advance, abandoned, lost, s, steps);
    assert forall k | 0 <= k < |steps| ::
        lost(Run(s, steps[..k]), steps[k]) <==>
        steps[k] == Confirm(c, false) && PhaseOf(Run(s, steps[..k]), c) == Reserved(n);
  }

  /** A reservation is lost exactly in the runs in which its confirmation could not be written. */
  lemma AbandonedIffUnconfirmed(steps: seq<Step>, c: nat, n: SessionName)
    ensures PhaseOf(Reached(steps), c) == Abandoned(n) <==>
            exists k | 0 <= k < |steps| ::
              steps[k] == Confirm(c, false) && PhaseOf(Reached(steps[..k]), c) == Reserved(n)
  {
    AbandonedIff(START, steps, c, n);
  }

  // ---- Every PTY belongs to one pane ----

  ghost predicate AllOwnSpawns(s: System) {
    forall n | n in s.sessions :: s.sessions[n].host.OwnSpawns()
  }

  lemma StepKeepsOwnSpawns(s: ValidSystem, step: Step)
    requires AllOwnSpawns(s)
    ensures AllOwnSpawns(Advance(s, step))
  {
    forall n | n in Advance(s, step).sessions
      ensures Advance(s, step).sessions[n].host.OwnSpawns()
    {
      if n !in s.sessions {
        NewSessionOwnsSpawns(s, step, n);
      } else if step.Turn? && PhaseOf(s, step.conn) == Holding(n) {
        TurnShape(s, step, n);
        HandleKeepsOwnSpawns(s.sessions[n], step.request, n, step.texts, step.ok);
      } else {
        OnlyTheHolderChangesPanes(s, step, n);
      }
    }
  }

  lemma NewSessionOwnsSpawns(s: ValidSystem, step: Step, n: SessionName)
    requires n !in s.sessions && n in Advance(s, step).sessions
    ensures Advance(s, step).sessions[n].host.OwnSpawns()
  {
    match step
    case FirstRequest(_, _, _, _) => FirstRequestOwnsSpawns(s, step, n);
    case Turn(c, _, _, _, _) => TurnAddsNone(s, step);
    case Release(c) => ReleaseAddsNone(s, c);
    case _ => OnlyPhasesChange(s, step);
  }

  lemma FirstRequestOwnsSpawns(s: System, step: Step, n: SessionName)
    requires MapValid(s.sessions) && step.FirstRequest? && n !in s.sessions && n in Next(s, step).sessions
    ensures Next(s, step).sessions[n].host.OwnSpawns()
  {
    if PhaseOf(s, step.conn) == Reading && !step.request.Attach? {
      assert Next(s, step).sessions == Dispatched(s.sessions, step.request, step.ok, step.trouble).0;
      DispatchOwnsSpawns(s.sessions, step.request, step.ok, step.trouble, n);
    }
  }

  lemma TurnAddsNone(s: ValidSystem, step: Step)
    requires step.Turn?
    ensures Advance(s, step).sessions.Keys == s.sessions.Keys
  {
    if PhaseOf(s, step.conn).Holding? {
      HeldSessionExists(s, step.conn);
      TurnShape(s, step, PhaseOf(s, step.conn).name);
    }
  }

  lemma ReleaseAddsNone(s: System, c: nat)
    requires MapValid(s.sessions)
    ensures Next(s, Release(c)).sessions.Keys == s.sessions.Keys
  {
    if PhaseOf(s, c).Releasing? {
      assert Next(s, Release(c)).sessions == Released(s.sessions, PhaseOf(s, c).name);
    }
  }

  lemma RunKeepsOwnSpawns(s: ValidSystem, steps: seq<Step>)
    requires AllOwnSpawns(s)
    ensures AllOwnSpawns(Run(s, steps))
  {
    var inv := (a: ValidSystem) => AllOwnSpawns(a);
    forall a: ValidSystem, step | step in steps && inv(a)
      ensures inv(Advance(a, step))
    {
      StepKeepsOwnSpawns(a, step);
    }
    FoldKeeps(Advance, inv, s, steps);
    assert inv(Run(s, steps));
  }

  /** In every reachable state the panes of a session have PTYs from different spawns that were really made. */
  lemma SpawnsNeverShared(steps: seq<Step>)
    ensures AllOwnSpawns(Reached(steps))
  {
    RunKeepsOwnSpawns(START, steps);
  }
}
