/** Two hosts that differ only in the session's name and in PTY sizes stay so under every operation. */
module InStep {
  import opened Basics
  import opened PaneTree
  import opened Layout
  import opened Hosting

  ghost predicate SameTree(a: SessionState, b: SessionState) {
    a.root == b.root && a.focused == b.focused && a.nextId == b.nextId
  }

  /** The same tree, focus and identifiers, the same PTYs with the same input, the same number of calls made. */
  ghost predicate SameHost(a: Host, b: Host) {
    SameTree(a.session, b.session) && SamePtysButSize(a.ptys, b.ptys) && a.calls == b.calls
  }

  lemma {:induction false} ResizeInStep(
    p: map<PaneId, Pty>, q: map<PaneId, Pty>, layoutP: seq<(PaneId, Rect)>, layoutQ: seq<(PaneId, Rect)>,
    calls: nat, ok: Oracle)
    requires SamePtysButSize(p, q) && |layoutP| == |layoutQ|
    requires forall i | 0 <= i < |layoutP| :: layoutP[i].0 == layoutQ[i].0
    ensures var (p', callsP, doneP) := ResizedPtys(p, layoutP, calls, ok);
            var (q', callsQ, doneQ) := ResizedPtys(q, layoutQ, calls, ok);
            SamePtysButSize(p', q') && callsP == callsQ && doneP == doneQ
    decreases |layoutP|
  {
    if layoutP != [] {
      var id := layoutP[0].0;
      assert layoutQ[0].0 == id;
      if id !in p {
        ResizeInStep(p, q, layoutP[1..], layoutQ[1..], calls, ok);
      } else if ok(calls) {
        ResizeInStep(p[id := p[id].(size := ContentSize(layoutP[0].1))],
                     q[id := q[id].(size := ContentSize(layoutQ[0].1))],
                     layoutP[1..], layoutQ[1..], calls + 1, ok);
      }
    }
  }

  /** Resizing keeps two hosts the same; over the same area it makes their PTYs equal. */
  lemma ResizeHostInStep(a: Host, b: Host, areaA: Rect, areaB: Rect, ok: Oracle)
    requires a.Valid() && b.Valid() && SameHost(a, b)
    ensures var (t, doneT) := ResizeHost(a, areaA, ok);
            var (u, doneU) := ResizeHost(b, areaB, ok);
            && SameHost(t, u) && doneT == doneU
            && (areaA == areaB && doneT ==> t.ptys == u.ptys)
  {
    var root := a.session.root;
    var layoutA, layoutB := Layout.Layout(root, areaA), Layout.Layout(root, areaB);
    forall i | 0 <= i < |layoutA|
      ensures layoutA[i].0 == layoutB[i].0 == Leaves(root)[i]
    {
      LayoutOrder(root, areaA, i);
      LayoutOrder(root, areaB, i);
    }
    ResizeInStep(a.ptys, b.ptys, layoutA, layoutB, a.calls, ok);
    if areaA == areaB {
      ResizeSetsSizes(a.ptys, layoutA, a.calls, ok);
      ResizeSetsSizes(b.ptys, layoutA, a.calls, ok);
      var t, u := ResizeHost(a, areaA, ok).0, ResizeHost(b, areaB, ok).0;
      if ResizeHost(a, areaA, ok).1 {
        forall id | id in t.ptys
          ensures id in u.ptys && t.ptys[id] == u.ptys[id]
        {
          ResizeKeepsPtys(a.ptys, layoutA, a.calls, ok);
          var i := IndexOf(Leaves(root), id);
          assert layoutA[i].0 == id;
        }
      }
    }
  }

  lemma GrownInStep(a: Host, b: Host, direction: Direction)
    requires SameHost(a, b) && a.session.nextId < U64_MAX
    ensures SameHost(Grown(a, direction), Grown(b, direction))
  {
  }

  lemma SplitHostInStep(a: Host, b: Host, direction: Direction, areaA: Rect, areaB: Rect, ok: Oracle)
    requires a.Valid() && b.Valid() && SameHost(a, b)
    ensures var (t, doneT) := SplitHost(a, direction, areaA, ok);
            var (u, doneU) := SplitHost(b, direction, areaB, ok);
            && SameHost(t, u) && doneT == doneU
            && (areaA == areaB && doneT ==> t.ptys == u.ptys)
  {
    if a.session.nextId < U64_MAX {
      SplitHostSteps(a, direction, areaA, ok);
      SplitHostSteps(b, direction, areaB, ok);
      GrownInStep(a, b, direction);
      GrownValid(a, direction);
      GrownValid(b, direction);
      ResizeHostInStep(Grown(a, direction), Grown(b, direction), areaA, areaB, ok);
    }
  }

  lemma ShrunkInStep(a: Host, b: Host, id: PaneId, s: SessionState, t: SessionState)
    requires SameHost(a, b) && SameTree(s, t)
    ensures SameHost(Host(s, a.ptys - {id}, a.calls + 1), Host(t, b.ptys - {id}, b.calls + 1))
  {
  }

  lemma ClosedInStep(a: SessionState, b: SessionState)
    requires SameTree(a, b) && a.focused in Leaves(a.root)
    ensures SameTree(CloseFocused(a), CloseFocused(b))
  {
  }

  lemma CloseHostInStep(a: Host, b: Host, ok: Oracle)
    requires a.Valid() && b.Valid() && SameHost(a, b)
    ensures var (t, doneT) := CloseHost(a, ok);
            var (u, doneU) := CloseHost(b, ok);
            && SameHost(t, u) && doneT == doneU
            && (a.ptys == b.ptys ==> t.ptys == u.ptys)
  {
    CloseHostSteps(a, ok);
    CloseHostSteps(b, ok);
    ClosedInStep(a.session, b.session);
    ShrunkInStep(a, b, a.session.focused, CloseFocused(a.session), CloseFocused(b.session));
  }

  lemma WriteHostInStep(a: Host, b: Host, bytes: Bytes, ok: Oracle)
    requires a.Valid() && b.Valid() && SameHost(a, b)
    ensures var (t, doneT) := WriteHost(a, bytes, ok);
            var (u, doneU) := WriteHost(b, bytes, ok);
            && SameHost(t, u) && doneT == doneU
            && (a.ptys == b.ptys ==> t.ptys == u.ptys)
  {
  }
}
