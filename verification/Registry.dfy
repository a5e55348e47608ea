/** The resources that the panes of a session own, kept in step with its tree. */
module Registry {
  import opened Basics
  import opened PaneTree
  import opened Sessions

  /** The panes of a tree as a set, the keys its registry is to have. */
  function PaneIds(root: Node): set<PaneId> {
    set id | id in Leaves(root)
  }

  /** Identifiers in ascending order, as a BTreeSet of them iterates. */
  function SortedIds(ids: set<PaneId>): (r: seq<PaneId>)
    ensures forall i, j | 0 <= i < j < |r| :: r[i] < r[j]
    ensures (forall id :: id in r <==> id in ids) && |r| == |ids|
  {
    var less := (a: PaneId, b: PaneId) => a < b;
    AscendingSorts(ids, less);
    var r := Ascending(ids, less);
    assert forall i, j | 0 <= i < j < |r| :: less(r[i], r[j]);
    r
  }

  /**
    * The resources made for `missing`, in order. The source's `create` is a closure that may change
    * between calls; `create(k, id)` is what its call number `k` returns.
    */
  function Created<T, E>(missing: seq<PaneId>, create: (nat, PaneId) -> Result<T, E>, start: nat):
    (r: Result<seq<(PaneId, T)>, E>)
    ensures r.Success? ==> |r.value| == |missing|
  {
    if missing == [] then Success([])
    else
      var n := |missing| - 1;
      var before :- Created(missing[..n], create, start);
      var resource :- create(start + n, missing[n]);
      Success(before + [(missing[n], resource)])
  }

  /** The panes `create` is called for: all of them, or up to the first that fails. */
  function Calls<T, E>(missing: seq<PaneId>, create: (nat, PaneId) -> Result<T, E>, start: nat): seq<PaneId> {
    if missing == [] then []
    else
      var n := |missing| - 1;
      Calls(missing[..n], create, start)
      + if Created(missing[..n], create, start).Success? then [missing[n]] else []
  }

  /** `BTreeMap::extend`. */
  function Extended<T>(resources: map<PaneId, T>, pairs: seq<(PaneId, T)>): map<PaneId, T>
    decreases |pairs|
  {
    if pairs == [] then resources
    else Extended(resources[pairs[0].0 := pairs[0].1], pairs[1..])
  }

  /** The entries of a map for `ids`, in that order. */
  function Entries<T>(resources: map<PaneId, T>, ids: seq<PaneId>): (r: seq<(PaneId, T)>)
    requires forall id | id in ids :: id in resources
  {
    seq(|ids|, i requires 0 <= i < |ids| => (ids[i], resources[ids[i]]))
  }

  function Kept<T>(resources: map<PaneId, T>, wanted: set<PaneId>): (r: map<PaneId, T>)
    ensures r.Keys == resources.Keys * wanted
    ensures forall id | id in r :: r[id] == resources[id]
  {
    resources - (resources.Keys - wanted)
  }

  /** The registry after `reconcile`, and the removed resources it returns. */
  function Reconciled<T, E>(
    resources: map<PaneId, T>, wanted: set<PaneId>, create: (nat, PaneId) -> Result<T, E>, start: nat):
    (map<PaneId, T>, Result<seq<(PaneId, T)>, E>)
  {
    match Created(SortedIds(wanted - resources.Keys), create, start)
    case Failure(error) => (resources, Failure(error))
    case Success(created) =>
      (Extended(Kept(resources, wanted), created),
       Success(Entries(resources, SortedIds(resources.Keys - wanted))))
  }

  lemma {:induction false} CreatedAt<T, E>(
    missing: seq<PaneId>, create: (nat, PaneId) -> Result<T, E>, start: nat, i: nat)
    requires i < |missing| && Created(missing, create, start).Success?
    ensures create(start + i, missing[i]) == Success(Created(missing, create, start).value[i].1)
    ensures Created(missing, create, start).value[i].0 == missing[i]
  {
    var n := |missing| - 1;
    if i < n {
      CreatedAt(missing[..n], create, start, i);
    }
  }

  lemma CreatedAll<T, E>(missing: seq<PaneId>, create: (nat, PaneId) -> Result<T, E>, start: nat)
    requires Created(missing, create, start).Success?
    ensures forall i | 0 <= i < |missing| :: create(start + i, missing[i]).Success?
  {
    forall i | 0 <= i < |missing|
      ensures create(start + i, missing[i]).Success?
    {
      CreatedAt(missing, create, start, i);
    }
  }

  lemma {:induction false} CallsAll<T, E>(missing: seq<PaneId>, create: (nat, PaneId) -> Result<T, E>, start: nat)
    requires Created(missing, create, start).Success?
    ensures Calls(missing, create, start) == missing
  {
    if missing != [] {
      CallsAll(missing[..|missing| - 1], create, start);
    }
  }

  /** Call `k` is the first that fails: it is the last that is made, and its error is reported. */
  ghost predicate FailsAt<T, E>(
    missing: seq<PaneId>, create: (nat, PaneId) -> Result<T, E>, start: nat, k: nat)
  {
    && k < |missing|
    && create(start + k, missing[k]).Failure?
    && Created(missing, create, start) == Failure(create(start + k, missing[k]).error)
    && (forall i | 0 <= i < k :: create(start + i, missing[i]).Success?)
    && Calls(missing, create, start) == missing[..k + 1]
  }

  lemma FailsLast<T, E>(front: seq<PaneId>, id: PaneId, create: (nat, PaneId) -> Result<T, E>, start: nat)
    requires Created(front, create, start).Success? && create(start + |front|, id).Failure?
    ensures FailsAt(front + [id], create, start, |front|)
  {
    var missing := front + [id];
    assert missing[..|front|] == front && missing[..|front| + 1] == missing;
    CallsAll(front, create, start);
    CreatedAll(front, create, start);
  }

  lemma FailsBefore<T, E>(
    front: seq<PaneId>, id: PaneId, create: (nat, PaneId) -> Result<T, E>, start: nat, k: nat)
    requires FailsAt(front, create, start, k)
    ensures FailsAt(front + [id], create, start, k)
  {
    var missing := front + [id];
    assert missing[..|front|] == front && missing[..k + 1] == front[..k + 1];
  }

  /** A failed creation stops at the first call that fails, and reports its error. */
  lemma {:induction false} CreatedFails<T, E>(
    missing: seq<PaneId>, create: (nat, PaneId) -> Result<T, E>, start: nat) returns (k: nat)
    requires Created(missing, create, start).Failure?
    ensures FailsAt(missing, create, start, k)
  {
    var n := |missing| - 1;
    assert missing == missing[..n] + [missing[n]];
    if Created(missing[..n], create, start).Failure? {
      k := CreatedFails(missing[..n], create, start);
      FailsBefore(missing[..n], missing[n], create, start, k);
    } else {
      k := n;
      FailsLast(missing[..n], missing[n], create, start);
    }
  }

  /** What follows a call that fails is never asked for. */
  lemma {:induction false} CreatedPrefix<T, E>(
    missing: seq<PaneId>, create: (nat, PaneId) -> Result<T, E>, start: nat, k: nat)
    requires k <= |missing| && Created(missing[..k], create, start).Failure?
    ensures Created(missing, create, start) == Created(missing[..k], create, start)
    ensures Calls(missing, create, start) == Calls(missing[..k], create, start)
  {
    if k == |missing| {
      assert missing[..k] == missing;
    } else {
      var front := missing[..|missing| - 1];
      assert front[..k] == missing[..k];
      CreatedPrefix(front, create, start, k);
    }
  }

  lemma {:induction false} ExtendedWith<T>(resources: map<PaneId, T>, ids: seq<PaneId>, pairs: seq<(PaneId, T)>)
    requires Distinct(ids) && |ids| == |pairs| && forall i | 0 <= i < |ids| :: pairs[i].0 == ids[i]
    ensures var r := Extended(resources, pairs);
            && (forall id :: id in r <==> id in resources || id in ids)
            && (forall i | 0 <= i < |ids| :: r[ids[i]] == pairs[i].1)
            && (forall id | id in resources && id !in ids :: r[id] == resources[id])
    decreases |ids|
  {
    if ids != [] {
      ExtendedWith(resources[ids[0] := pairs[0].1], ids[1..], pairs[1..]);
      assert ids == [ids[0]] + ids[1..];
    }
  }

  /** The resources `create` makes, asked once for each missing pane in ascending order. */
  lemma CreatedForMissing<T, E>(
    resources: map<PaneId, T>, wanted: set<PaneId>, create: (nat, PaneId) -> Result<T, E>, start: nat)
    requires Created(SortedIds(wanted - resources.Keys), create, start).Success?
    ensures var missing := SortedIds(wanted - resources.Keys);
            var created := Created(missing, create, start).value;
            && Calls(missing, create, start) == missing && |created| == |missing|
            && forall i | 0 <= i < |missing| ::
                 created[i].0 == missing[i] && create(start + i, missing[i]) == Success(created[i].1)
  {
    var missing := SortedIds(wanted - resources.Keys);
    CallsAll(missing, create, start);
    forall i | 0 <= i < |missing|
      ensures var pair := Created(missing, create, start).value[i];
              pair.0 == missing[i] && create(start + i, missing[i]) == Success(pair.1)
    {
      CreatedAt(missing, create, start, i);
    }
  }

  lemma ExtendedKeys<T>(kept: map<PaneId, T>, ids: seq<PaneId>, pairs: seq<(PaneId, T)>, wanted: set<PaneId>)
    requires Distinct(ids) && |ids| == |pairs| && forall i | 0 <= i < |ids| :: pairs[i].0 == ids[i]
    requires forall id :: id in wanted <==> id in kept || id in ids
    ensures Extended(kept, pairs).Keys == wanted
  {
    ExtendedWith(kept, ids, pairs);
  }

  /** A successful reconciliation leaves resources for exactly the wanted panes; those that had one keep it. */
  lemma ReconcileMatchesTree<T, E>(
    resources: map<PaneId, T>, wanted: set<PaneId>, create: (nat, PaneId) -> Result<T, E>, start: nat)
    requires Reconciled(resources, wanted, create, start).1.Success?
    ensures var after := Reconciled(resources, wanted, create, start).0;
            && after.Keys == wanted
            && forall id | id in wanted && id in resources :: after[id] == resources[id]
  {
    var missing := SortedIds(wanted - resources.Keys);
    var kept := Kept(resources, wanted);
    var created := Created(missing, create, start).value;
    CreatedForMissing(resources, wanted, create, start);
    ExtendedKeys(kept, missing, created, wanted);
    ExtendedWith(kept, missing, created);
    assert forall id | id in wanted && id in resources :: id in kept && id !in missing;
  }

  /** The other wanted panes get what `create` makes for them, asked once each in ascending order. */
  lemma ReconcileCreatesMissing<T, E>(
    resources: map<PaneId, T>, wanted: set<PaneId>, create: (nat, PaneId) -> Result<T, E>, start: nat)
    requires Reconciled(resources, wanted, create, start).1.Success?
    ensures var after := Reconciled(resources, wanted, create, start).0;
            var missing := SortedIds(wanted - resources.Keys);
            && Calls(missing, create, start) == missing
            && forall i | 0 <= i < |missing| ::
                 missing[i] in after && create(start + i, missing[i]) == Success(after[missing[i]])
  {
    var missing := SortedIds(wanted - resources.Keys);
    var created := Created(missing, create, start).value;
    var after := Extended(Kept(resources, wanted), created);
    CreatedForMissing(resources, wanted, create, start);
    ExtendedWith(Kept(resources, wanted), missing, created);
    forall i | 0 <= i < |missing|
      ensures missing[i] in after && create(start + i, missing[i]) == Success(after[missing[i]])
    {
      assert after[missing[i]] == created[i].1;
    }
  }

  /** What it returns is exactly the unwanted resources, in ascending order: none lost, none kept and returned. */
  lemma ReconcileReturnsRemoved<T(!new), E>(
    resources: map<PaneId, T>, wanted: set<PaneId>, create: (nat, PaneId) -> Result<T, E>, start: nat)
    requires Reconciled(resources, wanted, create, start).1.Success?
    ensures var removed := Reconciled(resources, wanted, create, start).1.value;
            && (forall i, j | 0 <= i < j < |removed| :: removed[i].0 < removed[j].0)
            && (forall id, t :: (id, t) in removed <==> id in resources && id !in wanted && resources[id] == t)
  {
    var order := SortedIds(resources.Keys - wanted);
    var removed := Entries(resources, order);
    forall id, t
      ensures (id, t) in removed <==> id in resources && id !in wanted && resources[id] == t
    {
      if id in resources && id !in wanted && resources[id] == t {
        assert id in order;
        var i :| 0 <= i < |order| && order[i] == id;
        assert removed[i] == (id, t);
      }
    }
  }

  /** A failed reconciliation changes nothing and returns nothing but the error. */
  lemma ReconcileIsAtomic<T, E>(
    resources: map<PaneId, T>, wanted: set<PaneId>, create: (nat, PaneId) -> Result<T, E>, start: nat)
    ensures var (after, result) := Reconciled(resources, wanted, create, start);
            && (result.Failure? ==> after == resources)
            && (result.Failure? <==>
                exists i | 0 <= i < |SortedIds(wanted - resources.Keys)| ::
                  create(start + i, SortedIds(wanted - resources.Keys)[i]).Failure?)
  {
    var missing := SortedIds(wanted - resources.Keys);
    if Created(missing, create, start).Failure? {
      var k := CreatedFails(missing, create, start);
    } else {
      forall i | 0 <= i < |missing|
        ensures create(start + i, missing[i]).Success?
      {
        CreatedAt(missing, create, start, i);
      }
    }
  }

  /** Asks `create` for each missing pane; the first error drops what was made so far. */
  method CreateMissing<T, E>(missing: seq<PaneId>, create: (nat, PaneId) -> Result<T, E>, start: nat)
    returns (r: Result<seq<(PaneId, T)>, E>, calls: seq<PaneId>)
    ensures r == Created(missing, create, start) && calls == Calls(missing, create, start)
  {
    var created: seq<(PaneId, T)> := [];
    calls := [];
    for i := 0 to |missing|
      invariant Created(missing[..i], create, start) == Success(created) && Calls(missing[..i], create, start) == calls
    {
      assert missing[..i + 1][..i] == missing[..i];
      calls := calls + [missing[i]];
      var resource := create(start + i, missing[i]);
      if resource.Failure? {
        CreatedPrefix(missing, create, start, i + 1);
        return Failure(resource.error), calls;
      }
      created := created + [(missing[i], resource.value)];
    }
    assert missing[..|missing|] == missing;
    r := Success(created);
  }

  class PaneRegistry<T> {
    var resources: map<PaneId, T>

    constructor ()
      ensures resources == map[]
    {
      resources := map[];
    }

    /** Takes the resources of `ids` out of the map. */
    method RemoveAll(ids: seq<PaneId>) returns (removed: seq<(PaneId, T)>)
      requires Distinct(ids) && forall id | id in ids :: id in resources
      modifies this
      ensures forall id :: id in resources <==> id in old(resources) && id !in ids
      ensures forall id | id in resources :: resources[id] == old(resources)[id]
      ensures removed == Entries(old(resources), ids)
    {
      removed := [];
      for i := 0 to |ids|
        invariant forall id :: id in resources <==> id in old(resources) && id !in ids[..i]
        invariant forall id | id in resources :: resources[id] == old(resources)[id]
        invariant removed == Entries(old(resources), ids[..i])
      {
        assert ids[..i + 1] == ids[..i] + [ids[i]];
        removed := removed + [(ids[i], resources[ids[i]])];
        resources := resources - {ids[i]};
      }
      assert ids[..|ids|] == ids;
    }

    /** Takes out the resources of all panes but the `wanted`, in ascending order. */
    method RemoveUnwanted(wanted: set<PaneId>) returns (removed: seq<(PaneId, T)>)
      modifies this
      ensures resources == Kept(old(resources), wanted)
      ensures removed == Entries(old(resources), SortedIds(old(resources).Keys - wanted))
    {
      var gone := resources.Keys - wanted;
      var ids := SortedIds(gone);
      removed := RemoveAll(ids);
      assert resources == Kept(old(resources), wanted);
    }

    method Extend(pairs: seq<(PaneId, T)>)
      modifies this
      ensures resources == Extended(old(resources), pairs)
    {
      assert pairs[0..] == pairs;
      for i := 0 to |pairs|
        invariant Extended(resources, pairs[i..]) == Extended(old(resources), pairs)
      {
        assert pairs[i..][1..] == pairs[i + 1..];
        resources := resources[pairs[i].0 := pairs[i].1];
      }
    }

    /** Makes the missing resources before touching the registry, then returns the removed ones. */
    method Reconcile<E>(session: Session, create: (nat, PaneId) -> Result<T, E>, start: nat)
      returns (r: Result<seq<(PaneId, T)>, E>, calls: seq<PaneId>)
      modifies this
      ensures var wanted := PaneIds(session.root);
              && (resources, r) == Reconciled(old(resources), wanted, create, start)
              && calls == Calls(SortedIds(wanted - old(resources).Keys), create, start)
    {
      var panes := session.Panes();
      var wanted := set id | id in panes;
      assert wanted == PaneIds(session.root);
      var missing := SortedIds(wanted - resources.Keys);
      var created;
      created, calls := CreateMissing(missing, create, start);
      if created.Failure? {
        return Failure(created.error), calls;
      }
      var removed := RemoveUnwanted(wanted);
      Extend(created.value);
      r := Success(removed);
    }
  }
}
