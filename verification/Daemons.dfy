/** The shared map of hosted sessions, and the regions of code that run under its lock. */
module Daemons {
  import opened Basics
  import opened Names
  import opened PaneTree
  import opened Hosting
  import opened Wire
  import opened Service
  import opened HostedSessions
  import Attachment
  import Utf8

  lemma ListingIs(sessions: map<SessionName, Hosted>, names: seq<SessionName>, infos: seq<SessionInfo>)
    requires forall n | n in names :: n in sessions
    requires |infos| == |names| && forall i | 0 <= i < |names| :: infos[i] == InfoOf(sessions[names[i]])
    ensures infos == Listing(sessions, names)
  {
  }

  class Daemon {
    var sessions: map<SessionName, HostedSession>

    /** Every object the daemon's sessions are made of. */
    ghost function Parts(): set<object>
      reads this, sessions.Values
    {
      sessions.Values + (set h | h in sessions.Values :: h.session) + (set h | h in sessions.Values :: h.panes)
      + (set h | h in sessions.Values :: h.world)
    }

    /** No two sessions share an object. */
    ghost predicate Separate()
      reads this, sessions.Values
    {
      forall a, b | a in sessions && b in sessions && a != b :: Disjoint(sessions[a], sessions[b])
    }

    static ghost predicate Disjoint(h: HostedSession, k: HostedSession)
      reads h, k
    {
      h != k && h.session != k.session && h.panes != k.panes && h.world != k.world
    }

    /** No session of the map shares an object with `h`. */
    ghost predicate Apart(h: HostedSession)
      reads this, sessions.Values, h
    {
      forall n | n in sessions :: Disjoint(sessions[n], h)
    }

    /** No session of the map runs its PTYs in `world`. */
    ghost predicate Foreign(world: World)
      reads this, sessions.Values
    {
      forall n | n in sessions :: sessions[n].world != world
    }

    ghost function View(): map<SessionName, Hosted>
      reads this, Parts()
    {
      map n | n in sessions :: sessions[n].State()
    }

    /** The view is the same while every session's state is. */
    twostate lemma ViewFrame()
      requires sessions == old(sessions)
      requires forall n | n in sessions :: old(sessions[n]).State() == old(sessions[n].State())
      ensures View() == old(View())
    {
    }

    /** Filing a session under a new name adds its entry to the view. */
    twostate lemma ViewExtended(name: SessionName, new hosted: HostedSession)
      requires name !in old(sessions) && sessions == old(sessions)[name := hosted]
      requires forall n | n in old(sessions) :: old(sessions[n]).State() == old(sessions[n].State())
      ensures View() == old(View())[name := hosted.State()]
    {
    }

    /** Changing the objects of one session updates its entry in the view. */
    twostate lemma ViewUpdated(name: SessionName)
      requires sessions == old(sessions) && name in sessions
      requires forall n | n in sessions && n != name ::
                 unchanged(sessions[n]) && old(sessions[n]).State() == old(sessions[n].State())
      ensures View() == old(View())[name := sessions[name].State()]
    {
    }

    constructor ()
      ensures sessions == map[]
    {
      sessions := map[];
    }

    /** Answers a connection whose first request is not an attach. */
    method Dispatch(request: Request, world: World, trouble: Utf8.Text) returns (response: Response)
      requires Separate() && world.calls == 0 && Foreign(world)
      modifies this, world
      ensures Separate()
      ensures (View(), response) == Dispatched(old(View()), request, world.ok, trouble)
    {
      match request
      case Ping(nonce) => response := Pong(nonce);
      case List =>
        response := Listed();
        assert View() == old(View());
      case Create(name) => response := CreateSession(name, world, trouble);
      case _ => response := ServiceError(Conflict, NOT_STREAMING);
    }

    method Listed() returns (response: Response)
      ensures response == Sessions(Listing(View(), Sorted(View().Keys)))
    {
      assert View().Keys == sessions.Keys;
      var names := Sorted(sessions.Keys);
      var infos := Infos(names);
      ListingIs(View(), names, infos);
      response := Sessions(infos);
    }

    method Infos(names: seq<SessionName>) returns (infos: seq<SessionInfo>)
      requires forall n | n in names :: n in sessions
      ensures |infos| == |names| && forall i | 0 <= i < |names| :: infos[i] == InfoOf(View()[names[i]])
    {
      infos := [];
      for i := 0 to |names|
        invariant |infos| == i && forall j | 0 <= j < i :: infos[j] == InfoOf(View()[names[j]])
      {
        var hosted := sessions[names[i]];
        infos := infos + [SessionInfo(hosted.session.name, if hosted.attached then 1 else 0)];
      }
    }

    method CreateSession(name: SessionName, world: World, trouble: Utf8.Text) returns (response: Response)
      requires Separate() && world.calls == 0 && Foreign(world)
      modifies this, world
      ensures Separate()
      ensures (View(), response) == CreateIn(old(View()), name, world.ok, trouble)
    {
      assert View().Keys == sessions.Keys && |View()| == |sessions|;
      if name in sessions {
        return ServiceError(AlreadyExists, ALREADY_EXISTS);
      }
      if |sessions| >= MAX_LISTED_SESSIONS {
        return ServiceError(Conflict, LIMIT_REACHED);
      }
      response := CreateNew(name, world, trouble);
    }

    /** Spawns a session that there is room for, and files it if its PTY is running. */
    method CreateNew(name: SessionName, world: World, trouble: Utf8.Text) returns (response: Response)
      requires Separate() && world.calls == 0 && Foreign(world) && name !in sessions
      modifies this, world
      ensures Separate()
      ensures var (hosted, done) := CreateHosted(name, world.ok);
              && View() == (if done then old(View())[name := hosted] else old(View()))
              && response == if done then Created(name) else ServiceError(Internal, trouble)
    {
      var hosted := Spawn(name, world);
      if hosted.Failure? {
        return ServiceError(Internal, trouble);
      }
      Add(name, hosted.value);
      response := Created(name);
    }

    /** Creates a session beside the map, which stays as it is. */
    method Spawn(name: SessionName, world: World) returns (r: Result<HostedSession, Fault>)
      requires world.calls == 0 && Foreign(world)
      modifies world
      ensures sessions == old(sessions) && View() == old(View())
      ensures r.Success? <==> CreateHosted(name, world.ok).1
      ensures r.Success? ==> Apart(r.value) && r.value.State() == CreateHosted(name, world.ok).0
    {
      r := HostedSession.Create(name, world);
      ViewFrame();
    }

    /** Files a newly created session, made of objects of its own, under its name. */
    method Add(name: SessionName, hosted: HostedSession)
      requires Separate() && name !in sessions && Apart(hosted)
      modifies this
      ensures Separate() && View() == old(View())[name := hosted.State()]
    {
      sessions := sessions[name := hosted];
      ViewExtended(name, hosted);
    }

    /** Sets the flag for a connection that asks to attach, or says why not. */
    method Reserve(name: SessionName) returns (refusal: Option<Response>)
      requires Separate()
      modifies if name in sessions then {sessions[name]} else {}
      ensures Separate() && sessions == old(sessions)
      ensures (View(), refusal) == Attachment.Reserve(old(View()), name)
    {
      if name !in sessions {
        return Some(ServiceError(NotFound, NOT_FOUND));
      }
      var hosted := sessions[name];
      if hosted.attached {
        return Some(ServiceError(Conflict, ALREADY_ATTACHED));
      }
      hosted.attached := true;
      ViewUpdated(name);
      refusal := None;
    }

    /** Clears the flag for a connection that has left the attached loop. */
    method Release(name: SessionName)
      requires Separate()
      modifies if name in sessions then {sessions[name]} else {}
      ensures Separate() && sessions == old(sessions)
      ensures View() == Attachment.Released(old(View()), name)
    {
      if name in sessions {
        var hosted := sessions[name];
        hosted.attached := false;
        ViewUpdated(name);
      }
    }

    /** Handles one request of the client that holds a session. */
    method Turn(name: SessionName, request: Request, texts: PaneId -> Utf8.Text) returns (reply: Reply)
      requires Separate() && name in sessions && sessions[name].Valid()
      modifies sessions[name], sessions[name].session, sessions[name].panes, sessions[name].world
      ensures Separate() && sessions == old(sessions)
      ensures var (hosted, answer) :=
                HandleAttached(old(View())[name], request, name, texts, sessions[name].world.ok);
              View() == old(View())[name := hosted] && reply == answer
    {
      assert forall n | n in sessions && n != name :: Disjoint(sessions[n], sessions[name]);
      reply := sessions[name].Handle(request, name, texts);
      forall n | n in sessions && n != name
        ensures unchanged(sessions[n]) && sessions[n].State() == old(sessions[n].State())
      {
        assert old(Disjoint(sessions[n], sessions[name]));
      }
      ViewUpdated(name);
    }
  }
}
