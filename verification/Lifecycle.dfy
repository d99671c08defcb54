/**
  Which session owns which target. Every method here runs under the target
  registration lock, or is one atomic access to a session, so the daemon's
  actors interleave between methods and not inside them.
 */
module Lifecycle {
  import opened Common
  import opened Sessions
  import opened Subscriptions

  type State = map<string, Record>

  datatype ErrorCode = SessionNotFound | TabLimitExceeded | TargetAlreadyAttached

  /** Why a state file was not loaded. */
  datatype Refusal = UnsupportedVersion | InvalidState

  datatype Registration = Registered | AlreadyTracked | Failed(code: ErrorCode)

  datatype Event =
    | Destroyed(session: string, targetId: string)
    | Updated(session: string, targetId: string, url: string, title: string)

  // ----- ownership -----

  ghost predicate Owns(st: State, name: string, targetId: string) {
    name in st && targetId in st[name].tabs
  }

  ghost function Get(st: State, name: string): Option<Record> {
    if name in st then Some(st[name]) else None
  }

  ghost predicate UniqueOwners(st: State) {
    forall a, b, t :: Owns(st, a, t) && Owns(st, b, t) ==> a == b
  }

  ghost function Owner(st: State, targetId: string): (o: Option<string>)
    ensures o.Some? ==> Owns(st, o.value, targetId)
    ensures o.None? ==> forall name :: !Owns(st, name, targetId)
  {
    if name :| Owns(st, name, targetId) then Some(name) else None
  }

  lemma OwnerIs(st: State, name: string, targetId: string)
    requires UniqueOwners(st) && Owns(st, name, targetId)
    ensures Owner(st, targetId) == Some(name)
  {
  }

  /** An isolated session of this host in this browser context. */
  predicate InContext(s: Record, host: string, contextId: string) {
    s.mode.Isolated? && s.host == host && s.contextId == Some(contextId)
  }

  ghost predicate Matches(st: State, name: string, host: string, contextId: string) {
    name in st && InContext(st[name], host, contextId)
  }

  /** `name` is the only isolated session in the context. */
  ghost predicate OnlyMatch(st: State, name: string, host: string, contextId: string) {
    Matches(st, name, host, contextId) && forall m :: Matches(st, m, host, contextId) ==> m == name
  }

  /**
    The session a new target belongs to: its opener's, if that is on the same
    host, or else the only isolated session in its browser context.
   */
  ghost function CreatedIn(st: State, host: string, opener: Option<string>, contextId: Option<string>): Option<string> {
    var owner := if opener.None? then None else Owner(st, opener.value);
    if owner.Some? && st[owner.value].host == host then owner
    else if contextId.None? then None
    else if name :| OnlyMatch(st, name, host, contextId.value) then Some(name)
    else None
  }

  // ----- the new state and the answer of every operation -----

  ghost function ReserveError(st: State, name: string, max: nat): Option<ErrorCode> {
    if name !in st then Some(SessionNotFound)
    else if !CanAdd(st[name], max) then Some(TabLimitExceeded)
    else None
  }

  ghost function AfterReserve(st: State, name: string, max: nat): State {
    if ReserveError(st, name, max).Some? then st
    else st[name := st[name].(pending := Saturated(st[name].pending + 1))]
  }

  ghost function AfterRelease(st: State, name: string): State {
    if name in st then st[name := st[name].(pending := Less1(st[name].pending))] else st
  }

  /** A registration for a reservation gives the reservation back even when it fails, unless the session is gone. */
  ghost function ReservedAnswer(st: State, name: string, targetId: string): Registration {
    var owner := Owner(st, targetId);
    if name !in st then Failed(SessionNotFound)
    else if owner == Some(name) then AlreadyTracked
    else if owner.Some? then Failed(TargetAlreadyAttached)
    else Registered
  }

  ghost function AfterRegisterReserved(st: State, name: string, tab: Tab, now: nat): State {
    if name !in st then st
    else
      var s := st[name].(pending := Less1(st[name].pending));
      st[name := if Owner(st, tab.targetId).Some? then s else Added(s, tab, now)]
  }

  ghost function InitializedAnswer(st: State, name: string, targetId: string): Registration {
    var owner := Owner(st, targetId);
    if owner == Some(name) then AlreadyTracked
    else if owner.Some? then Failed(TargetAlreadyAttached)
    else if name !in st then Failed(SessionNotFound)
    else Registered
  }

  ghost function AfterRegister(st: State, name: string, tab: Tab, now: nat): State {
    if name !in st || Owner(st, tab.targetId).Some? then st else st[name := Added(st[name], tab, now)]
  }

  ghost function AfterRemove(st: State, targetId: string, fallback: Option<string>, now: nat): State {
    match Owner(st, targetId)
    case None => st
    case Some(name) => st[name := Removed(st[name], targetId, fallback, now)]
  }

  ghost predicate RemoveFallback(st: State, targetId: string, fallback: Option<string>) {
    match Owner(st, targetId)
    case None => fallback.None?
    case Some(name) => IsFallback(st[name].tabs - {targetId}, fallback)
  }

  predicate Differs(tab: Tab, url: string, title: string) {
    tab.url != url || tab.title != title
  }

  ghost function AfterUpdate(st: State, name: string, targetId: string, url: string, title: string, now: nat): State {
    if Owns(st, name, targetId) && Differs(st[name].tabs[targetId], url, title)
    then st[name := WithInfo(st[name], targetId, url, title, now)]
    else st
  }

  lemma ReplacedTwice(st: State, name: string, s: Record, s': Record)
    ensures st[name := s][name := s'] == st[name := s']
  {
  }

  // ----- the daemon -----

  class DaemonState {
    var sessions: map<string, Session>
    var events: seq<Event>
    var persistRequests: nat
    var persistDisabled: bool
    var persistDisabledReason: Option<Refusal>
    const console: TaskRegistry
    const dialogs: DialogState

    /** No two entries share a session, and the two kinds of tasks have each their own registry. */
    ghost predicate Separate()
      reads this`sessions
    {
      && (forall a, b :: a in sessions && b in sessions && sessions[a] == sessions[b] ==> a == b)
      && console != dialogs.tasks
    }

    ghost function View(): State
      reads this`sessions, sessions.Values
    {
      map name | name in sessions :: sessions[name].View()
    }

    ghost predicate Valid()
      reads this`sessions, sessions.Values
    {
      Separate() && UniqueOwners(View())
    }

    constructor ()
      ensures Valid() && View() == map[] && events == [] && persistRequests == 0
    {
      sessions, events, persistRequests := map[], [], 0;
      persistDisabled, persistDisabledReason := false, None;
      console := new TaskRegistry();
      dialogs := new DialogState();
    }

    /** Inserts a session that no other entry holds, in place of what was there. */
    method InsertSession(name: string, session: Session)
      requires Separate() && session !in sessions.Values
      modifies this`sessions
      ensures sessions == old(sessions)[name := session]
      ensures Separate() && View() == old(View())[name := session.View()]
    {
      sessions := sessions[name := session];
    }

    method TouchSession(name: string, now: nat)
      requires Separate()
      modifies sessions.Values
      ensures View() == if name in old(View()) then old(View())[name := Touched(old(View())[name], now)]
                        else old(View())
    {
      if name in sessions {
        var session := sessions[name];
        session.Touch(now);
      }
    }

    method MarkSessionDisconnected(name: string)
      requires Separate() && name in sessions
      modifies sessions.Values
      ensures View() == old(View())[name := old(View())[name].(disconnected := true)]
    {
      var session := sessions[name];
      session.MarkDisconnected();
    }

    method InsertTabInto(name: string, tab: Tab, now: nat)
      requires Separate() && name in sessions
      modifies this`persistRequests, sessions.Values
      ensures View() == old(View())[name := Added(old(View())[name], tab, now)]
      ensures persistRequests == old(persistRequests) + 1
    {
      var session := sessions[name];
      session.InsertTab(tab, now);
      RequestPersist();
    }

    method DropSession(name: string)
      requires Separate()
      modifies this`sessions
      ensures sessions == old(sessions) - {name} && sessions.Values <= old(sessions.Values)
      ensures Separate() && View() == old(View()) - {name}
    {
      sessions := sessions - {name};
    }

    method RequestPersist()
      modifies this`persistRequests
      ensures persistRequests == old(persistRequests) + 1
    {
      persistRequests := persistRequests + 1;
    }

    method Announce(e: Event)
      modifies this`events, this`persistRequests
      ensures View() == old(View())
      ensures events == old(events) + [e] && persistRequests == old(persistRequests) + 1
    {
      events := events + [e];
      RequestPersist();
    }

    /** Looks at the sessions in whatever order the map yields them. */
    method FindTargetOwner(targetId: string) returns (owner: Option<string>)
      requires Valid()
      ensures owner == Owner(View(), targetId)
    {
      var left := sessions.Keys;
      while left != {}
        invariant left <= sessions.Keys
        invariant forall name :: Owns(View(), name, targetId) ==> name in left
      {
        var name :| name in left;
        if targetId in sessions[name].tabs {
          OwnerIs(View(), name, targetId);
          return Some(name);
        }
        left := left - {name};
      }
      owner := None;
    }

    method SessionForCreatedTarget(host: string, opener: Option<string>, contextId: Option<string>)
      returns (name: Option<string>)
      requires Valid()
      ensures name == CreatedIn(View(), host, opener, contextId)
    {
      if opener.Some? {
        var owner := FindTargetOwner(opener.value);
        if owner.Some? && owner.value in sessions && sessions[owner.value].host == host {
          return owner;
        }
      }
      if contextId.None? {
        return None;
      }
      var left := sessions.Keys;
      var first: Option<string> := None;
      while left != {}
        invariant left <= sessions.Keys
        invariant first.Some? ==> Matches(View(), first.value, host, contextId.value) && first.value !in left
        invariant forall m :: Matches(View(), m, host, contextId.value) ==> m in left || first == Some(m)
      {
        var m :| m in left;
        left := left - {m};
        if InContext(sessions[m].View(), host, contextId.value) {
          if first.Some? {
            assert Matches(View(), m, host, contextId.value);
            return None;
          }
          first := Some(m);
        }
      }
      if first.Some? {
        assert OnlyMatch(View(), first.value, host, contextId.value);
      }
      name := first;
    }

    method ReserveSessionTab(name: string, max: nat) returns (error: Option<ErrorCode>)
      requires Valid()
      modifies sessions.Values
      ensures error == ReserveError(old(View()), name, max)
      ensures View() == AfterReserve(old(View()), name, max)
    {
      if name !in sessions {
        return Some(SessionNotFound);
      }
      var session := sessions[name];
      var ok := session.CanAddTab(max);
      if !ok {
        return Some(TabLimitExceeded);
      }
      session.pending := Saturated(session.pending + 1);
      error := None;
    }

    method ReleaseSessionTabReservation(name: string)
      requires Separate()
      modifies sessions.Values
      ensures View() == AfterRelease(old(View()), name)
    {
      if name in sessions {
        var session := sessions[name];
        session.ReleaseReservation();
      }
    }

    method RegisterReservedSessionTab(name: string, tab: Tab, now: nat) returns (answer: Registration)
      requires Valid()
      modifies this`persistRequests, sessions.Values
      ensures answer == ReservedAnswer(old(View()), name, tab.targetId)
      ensures View() == AfterRegisterReserved(old(View()), name, tab, now)
      ensures persistRequests == old(persistRequests) + if answer.Registered? then 1 else 0
    {
      var owner := FindTargetOwner(tab.targetId);
      if name !in sessions {
        return Failed(SessionNotFound);
      }
      ghost var st := View();
      ReleaseSessionTabReservation(name);
      if owner.Some? {
        return if owner.value == name then AlreadyTracked else Failed(TargetAlreadyAttached);
      }
      InsertTabInto(name, tab, now);
      ReplacedTwice(st, name, st[name].(pending := Less1(st[name].pending)), View()[name]);
      answer := Registered;
    }

    method RegisterInitializedSessionTab(name: string, tab: Tab, now: nat) returns (answer: Registration)
      requires Valid()
      modifies this`persistRequests, sessions.Values
      ensures answer == InitializedAnswer(old(View()), name, tab.targetId)
      ensures View() == AfterRegister(old(View()), name, tab, now)
      ensures persistRequests == old(persistRequests) + if answer.Registered? then 1 else 0
    {
      var owner := FindTargetOwner(tab.targetId);
      if owner.Some? {
        return if owner.value == name then AlreadyTracked else Failed(TargetAlreadyAttached);
      }
      if name !in sessions {
        return Failed(SessionNotFound);
      }
      InsertTabInto(name, tab, now);
      answer := Registered;
    }

    method EndTasks(name: string, targetId: string)
      requires Separate()
      modifies console, dialogs, dialogs.tasks
      ensures console.View() == CancelKey(old(console.View()), (name, targetId))
      ensures dialogs.View() == CancelDialog(old(dialogs.View()), (name, targetId))
    {
      console.Cancel((name, targetId));
      dialogs.CancelSubscription(name, targetId);
    }

    method EndSessionTasks(name: string)
      requires Separate()
      modifies console, dialogs, dialogs.tasks
      ensures console.View() == CancelSession(old(console.View()), name)
      ensures dialogs.View() == CancelDialogs(old(dialogs.View()), name)
    {
      var keys := console.CancelAll(name);
      dialogs.CancelAllForSession(name);
    }

    /** Removes a tab from the session that owns it, with everything that follows. */
    method RemoveTabOf(name: string, targetId: string, now: nat) returns (tab: Tab, ghost fallback: Option<string>)
      requires Separate() && Owns(View(), name, targetId)
      modifies this`events, this`persistRequests, sessions.Values
      modifies console, dialogs, dialogs.tasks
      ensures tab == old(View())[name].tabs[targetId]
      ensures IsFallback(old(View())[name].tabs - {targetId}, fallback)
      ensures View() == old(View())[name := Removed(old(View())[name], targetId, fallback, now)]
      ensures console.View() == CancelKey(old(console.View()), (name, targetId))
      ensures dialogs.View() == CancelDialog(old(dialogs.View()), (name, targetId))
      ensures events == old(events) + [Destroyed(name, targetId)]
      ensures persistRequests == old(persistRequests) + 1
    {
      tab := sessions[name].tabs[targetId];
      fallback := TakeTab(name, targetId, now);
      EndTasks(name, targetId);
      Announce(Destroyed(name, targetId));
    }

    method TakeTab(name: string, targetId: string, now: nat) returns (ghost fallback: Option<string>)
      requires Separate() && name in sessions
      modifies sessions.Values
      ensures IsFallback(old(View())[name].tabs - {targetId}, fallback)
      ensures View() == old(View())[name := Removed(old(View())[name], targetId, fallback, now)]
    {
      var session := sessions[name];
      fallback := session.RemoveTab(targetId, now);
    }

    method RemoveSessionTab(targetId: string, now: nat)
      returns (removed: Option<(string, Tab)>, ghost fallback: Option<string>)
      requires Valid()
      modifies this`events, this`persistRequests, sessions.Values
      modifies console, dialogs, dialogs.tasks
      ensures RemoveFallback(old(View()), targetId, fallback)
      ensures View() == AfterRemove(old(View()), targetId, fallback, now)
      ensures match Owner(old(View()), targetId)
              case None =>
                && removed.None? && events == old(events) && persistRequests == old(persistRequests)
                && console.View() == old(console.View()) && dialogs.View() == old(dialogs.View())
              case Some(name) =>
                && console.View() == CancelKey(old(console.View()), (name, targetId))
                && dialogs.View() == CancelDialog(old(dialogs.View()), (name, targetId))
                && removed == Some((name, old(View())[name].tabs[targetId]))
                && events == old(events) + [Destroyed(name, targetId)]
                && persistRequests == old(persistRequests) + 1
    {
      var owner := FindTargetOwner(targetId);
      if owner.None? {
        return None, None;
      }
      var tab;
      tab, fallback := RemoveTabOf(owner.value, targetId, now);
      removed := Some((owner.value, tab));
    }

    method SetInfo(name: string, targetId: string, url: string, title: string, now: nat)
      requires Separate() && name in sessions && targetId in sessions[name].tabs
      modifies this`events, this`persistRequests, sessions.Values
      ensures View() == old(View())[name := WithInfo(old(View())[name], targetId, url, title, now)]
      ensures events == old(events) + [Updated(name, targetId, url, title)]
      ensures persistRequests == old(persistRequests) + 1
    {
      WriteInfo(name, targetId, url, title, now);
      Announce(Updated(name, targetId, url, title));
    }

    method WriteInfo(name: string, targetId: string, url: string, title: string, now: nat)
      requires Separate() && name in sessions && targetId in sessions[name].tabs
      modifies sessions.Values
      ensures View() == old(View())[name := WithInfo(old(View())[name], targetId, url, title, now)]
    {
      var session := sessions[name];
      session.SetTabInfo(targetId, url, title, now);
    }

    /** The second half of `update_session_tab_info`: `name` is the owner found before, which may be out of date. */
    method UpdateOwnedTab(name: string, targetId: string, url: string, title: string, now: nat) returns (changed: bool)
      requires Valid()
      modifies this`events, this`persistRequests, sessions.Values
      ensures View() == AfterUpdate(old(View()), name, targetId, url, title, now)
      ensures changed <==> Owns(old(View()), name, targetId) && Differs(old(View())[name].tabs[targetId], url, title)
      ensures events == old(events) + if changed then [Updated(name, targetId, url, title)] else []
      ensures persistRequests == old(persistRequests) + if changed then 1 else 0
    {
      if name !in sessions || targetId !in sessions[name].tabs {
        return false;
      }
      var tab := sessions[name].tabs[targetId];
      if tab.url == url && tab.title == title {
        return false;
      }
      SetInfo(name, targetId, url, title, now);
      changed := true;
    }
  }
}
