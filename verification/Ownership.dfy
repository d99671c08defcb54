/**
  Runs of the daemon: clients opening and attaching tabs, browser events, idle
  cleanup, disconnects and restores, interleaved in any way that the session
  lifecycle locks allow. An open holds its session's lock shared for as long as
  its reservation lives, and whoever creates, rebinds or removes a session holds
  the lock exclusively, so no reservation of that session is outstanding then.
 */
module Ownership {
  import opened Common
  import opened Sessions
  import opened Lifecycle
  import opened Strings

  datatype Action =
    | Reserve(name: string, max: nat)
    | Release(name: string)
    | RegisterReserved(name: string, tab: Tab, now: nat)
    | Register(name: string, tab: Tab, now: nat)
    | Remove(targetId: string, fallback: Option<string>, now: nat)
    | Update(name: string, targetId: string, url: string, title: string, now: nat)
    | Navigated(name: string, targetId: string, url: string, title: string, now: nat)
    | Touch(name: string, now: nat)
    | Disconnect(name: string)
    | Create(name: string, host: string, contextId: Option<string>, now: nat)
    | Rebind(name: string, rebound: Record)
    | Close(name: string)

  /**
    The sessions, and two things that no field records: how many reservations of
    a session are held, and how many of its tabs came without one since it was created.
   */
  datatype World = World(st: State, held: map<string, nat>, extra: map<string, nat>)

  function At(m: map<string, nat>, name: string): nat {
    if name in m then m[name] else 0
  }

  // ----- well-formed sessions -----

  /** The default session is the one named `default`; every other has a browser context of its own. */
  predicate ModeFits(name: string, mode: SessionMode, contextId: Option<string>) {
    if name == "default" then mode.Default? && contextId.None?
    else mode.Isolated? && contextId.Some? && Clean(contextId.value)
  }

  /** A well-formed session. Its name is whatever its client asked for. */
  predicate SessionOk(name: string, s: Record) {
    && s.name == name && Clean(s.host)
    && ModeFits(name, s.mode, s.contextId)
    && Coherent(s)
    && forall id :: id in s.tabs ==> TabOk(s.mode, id, s.tabs[id])
  }

  predicate TabOk(mode: SessionMode, id: string, tab: Tab) {
    Clean(id) && (mode.Isolated? ==> tab.ownership.Owned?)
  }

  ghost predicate Ok(st: State) {
    && (forall name :: name in st ==> SessionOk(name, st[name]))
    && UniqueOwners(st)
  }

  // ----- the actions -----

  /** A rebound session keeps its name and mode, and some of its tabs, attached again. */
  predicate RebindOk(s: Record, rebound: Record) {
    && rebound.name == s.name && rebound.mode == s.mode && rebound.pending == s.pending
    && Clean(rebound.host) && ModeFits(s.name, rebound.mode, rebound.contextId)
    && Coherent(rebound)
    && forall id :: id in rebound.tabs ==> id in s.tabs && rebound.tabs[id].ownership == s.tabs[id].ownership
  }

  ghost predicate Enabled(w: World, a: Action) {
    match a
    case Reserve(_, max) => max <= USIZE_MAX
    case Release(name) => At(w.held, name) > 0
    case RegisterReserved(name, tab, _) => At(w.held, name) > 0 && Clean(tab.targetId) && tab.ownership.Owned?
    case Register(name, tab, _) => Clean(tab.targetId) && (name in w.st ==> TabOk(w.st[name].mode, tab.targetId, tab))
    case Remove(targetId, fallback, _) => RemoveFallback(w.st, targetId, fallback)
    case Create(name, host, contextId, _) =>
      && name !in w.st && At(w.held, name) == 0 && Clean(host)
      && ModeFits(name, if name == "default" then Default else Isolated, contextId)
    case Rebind(name, rebound) => name in w.st && At(w.held, name) == 0 && RebindOk(w.st[name], rebound)
    case Close(name) => name in w.st && At(w.held, name) == 0 && w.st[name].mode.Isolated?
    case _ => true
  }

  /** What a registration is told. */
  ghost function Answer(w: World, a: Action): Registration
    requires a.RegisterReserved? || a.Register?
  {
    if a.RegisterReserved? then ReservedAnswer(w.st, a.name, a.tab.targetId)
    else InitializedAnswer(w.st, a.name, a.tab.targetId)
  }

  ghost function NextState(st: State, a: Action): State {
    match a
    case Reserve(name, max) => AfterReserve(st, name, max)
    case Release(name) => AfterRelease(st, name)
    case RegisterReserved(name, tab, now) => AfterRegisterReserved(st, name, tab, now)
    case Register(name, tab, now) => AfterRegister(st, name, tab, now)
    case Remove(targetId, fallback, now) => AfterRemove(st, targetId, fallback, now)
    case Update(name, targetId, url, title, now) => AfterUpdate(st, name, targetId, url, title, now)
    case Navigated(name, targetId, url, title, now) =>
      if Owns(st, name, targetId) then st[name := WithInfo(st[name], targetId, url, title, now)]
      else AfterTouch(st, name, now)
    case Touch(name, now) => AfterTouch(st, name, now)
    case Disconnect(name) => if name in st then st[name := st[name].(disconnected := true)] else st
    case Create(name, host, contextId, now) =>
      st[name := Fresh(name, if name == "default" then Default else Isolated, host, contextId, now)]
    case Rebind(name, rebound) => st[name := rebound]
    case Close(name) => st - {name}
  }

  ghost function AfterTouch(st: State, name: string, now: nat): State {
    if name in st then st[name := Touched(st[name], now)] else st
  }

  ghost function NextHeld(w: World, a: Action): map<string, nat>
    requires Enabled(w, a)
  {
    match a
    case Reserve(name, max) =>
      if ReserveError(w.st, name, max).None? then w.held[name := At(w.held, name) + 1] else w.held
    case Release(name) => w.held[name := At(w.held, name) - 1]
    case RegisterReserved(name, _, _) => w.held[name := At(w.held, name) - 1]
    case _ => w.held
  }

  ghost function NextExtra(w: World, a: Action): map<string, nat> {
    match a
    case Register(name, _, _) => if Answer(w, a).Registered? then w.extra[name := At(w.extra, name) + 1] else w.extra
    case Create(name, _, _, _) => w.extra[name := 0]
    case _ => w.extra
  }

  ghost function Next(w: World, a: Action): World
    requires Enabled(w, a)
  {
    World(NextState(w.st, a), NextHeld(w, a), NextExtra(w, a))
  }

  /** The daemon starts with the sessions it restored, whose tabs count as come without a reservation. */
  ghost predicate Initial(w: World) {
    && Ok(w.st) && w.held == map[]
    && forall name :: name in w.st ==> w.st[name].pending == 0 && At(w.extra, name) == |w.st[name].tabs|
  }

  ghost predicate IsRun(run: seq<World>, actions: seq<Action>) {
    && |run| == |actions| + 1 && Initial(run[0])
    && forall i :: 0 <= i < |actions| ==> Enabled(run[i], actions[i]) && run[i + 1] == Next(run[i], actions[i])
  }

  // ----- unique owners, tabs under their own key, a valid active target -----

  /** Replacing one session by another whose tabs it had, or nobody had, keeps everything well-formed. */
  lemma ReplaceKeeps(st: State, name: string, s: Record)
    requires Ok(st) && SessionOk(name, s)
    requires forall t, other :: t in s.tabs && Owns(st, other, t) ==> other == name
    ensures Ok(st[name := s])
  {
    var after := st[name := s];
    forall a, b, t | Owns(after, a, t) && Owns(after, b, t) ensures a == b {
      assert a != name ==> Owns(st, a, t);
      assert b != name ==> Owns(st, b, t);
    }
  }

  lemma ShrinkKeeps(st: State, name: string, s: Record)
    requires Ok(st) && name in st && SessionOk(name, s) && s.tabs.Keys <= st[name].tabs.Keys
    ensures Ok(st[name := s])
  {
    forall t, other | t in s.tabs && Owns(st, other, t) ensures other == name {
      assert Owns(st, name, t);
    }
    ReplaceKeeps(st, name, s);
  }

  lemma AddKeeps(st: State, name: string, s: Record, tab: Tab, now: nat)
    requires Ok(st) && name in st && s == st[name].(pending := s.pending)
    requires TabOk(s.mode, tab.targetId, tab) && Owner(st, tab.targetId).None?
    ensures Ok(st[name := Added(s, tab, now)])
  {
    AddedCoherent(s, tab, now);
    forall t, other | t in Added(s, tab, now).tabs && Owns(st, other, t) ensures other == name {
      assert t != tab.targetId && Owns(st, name, t);
    }
    ReplaceKeeps(st, name, Added(s, tab, now));
  }

  lemma RemoveKeeps(st: State, targetId: string, fallback: Option<string>, now: nat)
    requires Ok(st) && RemoveFallback(st, targetId, fallback)
    ensures Ok(AfterRemove(st, targetId, fallback, now))
  {
    match Owner(st, targetId)
    case None =>
    case Some(name) =>
      RemovedCoherent(st[name], targetId, fallback, now);
      ShrinkKeeps(st, name, Removed(st[name], targetId, fallback, now));
  }

  lemma InfoKeeps(st: State, name: string, targetId: string, url: string, title: string, now: nat)
    requires Ok(st) && Owns(st, name, targetId)
    ensures Ok(st[name := WithInfo(st[name], targetId, url, title, now)])
  {
    ShrinkKeeps(st, name, WithInfo(st[name], targetId, url, title, now));
  }

  lemma UpdateKeeps(st: State, name: string, targetId: string, url: string, title: string, now: nat)
    requires Ok(st)
    ensures Ok(AfterUpdate(st, name, targetId, url, title, now))
    ensures Owns(st, name, targetId) ==> Ok(st[name := WithInfo(st[name], targetId, url, title, now)])
  {
    if Owns(st, name, targetId) {
      InfoKeeps(st, name, targetId, url, title, now);
    }
  }

  lemma CloseKeeps(st: State, name: string)
    requires Ok(st)
    ensures Ok(st - {name})
  {
    forall a, b, t | Owns(st - {name}, a, t) && Owns(st - {name}, b, t) ensures a == b {
      assert Owns(st, a, t) && Owns(st, b, t);
    }
  }

  /** Replaces a session by one that differs only in fields no invariant reads. */
  lemma FieldsKeep(st: State, name: string, lastActive: nat, disconnected: bool, pending: nat)
    requires Ok(st) && name in st
    ensures Ok(st[name := st[name].(lastActive := lastActive, disconnected := disconnected, pending := pending)])
  {
    ShrinkKeeps(st, name, st[name].(lastActive := lastActive, disconnected := disconnected, pending := pending));
  }

  lemma ReservationKeeps(st: State, name: string, pending: nat)
    requires Ok(st) && name in st
    ensures Ok(st[name := st[name].(pending := pending)])
  {
    FieldsKeep(st, name, st[name].lastActive, st[name].disconnected, pending);
  }

  lemma TouchKeeps(st: State, name: string, now: nat)
    requires Ok(st)
    ensures Ok(AfterTouch(st, name, now))
  {
    if name in st {
      FieldsKeep(st, name, now, st[name].disconnected, st[name].pending);
    }
  }

  lemma RegisterKeeps(w: World, a: Action)
    requires Ok(w.st) && Enabled(w, a) && (a.RegisterReserved? || a.Register?)
    ensures Ok(NextState(w.st, a))
  {
    var st, name := w.st, a.name;
    if name in st {
      var pending := if a.RegisterReserved? then Less1(st[name].pending) else st[name].pending;
      var s := st[name].(pending := pending);
      if Owner(st, a.tab.targetId).None? {
        AddKeeps(st, name, s, a.tab, a.now);
      } else {
        ReservationKeeps(st, name, pending);
      }
    }
  }

  /** The steps that touch only fields no invariant reads. */
  lemma FieldStepKeeps(st: State, a: Action)
    requires Ok(st) && (a.Reserve? || a.Release? || a.Touch? || a.Disconnect?)
    ensures Ok(NextState(st, a))
  {
    match a
    case Reserve(name, max) =>
      if name in st {
        ReservationKeeps(st, name, Saturated(st[name].pending + 1));
      }
    case Release(name) =>
      if name in st {
        ReservationKeeps(st, name, Less1(st[name].pending));
      }
    case Touch(name, now) => TouchKeeps(st, name, now);
    case Disconnect(name) =>
      if name in st {
        FieldsKeep(st, name, st[name].lastActive, true, st[name].pending);
      }
  }

  lemma CreateKeeps(w: World, a: Action)
    requires Ok(w.st) && Enabled(w, a) && a.Create?
    ensures Ok(NextState(w.st, a))
  {
    var mode := if a.name == "default" then Default else Isolated;
    ReplaceKeeps(w.st, a.name, Fresh(a.name, mode, a.host, a.contextId, a.now));
  }

  lemma NextKeeps(w: World, a: Action)
    requires Ok(w.st) && Enabled(w, a)
    ensures Ok(NextState(w.st, a))
  {
    var st := w.st;
    match a
    case RegisterReserved(_, _, _) => RegisterKeeps(w, a);
    case Register(_, _, _) => RegisterKeeps(w, a);
    case Remove(targetId, fallback, now) => RemoveKeeps(st, targetId, fallback, now);
    case Update(name, targetId, url, title, now) => UpdateKeeps(st, name, targetId, url, title, now);
    case Navigated(name, targetId, url, title, now) =>
      UpdateKeeps(st, name, targetId, url, title, now);
      TouchKeeps(st, name, now);
    case Create(_, _, _, _) => CreateKeeps(w, a);
    case Rebind(name, rebound) => ShrinkKeeps(st, name, rebound);
    case Close(name) => CloseKeeps(st, name);
    case _ => FieldStepKeeps(st, a);
  }

  /**
    In every reachable state a target is in at most one session, each tab is
    filed under its own target, and the active target is a tracked tab, set
    whenever there are tabs.
   */
  lemma {:induction false} RunOk(run: seq<World>, actions: seq<Action>, n: nat)
    requires IsRun(run, actions) && n <= |actions|
    ensures Ok(run[n].st)
  {
    if n > 0 {
      RunOk(run, actions, n - 1);
      NextKeeps(run[n - 1], actions[n - 1]);
    }
  }
}
