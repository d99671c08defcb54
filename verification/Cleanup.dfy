/**
  Idle cleanup: a session that nobody used for too long has its tabs closed and
  its browser context disposed, and every one of those commands may fail.
 */
module Cleanup {
  import opened Common
  import opened Sessions
  import opened Subscriptions
  import opened Lifecycle
  import opened Ownership

  const U64_MAX: nat := 0xFFFF_FFFF_FFFF_FFFF

  datatype Result<T, E> = Ok(value: T) | Err(error: E)

  // ----- closing targets and disposing contexts -----

  datatype CloseRequest = CloseRequest(targetId: string, cdpSessionId: string, ownership: TabOwnership)

  datatype CloseAction = CloseTarget(targetId: string) | DetachFromTarget(cdpSessionId: string) | AlreadyDetached

  datatype CloseError = BrowserDisconnected(targetId: string) | CdpFailed(targetId: string)

  datatype DisposeError = DisposeDisconnected(session: string) | DisposeFailed(session: string)

  /** A connected browser: the commands it carries out and the contexts it disposes. */
  datatype Browser = Browser(obeys: set<CloseAction>, disposes: set<string>)

  function RequestFor(tab: Tab): CloseRequest {
    CloseRequest(tab.targetId, tab.cdpSessionId, tab.ownership)
  }

  /** An owned target is closed; an attached one is only let go. */
  function ActionFor(request: CloseRequest): CloseAction {
    match request.ownership
    case Owned => CloseTarget(request.targetId)
    case Attached => if request.cdpSessionId == "" then AlreadyDetached else DetachFromTarget(request.cdpSessionId)
  }

  function CloseSessionTarget(cdp: Option<Browser>, request: CloseRequest): Result<CloseAction, CloseError> {
    var action := ActionFor(request);
    if action.AlreadyDetached? then Ok(action)
    else if cdp.None? then Err(BrowserDisconnected(request.targetId))
    else if action in cdp.value.obeys then Ok(action)
    else Err(CdpFailed(request.targetId))
  }

  function DisposeContext(cdp: Option<Browser>, name: string, mode: SessionMode, contextId: Option<string>):
    Result<bool, DisposeError>
  {
    if mode.Default? || contextId.None? then Ok(false)
    else if cdp.None? then Err(DisposeDisconnected(name))
    else if contextId.value in cdp.value.disposes then Ok(true)
    else Err(DisposeFailed(name))
  }

  // ----- what a cleanup does to a session -----

  /** Saturating at zero. */
  predicate Expired(s: Record, now: nat, timeout: nat) {
    now >= s.lastActive && now - s.lastActive > timeout
  }

  function CdpOf(browsers: map<string, Browser>, s: Record): Option<Browser> {
    if s.host in browsers then Some(browsers[s.host]) else None
  }

  /** The tabs whose close action succeeds. */
  function ClosedTabs(cdp: Option<Browser>, s: Record): set<string> {
    set id | id in s.tabs && CloseSessionTarget(cdp, RequestFor(s.tabs[id])).Ok?
  }

  /**
    The session without some of its tabs, still coherent if it was; an active
    target that is still there stays active.
   */
  ghost predicate Shrunk(s: Record, after: Record, closed: set<string>) {
    && after == s.(tabs := s.tabs - closed, active := after.active, lastActive := after.lastActive)
    && (Coherent(s) ==> Coherent(after))
    && (s.active.Some? && s.active.value !in closed ==> after.active == s.active)
  }

  /** All tabs were closed and the browser context, if there is one of its own, was disposed. */
  predicate AllDone(cdp: Option<Browser>, s: Record) {
    ClosedTabs(cdp, s) == s.tabs.Keys && DisposeContext(cdp, s.name, s.mode, s.contextId).Ok?
  }

  /**
    What cleanup may do to a session: nothing unless it is still idle; drop
    exactly the tabs that were closed; and once all is done, remove it if it is
    isolated, or keep it, as just used, if it is the default one.
   */
  ghost predicate Cleaned(s: Record, after: Option<Record>, browsers: map<string, Browser>,
                          now: nat, timeout: nat, later: nat) {
    var cdp := CdpOf(browsers, s);
    if !Expired(s, now, timeout) then after == Some(s)
    else if AllDone(cdp, s) && s.mode.Isolated? then after.None?
    else
      && after.Some? && Shrunk(s, after.value, ClosedTabs(cdp, s))
      && after.value.lastActive == if AllDone(cdp, s) || ClosedTabs(cdp, s) != {} then later else s.lastActive
  }

  // ----- the tabs -----

  /** One tab of the plan leaves its session when its command succeeded. */
  method CloseTab(daemon: DaemonState, name: string, tab: Tab, cdp: Option<Browser>, later: nat,
                  ghost st: State, ghost current: Record)
    returns (ok: bool, ghost next: Record, ghost fallback: Option<string>)
    requires daemon.Valid() && daemon.View() == st[name := current] && tab.targetId in current.tabs
    modifies daemon`events, daemon`persistRequests, daemon.sessions.Values
    modifies daemon.console, daemon.dialogs, daemon.dialogs.tasks
    ensures daemon.Valid() && daemon.View() == st[name := next]
    ensures daemon.persistRequests >= old(daemon.persistRequests)
    ensures ok == CloseSessionTarget(cdp, RequestFor(tab)).Ok?
    ensures !ok ==> next == current
    ensures ok ==> next == Removed(current, tab.targetId, fallback, later)
                   && IsFallback(current.tabs - {tab.targetId}, fallback)
  {
    next, fallback := current, None;
    var outcome := CloseSessionTarget(cdp, RequestFor(tab));
    ok := outcome.Ok?;
    if ok {
      OneMoreClosed(st, name, current, tab.targetId);
      var removed;
      removed, fallback := daemon.RemoveSessionTab(tab.targetId, later);
      next := Removed(current, tab.targetId, fallback, later);
      assert st[name := current][name := next] == st[name := next];
    }
  }

  /** Closes the tabs of the plan, in any order. */
  method CloseTabs(daemon: DaemonState, name: string, tabs: map<string, Tab>, cdp: Option<Browser>, later: nat)
    returns (success: bool, ghost after: Record)
    requires daemon.Valid() && name in daemon.sessions && tabs == daemon.View()[name].tabs
    requires forall id :: id in tabs ==> tabs[id].targetId == id
    modifies daemon`events, daemon`persistRequests, daemon.sessions.Values
    modifies daemon.console, daemon.dialogs, daemon.dialogs.tasks
    ensures daemon.Valid() && daemon.View() == old(daemon.View())[name := after]
    ensures daemon.persistRequests >= old(daemon.persistRequests)
    ensures var s := old(daemon.View())[name];
            && success == (ClosedTabs(cdp, s) == s.tabs.Keys)
            && Shrunk(s, after, ClosedTabs(cdp, s))
            && after.lastActive == if ClosedTabs(cdp, s) != {} then later else s.lastActive
  {
    ghost var st, s := daemon.View(), daemon.View()[name];
    ghost var closed: set<string> := {};
    assert st == st[name := s] && s.tabs - closed == s.tabs;
    after := s;
    var left := tabs.Keys;
    success := true;
    while left != {}
      invariant Progress(cdp, s, left, closed, success)
      invariant daemon.Valid() && daemon.View() == st[name := after] && Shrunk(s, after, closed)
      invariant daemon.persistRequests >= old(daemon.persistRequests)
      invariant after.lastActive == if closed != {} then later else s.lastActive
    {
      var id :| id in left;
      ghost var before := after;
      var ok;
      ghost var fallback;
      ok, after, fallback := CloseTab(daemon, name, tabs[id], cdp, later, st, after);
      ProgressStep(cdp, s, left, closed, success, id);
      left := left - {id};
      if ok {
        ShrunkMore(s, before, closed, id, fallback, later);
        closed := closed + {id};
      } else {
        success := false;
      }
    }
    ProgressEnd(cdp, s, closed, success);
  }

  /** Where the loop stands when the tabs in `left` have not been tried yet. */
  ghost predicate Progress(cdp: Option<Browser>, s: Record, left: set<string>, closed: set<string>, success: bool) {
    && left <= s.tabs.Keys && closed == ClosedTabs(cdp, s) - left
    && success == (s.tabs.Keys - left <= ClosedTabs(cdp, s))
  }

  lemma ProgressStep(cdp: Option<Browser>, s: Record, left: set<string>, closed: set<string>, success: bool, id: string)
    requires Progress(cdp, s, left, closed, success) && id in left
    ensures var ok := CloseSessionTarget(cdp, RequestFor(s.tabs[id])).Ok?;
            Progress(cdp, s, left - {id}, if ok then closed + {id} else closed, success && ok)
  {
    var rest := s.tabs.Keys - (left - {id});
    assert rest == (s.tabs.Keys - left) + {id};
  }

  lemma ProgressEnd(cdp: Option<Browser>, s: Record, closed: set<string>, success: bool)
    requires Progress(cdp, s, {}, closed, success)
    ensures closed == ClosedTabs(cdp, s) && success == (ClosedTabs(cdp, s) == s.tabs.Keys)
  {
    assert ClosedTabs(cdp, s) - {} == ClosedTabs(cdp, s) && s.tabs.Keys - {} == s.tabs.Keys;
  }

  lemma OneMoreClosed(st: State, name: string, current: Record, id: string)
    requires UniqueOwners(st[name := current]) && id in current.tabs
    ensures Owner(st[name := current], id) == Some(name)
    ensures forall fallback, now :: UniqueOwners(st[name := Removed(current, id, fallback, now)])
  {
    OwnerIs(st[name := current], name, id);
    forall fallback, now ensures UniqueOwners(st[name := Removed(current, id, fallback, now)]) {
      var after := st[name := Removed(current, id, fallback, now)];
      forall a, b, t | Owns(after, a, t) && Owns(after, b, t) ensures a == b {
        assert Owns(st[name := current], a, t) && Owns(st[name := current], b, t);
      }
    }
  }

  lemma ShrunkMore(s: Record, current: Record, closed: set<string>, id: string, fallback: Option<string>, now: nat)
    requires Shrunk(s, current, closed) && IsFallback(current.tabs - {id}, fallback)
    ensures Shrunk(s, Removed(current, id, fallback, now), closed + {id})
  {
    assert s.tabs - closed - {id} == s.tabs - (closed + {id});
    if Coherent(current) {
      RemovedCoherent(current, id, fallback, now);
    }
  }

  // ----- a session, and all of them -----

  /** The session was idle and everything about it could be closed. */
  predicate Finishes(s: Record, browsers: map<string, Browser>, now: nat, timeout: nat) {
    Expired(s, now, timeout) && AllDone(CdpOf(browsers, s), s)
  }

  ghost predicate NoTaskOf(t: Tasks, name: string) {
    forall key :: key in t.tokens ==> key.0 != name
  }

  /**
    The plan is made under the session's lifecycle lock, so a session that was
    used in the meantime is left alone.
   */
  method CleanupSession(daemon: DaemonState, name: string, browsers: map<string, Browser>,
                        now: nat, timeout: nat, later: nat)
    returns (changed: bool, ghost after: Option<Record>)
    requires daemon.Valid() && (name in daemon.View() ==> SessionOk(name, daemon.View()[name]))
    modifies daemon`sessions, daemon`events, daemon`persistRequests, daemon.sessions.Values
    modifies daemon.console, daemon.dialogs, daemon.dialogs.tasks
    ensures daemon.Valid()
    ensures daemon.sessions.Values <= old(daemon.sessions.Values)
    ensures daemon.persistRequests >= old(daemon.persistRequests)
    ensures after.None? && name in old(daemon.View()) ==> NoTaskOf(daemon.dialogs.View().tasks, name)
    ensures daemon.View() == Put(old(daemon.View()), name, after)
    ensures match Get(old(daemon.View()), name)
            case None => after.None? && !changed
            case Some(s) =>
              && Cleaned(s, after, browsers, now, timeout, later)
              && changed == Finishes(s, browsers, now, timeout)
  {
    ghost var st := daemon.View();
    PutSame(st, name);
    if name !in daemon.sessions || !Expired(daemon.sessions[name].View(), now, timeout) {
      return false, Get(st, name);
    }
    var s := daemon.sessions[name].View();
    var cdp := CdpOf(browsers, s);
    var success;
    ghost var shrunk;
    success, shrunk := CloseTabs(daemon, name, s.tabs, cdp, later);
    if success {
      var disposed := DisposeContext(cdp, name, s.mode, s.contextId);
      success := disposed.Ok?;
    }
    changed := success;
    after := Some(shrunk);
    if success {
      if s.mode.Default? {
        KeepDefault(daemon, name, later, st, shrunk);
        after := Some(Touched(shrunk, later));
      } else {
        DropIsolated(daemon, name, st, shrunk);
        after := None;
      }
    }
  }

  /** The default session counts as used. */
  method KeepDefault(daemon: DaemonState, name: string, later: nat, ghost st: State, ghost shrunk: Record)
    requires daemon.Valid() && daemon.View() == st[name := shrunk]
    modifies daemon.sessions.Values
    ensures daemon.Valid() && daemon.View() == Put(st, name, Some(Touched(shrunk, later)))
  {
    PutTouched(st, name, shrunk, later);
    daemon.TouchSession(name, later);
  }

  /** An isolated session goes, with its dialog tasks. */
  method DropIsolated(daemon: DaemonState, name: string, ghost st: State, ghost shrunk: Record)
    requires daemon.Valid() && daemon.View() == st[name := shrunk]
    modifies daemon`sessions, daemon.dialogs, daemon.dialogs.tasks
    ensures daemon.Valid() && daemon.View() == Put(st, name, None)
    ensures daemon.sessions.Values <= old(daemon.sessions.Values)
    ensures NoTaskOf(daemon.dialogs.View().tasks, name)
  {
    PutNone(st, name, shrunk);
    SessionCancelled(daemon.dialogs.View().tasks, name);
    daemon.dialogs.CancelAllForSession(name);
    assert daemon.View() == st[name := shrunk];
    daemon.DropSession(name);
  }

  lemma PutSame(st: State, name: string)
    ensures Put(st, name, Get(st, name)) == st
  {
  }

  lemma PutNone(st: State, name: string, s: Record)
    requires UniqueOwners(st[name := s])
    ensures UniqueOwners(Put(st, name, None)) && st[name := s] - {name} == Put(st, name, None)
  {
    forall a, b, t | Owns(Put(st, name, None), a, t) && Owns(Put(st, name, None), b, t) ensures a == b {
      assert Owns(st[name := s], a, t) && Owns(st[name := s], b, t);
    }
  }

  lemma PutTouched(st: State, name: string, s: Record, later: nat)
    requires UniqueOwners(st[name := s])
    ensures var touched := Put(st, name, Some(Touched(s, later)));
            UniqueOwners(touched) && st[name := s][name := Touched(s, later)] == touched
  {
    var touched := Put(st, name, Some(Touched(s, later)));
    forall a, b, t | Owns(touched, a, t) && Owns(touched, b, t) ensures a == b {
      assert Owns(st[name := s], a, t) && Owns(st[name := s], b, t);
    }
  }

  /** The state with one session replaced or removed. */
  ghost function Put(st: State, name: string, s: Option<Record>): State {
    match s
    case None => st - {name}
    case Some(record) => st[name := record]
  }

  /** Each session has been cleaned, or is as it was if its turn has not come. */
  ghost predicate CleanedSoFar(st: State, current: State, done: set<string>, browsers: map<string, Browser>,
                               now: nat, timeout: nat, later: nat) {
    && current.Keys <= st.Keys
    && forall name :: name in st ==>
         if name in done then Cleaned(st[name], Get(current, name), browsers, now, timeout, later)
         else Get(current, name) == Some(st[name])
  }

  function TimeoutSeconds(hours: nat): nat {
    if hours * 3600 <= U64_MAX then hours * 3600 else U64_MAX
  }

  method CleanNext(daemon: DaemonState, name: string, browsers: map<string, Browser>,
                   now: nat, timeout: nat, later: nat, ghost st: State, ghost current: State, ghost done: set<string>)
    returns (changed: bool, ghost next: State)
    requires Ownership.Ok(st) && name in st && name !in done
    requires daemon.Valid() && daemon.View() == current
    requires CleanedSoFar(st, current, done, browsers, now, timeout, later)
    modifies daemon`sessions, daemon`events, daemon`persistRequests, daemon.sessions.Values
    modifies daemon.console, daemon.dialogs, daemon.dialogs.tasks
    ensures daemon.Valid() && daemon.View() == next
    ensures daemon.sessions.Values <= old(daemon.sessions.Values)
    ensures daemon.persistRequests >= old(daemon.persistRequests)
    ensures changed == Finishes(st[name], browsers, now, timeout)
    ensures CleanedSoFar(st, next, done + {name}, browsers, now, timeout, later)
  {
    assert Get(current, name) == Some(st[name]);
    ghost var after;
    changed, after := CleanupSession(daemon, name, browsers, now, timeout, later);
    CleanedMore(st, current, done, name, after, browsers, now, timeout, later);
    next := Put(current, name, after);
  }

  ghost function ExpiredIn(st: State, now: nat, timeout: nat): set<string> {
    set name | name in st && Expired(st[name], now, timeout)
  }

  method ExpiredNames(daemon: DaemonState, now: nat, timeout: nat) returns (names: set<string>)
    ensures names == ExpiredIn(daemon.View(), now, timeout)
  {
    names := set name | name in daemon.sessions && Expired(daemon.sessions[name].View(), now, timeout);
  }

  /** Sessions that were not idle count as cleaned as they are. */
  lemma RestUntouched(st: State, current: State, names: set<string>, browsers: map<string, Browser>,
                      now: nat, timeout: nat, later: nat)
    requires CleanedSoFar(st, current, names, browsers, now, timeout, later)
    requires names == ExpiredIn(st, now, timeout)
    ensures CleanedSoFar(st, current, st.Keys, browsers, now, timeout, later)
  {
  }

  /** The sessions of the list, one after the other, in any order. */
  method CleanupListed(daemon: DaemonState, names: set<string>, browsers: map<string, Browser>,
                       now: nat, timeout: nat, later: nat, ghost st: State)
    returns (changed: bool, ghost current: State)
    requires daemon.Valid() && daemon.View() == st && Ownership.Ok(st) && names <= st.Keys
    modifies daemon`sessions, daemon`events, daemon`persistRequests, daemon.sessions.Values
    modifies daemon.console, daemon.dialogs, daemon.dialogs.tasks
    ensures daemon.Valid() && daemon.View() == current
    ensures CleanedSoFar(st, current, names, browsers, now, timeout, later)
    ensures daemon.persistRequests >= old(daemon.persistRequests)
    ensures changed == exists name :: name in names && Finishes(st[name], browsers, now, timeout)
  {
    current := st;
    changed := false;
    var done: set<string> := {};
    while names - done != {}
      invariant done <= names
      invariant daemon.Valid() && daemon.View() == current
      invariant daemon.sessions.Values <= old(daemon.sessions.Values)
      invariant daemon.persistRequests >= old(daemon.persistRequests)
      invariant CleanedSoFar(st, current, done, browsers, now, timeout, later)
      invariant changed == exists name :: name in done && Finishes(st[name], browsers, now, timeout)
      decreases names - done
    {
      var name :| name in names - done;
      var thisChanged;
      thisChanged, current := CleanNext(daemon, name, browsers, now, timeout, later, st, current, done);
      changed := changed || thisChanged;
      done := done + {name};
    }
    assert done == names;
  }

  /**
    One round of cleanup. The sessions are listed first and then taken one at a
    time, each under its own lock; `CleanupSession` says what happens to each in
    whatever state the other actors leave in between.
   */
  method CleanupExpiredSessions(daemon: DaemonState, browsers: map<string, Browser>, now: nat, hours: nat, later: nat)
    requires daemon.Valid() && Ownership.Ok(daemon.View())
    modifies daemon`sessions, daemon`events, daemon`persistRequests, daemon.sessions.Values
    modifies daemon.console, daemon.dialogs, daemon.dialogs.tasks
    ensures daemon.Valid()
    ensures var before := old(daemon.View());
            if hours == 0 then daemon.View() == before
            else CleanedSoFar(before, daemon.View(), before.Keys, browsers, now, TimeoutSeconds(hours), later)
    ensures var before := old(daemon.View());
            hours > 0 && (exists name :: name in before && Finishes(before[name], browsers, now, TimeoutSeconds(hours)))
            ==> daemon.persistRequests > old(daemon.persistRequests)
  {
    var timeout := TimeoutSeconds(hours);
    if timeout == 0 {
      return;
    }
    ghost var st := daemon.View();
    var names := ExpiredNames(daemon, now, timeout);
    assert names <= st.Keys;
    var changed;
    ghost var current;
    changed, current := CleanupListed(daemon, names, browsers, now, timeout, later, st);
    RestUntouched(st, current, names, browsers, now, timeout, later);
    assert forall name :: name in st && Finishes(st[name], browsers, now, timeout) ==> name in names;
    NotifyChanged(daemon, changed);
  }

  method NotifyChanged(daemon: DaemonState, changed: bool)
    modifies daemon`persistRequests
    ensures daemon.View() == old(daemon.View())
    ensures daemon.persistRequests == old(daemon.persistRequests) + if changed then 1 else 0
  {
    if changed {
      daemon.RequestPersist();
    }
  }

  lemma CleanedMore(st: State, current: State, done: set<string>, name: string, after: Option<Record>,
                    browsers: map<string, Browser>, now: nat, timeout: nat, later: nat)
    requires CleanedSoFar(st, current, done, browsers, now, timeout, later)
    requires name in st && Cleaned(st[name], after, browsers, now, timeout, later)
    ensures CleanedSoFar(st, Put(current, name, after), done + {name}, browsers, now, timeout, later)
  {
  }

  // ----- what cleanup keeps -----

  lemma ShrunkOk(name: string, s: Record, after: Record, closed: set<string>)
    requires SessionOk(name, s) && Shrunk(s, after, closed)
    ensures SessionOk(name, after) && after.tabs.Keys <= s.tabs.Keys
  {
    forall id | id in after.tabs ensures TabOk(after.mode, id, after.tabs[id]) {
      assert TabOk(s.mode, id, s.tabs[id]);
    }
  }

  /** A session that is gone was idle, and everything about it could be closed. */
  ghost predicate Finished(s: Record, browsers: map<string, Browser>, now: nat, timeout: nat) {
    && s.mode.Isolated? && now > s.lastActive + timeout
    && s.host in browsers && s.contextId.Some? && s.contextId.value in browsers[s.host].disposes
    && forall id :: id in s.tabs ==> LetGo(Some(browsers[s.host]), s.tabs[id])
  }

  lemma GoneIsFinished(name: string, s: Record, browsers: map<string, Browser>, now: nat, timeout: nat, later: nat)
    requires SessionOk(name, s) && Cleaned(s, None, browsers, now, timeout, later)
    ensures Finished(s, browsers, now, timeout)
  {
    var cdp := CdpOf(browsers, s);
    IdleIsGone(s, None, browsers, now, timeout, later);
    forall id | id in s.tabs ensures LetGo(cdp, s.tabs[id]) {
      assert id !in Kept(cdp, s.tabs);
    }
  }

  /**
    Whatever fails, a round of cleanup leaves the daemon well-formed; the default
    session is still there, and an isolated one is gone only if it was idle, all
    its tabs were closed and its context was disposed.
   */
  lemma CleanupKeeps(st: State, after: State, browsers: map<string, Browser>, now: nat, timeout: nat, later: nat)
    requires Ownership.Ok(st) && CleanedSoFar(st, after, st.Keys, browsers, now, timeout, later)
    ensures Ownership.Ok(after)
    ensures forall name :: name in st && name !in after ==> Finished(st[name], browsers, now, timeout)
  {
    forall name | name in after ensures SessionOk(name, after[name]) && after[name].tabs.Keys <= st[name].tabs.Keys {
      CleanedOk(st, after, name, browsers, now, timeout, later);
    }
    forall a, b, t | Owns(after, a, t) && Owns(after, b, t) ensures a == b {
      assert Owns(st, a, t) && Owns(st, b, t);
    }
    forall name | name in st && name !in after ensures Finished(st[name], browsers, now, timeout) {
      assert Cleaned(st[name], Get(after, name), browsers, now, timeout, later);
      GoneIsFinished(name, st[name], browsers, now, timeout, later);
    }
  }

  // ----- what cleanup does, in terms of instants and commands -----

  /**
    The browser carried out what lets the tab go: an owned target is closed, an
    attached one is only detached, and nothing is needed without a CDP session.
   */
  predicate LetGo(cdp: Option<Browser>, tab: Tab) {
    match tab.ownership
    case Owned => cdp.Some? && CloseTarget(tab.targetId) in cdp.value.obeys
    case Attached => tab.cdpSessionId == "" || (cdp.Some? && DetachFromTarget(tab.cdpSessionId) in cdp.value.obeys)
  }

  lemma LetGoIs(cdp: Option<Browser>, tab: Tab)
    ensures CloseSessionTarget(cdp, RequestFor(tab)).Ok? <==> LetGo(cdp, tab)
  {
  }

  /**
    An owned target is closed, an attached one detached; without a browser, and
    when the browser does not obey, the failure names the target.
   */
  lemma CloseDoes(cdp: Option<Browser>, tab: Tab)
    ensures var action := if tab.ownership.Owned? then CloseTarget(tab.targetId)
                          else DetachFromTarget(tab.cdpSessionId);
            CloseSessionTarget(cdp, RequestFor(tab)) ==
              if tab.ownership.Attached? && tab.cdpSessionId == "" then Ok(AlreadyDetached)
              else if cdp.None? then Err(BrowserDisconnected(tab.targetId))
              else if action in cdp.value.obeys then Ok(action)
              else Err(CdpFailed(tab.targetId))
  {
  }

  /** Only a context of the session's own is disposed of; a failure names the session. */
  lemma DisposeDoes(cdp: Option<Browser>, name: string, mode: SessionMode, contextId: Option<string>)
    ensures DisposeContext(cdp, name, mode, contextId) ==
            if mode.Default? || contextId.None? then Ok(false)
            else if cdp.None? then Err(DisposeDisconnected(name))
            else if contextId.value in cdp.value.disposes then Ok(true)
            else Err(DisposeFailed(name))
  {
  }

  /** The tabs that nothing lets go. */
  function Kept(cdp: Option<Browser>, tabs: map<string, Tab>): map<string, Tab> {
    map id | id in tabs && !LetGo(cdp, tabs[id]) :: tabs[id]
  }

  lemma KeptIs(cdp: Option<Browser>, s: Record)
    ensures s.tabs - ClosedTabs(cdp, s) == Kept(cdp, s.tabs)
    ensures ClosedTabs(cdp, s) == s.tabs.Keys <==> Kept(cdp, s.tabs) == map[]
    ensures ClosedTabs(cdp, s) == {} <==> Kept(cdp, s.tabs) == s.tabs
  {
    forall id | id in s.tabs ensures id in ClosedTabs(cdp, s) <==> LetGo(cdp, s.tabs[id]) {
      LetGoIs(cdp, s.tabs[id]);
    }
    if ClosedTabs(cdp, s) == s.tabs.Keys {
      assert forall id :: id in s.tabs ==> LetGo(cdp, s.tabs[id]);
      assert Kept(cdp, s.tabs) == map[];
    }
    if Kept(cdp, s.tabs) == map[] {
      forall id | id in s.tabs ensures id in ClosedTabs(cdp, s) {
        assert id !in Kept(cdp, s.tabs);
      }
    }
    if Kept(cdp, s.tabs) == s.tabs {
      forall id | id in s.tabs ensures id !in ClosedTabs(cdp, s) {
        assert id in Kept(cdp, s.tabs);
      }
    }
  }

  /** The session has no browser context of its own, or the browser disposes of it. */
  predicate Disposed(cdp: Option<Browser>, s: Record) {
    s.mode.Default? || s.contextId.None? || (cdp.Some? && s.contextId.value in cdp.value.disposes)
  }

  /** A session that was used no longer ago than the timeout is left as it is. */
  lemma UsedIsSpared(s: Record, after: Option<Record>, browsers: map<string, Browser>,
                     now: nat, timeout: nat, later: nat, used: nat)
    requires Cleaned(s.(lastActive := used), after, browsers, now, timeout, later) && now <= used + timeout
    ensures after == Some(s.(lastActive := used))
  {
  }

  /** One that was not is gone if it is isolated, every tab is let go and its context is disposed of. */
  lemma IdleIsGone(s: Record, after: Option<Record>, browsers: map<string, Browser>,
                   now: nat, timeout: nat, later: nat)
    requires Cleaned(s, after, browsers, now, timeout, later)
    ensures var cdp := if s.host in browsers then Some(browsers[s.host]) else None;
            after.None? <==>
              && now > s.lastActive + timeout && s.mode.Isolated?
              && Kept(cdp, s.tabs) == map[] && Disposed(cdp, s)
  {
    KeptIs(CdpOf(browsers, s), s);
  }

  /**
    Any other idle session keeps exactly the tabs that nothing lets go, and acts
    on the same tab if that is one of them. It counts as used if a tab was let
    go, or if it is the default one and has no tab left.
   */
  lemma IdleIsStripped(s: Record, after: Option<Record>, browsers: map<string, Browser>,
                       now: nat, timeout: nat, later: nat)
    requires Cleaned(s, after, browsers, now, timeout, later) && now > s.lastActive + timeout && after.Some?
    ensures var cdp := if s.host in browsers then Some(browsers[s.host]) else None;
            var kept := Kept(cdp, s.tabs);
            && after.value == s.(tabs := kept, active := after.value.active, lastActive :=
                 if kept != s.tabs || (s.mode.Default? && kept == map[]) then later else s.lastActive)
            && (s.active.Some? && s.active.value in kept ==> after.value.active == s.active)
            && (Coherent(s) ==> Coherent(after.value))
  {
    var cdp := CdpOf(browsers, s);
    KeptIs(cdp, s);
    if s.active.Some? && s.active.value in Kept(cdp, s.tabs) {
      assert s.active.value !in ClosedTabs(cdp, s);
    }
    if AllDone(cdp, s) {
      assert s.mode.Default?;
    }
  }

  /** Only then is a change reported, which asks for the sessions to be written. */
  lemma FinishesMeans(s: Record, browsers: map<string, Browser>, now: nat, timeout: nat)
    ensures var cdp := if s.host in browsers then Some(browsers[s.host]) else None;
            Finishes(s, browsers, now, timeout)
            <==> now > s.lastActive + timeout && Kept(cdp, s.tabs) == map[] && Disposed(cdp, s)
  {
    KeptIs(CdpOf(browsers, s), s);
  }

  /** The timeout is given in hours, and is the largest number of seconds at most. */
  lemma TimeoutIs(hours: nat)
    ensures TimeoutSeconds(hours)
            == if 3600 * hours <= 0xFFFF_FFFF_FFFF_FFFF then 3600 * hours else 0xFFFF_FFFF_FFFF_FFFF
  {
  }

  /** A tab that a cleaned session no longer has was let go. */
  lemma LeftIsLetGo(s: Record, after: Option<Record>, browsers: map<string, Browser>,
                    now: nat, timeout: nat, later: nat, id: string)
    requires Cleaned(s, after, browsers, now, timeout, later)
    requires id in s.tabs && (after.None? || id !in after.value.tabs)
    ensures LetGo(CdpOf(browsers, s), s.tabs[id])
  {
    assert id in ClosedTabs(CdpOf(browsers, s), s);
    LetGoIs(CdpOf(browsers, s), s.tabs[id]);
  }

  /** A tab leaves its session only if its command succeeded. */
  lemma OnlyClosedTabsLeave(st: State, after: State, browsers: map<string, Browser>, now: nat, timeout: nat, later: nat,
                            name: string, id: string)
    requires CleanedSoFar(st, after, st.Keys, browsers, now, timeout, later)
    requires Owns(st, name, id) && !Owns(after, name, id)
    ensures LetGo(CdpOf(browsers, st[name]), st[name].tabs[id])
  {
    LeftIsLetGo(st[name], Get(after, name), browsers, now, timeout, later, id);
  }

  lemma CleanedOk(st: State, after: State, name: string, browsers: map<string, Browser>,
                  now: nat, timeout: nat, later: nat)
    requires Ownership.Ok(st) && CleanedSoFar(st, after, st.Keys, browsers, now, timeout, later) && name in after
    ensures name in st && SessionOk(name, after[name]) && after[name].tabs.Keys <= st[name].tabs.Keys
  {
    var s := st[name];
    assert Cleaned(s, Some(after[name]), browsers, now, timeout, later);
    if Expired(s, now, timeout) {
      ShrunkOk(name, s, after[name], ClosedTabs(CdpOf(browsers, s), s));
    }
  }
}
