/**
  CDP sessions attached by the daemon: when a browser reports a new target, and
  when a session's tabs are attached again after a restart or a lost connection.
  Whether a target can be attached and initialised is up to the browser.
 */
module Attach {
  import opened Common
  import opened Strings
  import opened Sessions
  import opened Lifecycle
  import opened Ownership

  /**
    The targets that the browser attaches, with the CDP session each gets, and
    those that can then be initialised; and every CDP session that it attached
    and every one that was asked to detach.
   */
  class Cdp {
    const attaches: map<string, string>
    const initialises: set<string>
    var attached: seq<string>
    var detached: seq<string>

    method AttachToTarget(targetId: string) returns (r: Option<string>)
      modifies this`attached
      ensures r == if targetId in attaches then Some(attaches[targetId]) else None
      ensures attached == old(attached) + NewlyAttached(targetId)
    {
      if targetId !in attaches {
        return None;
      }
      attached := attached + [attaches[targetId]];
      r := Some(attaches[targetId]);
    }

    /** Subscribes to console and dialog events and enables the domains. */
    method PrepareSubscriptions(targetId: string) returns (ok: bool)
      ensures ok <==> targetId in initialises
    {
      ok := targetId in initialises;
    }

    /** One attempt, whatever comes of it. */
    method Detach(sessionId: string)
      modifies this`detached
      ensures detached == old(detached) + [sessionId]
    {
      detached := detached + [sessionId];
    }

    /** The target can be attached and initialised. */
    predicate Accepts(targetId: string) {
      targetId in attaches && targetId in initialises
    }

    /** The CDP sessions that trying to attach and initialise a target adds to those attached. */
    function NewlyAttached(targetId: string): seq<string> {
      if targetId in attaches then [attaches[targetId]] else []
    }

    /** One that cannot be initialised is asked to detach. */
    function NewlyDetached(targetId: string): seq<string> {
      if targetId in attaches && targetId !in initialises then [attaches[targetId]] else []
    }

    method AttachAndInitialise(targetId: string) returns (sessionId: Option<string>)
      modifies this`attached, this`detached
      ensures sessionId == if Accepts(targetId) then Some(attaches[targetId]) else None
      ensures attached == old(attached) + NewlyAttached(targetId)
      ensures detached == old(detached) + NewlyDetached(targetId)
    {
      sessionId := AttachToTarget(targetId);
      if sessionId.None? {
        return;
      }
      var ok := PrepareSubscriptions(targetId);
      if !ok {
        Detach(sessionId.value);
        sessionId := None;
      }
    }
  }

  // ----- a target that the browser reports -----

  datatype TargetInfo = TargetInfo(targetId: string, kind: string, url: string, title: string,
                                   openerId: Option<string>, contextId: Option<string>)

  /** The first look at a created target, before the session's lifecycle lock is taken. */
  method LookUpCreated(daemon: DaemonState, host: string, info: TargetInfo) returns (name: Option<string>)
    requires daemon.Valid()
    ensures name == if info.kind == "page" then CreatedIn(daemon.View(), host, info.openerId, info.contextId) else None
  {
    if info.kind != "page" {
      return None;
    }
    name := daemon.SessionForCreatedTarget(host, info.openerId, info.contextId);
  }

  /** The session to which a created page belongs, unless its target is tracked already. */
  ghost function TracksCreated(st: State, host: string, info: TargetInfo): Option<string> {
    if Owner(st, info.targetId).None? then CreatedIn(st, host, info.openerId, info.contextId) else None
  }

  /** The second look, under the lock: the session must still be the one found before. */
  method StillTracks(daemon: DaemonState, host: string, info: TargetInfo, name: string) returns (ok: bool)
    requires daemon.Valid()
    ensures ok <==> TracksCreated(daemon.View(), host, info) == Some(name)
  {
    var again := daemon.SessionForCreatedTarget(host, info.openerId, info.contextId);
    if again != Some(name) {
      return false;
    }
    var owner := daemon.FindTargetOwner(info.targetId);
    ok := owner.None?;
  }

  lemma Untracked(st: State, targetId: string)
    ensures Owner(st, targetId).None? <==> forall n :: n in st ==> targetId !in st[n].tabs
  {
    if Owner(st, targetId).None? {
      forall n | n in st ensures targetId !in st[n].tabs {
        assert !Owns(st, n, targetId);
      }
    } else {
      assert Owns(st, Owner(st, targetId).value, targetId);
    }
  }

  /**
    The handler of a created target from the second look up to its registration,
    in whatever state the other actors have left the daemon since the first. What
    they do while the target is being attached plays no part until the
    registration. A CDP session that cannot be initialised is detached.
   */
  method BeginTargetCreated(daemon: DaemonState, host: string, cdp: Cdp, info: TargetInfo, name: string)
    returns (tracked: Option<Tab>)
    requires daemon.Valid()
    modifies cdp`attached, cdp`detached
    ensures if && CreatedIn(daemon.View(), host, info.openerId, info.contextId) == Some(name)
               && (forall n :: n in daemon.View() ==> info.targetId !in daemon.View()[n].tabs)
            then
              && cdp.attached == old(cdp.attached) + cdp.NewlyAttached(info.targetId)
              && cdp.detached == old(cdp.detached) + cdp.NewlyDetached(info.targetId)
              && tracked == if cdp.Accepts(info.targetId)
                            then Some(Tab(info.targetId, info.url, info.title, cdp.attaches[info.targetId], Owned))
                            else None
            else
              tracked.None? && cdp.attached == old(cdp.attached) && cdp.detached == old(cdp.detached)
  {
    var ok := StillTracks(daemon, host, info, name);
    Untracked(daemon.View(), info.targetId);
    if !ok {
      return None;
    }
    var sessionId := cdp.AttachAndInitialise(info.targetId);
    tracked := if sessionId.Some? then Some(CreatedTab(info, sessionId.value)) else None;
  }

  function CreatedTab(info: TargetInfo, sessionId: string): Tab {
    Tab(info.targetId, info.url, info.title, sessionId, Owned)
  }

  /**
    The rest of the handler, in whatever state the other actors have left the
    daemon: the CDP session becomes a tracked tab's or is detached, once.
   */
  method FinishTargetCreated(daemon: DaemonState, cdp: Cdp, name: string, tab: Tab, now: nat)
    returns (answer: Registration)
    requires daemon.Valid()
    modifies daemon`persistRequests, daemon.sessions.Values, cdp`detached
    ensures answer == InitializedAnswer(old(daemon.View()), name, tab.targetId)
    ensures daemon.View() == AfterRegister(old(daemon.View()), name, tab, now)
    ensures answer.Registered? ==>
              Owns(daemon.View(), name, tab.targetId) && daemon.View()[name].tabs[tab.targetId] == tab
    ensures cdp.detached == old(cdp.detached) + if answer.Registered? then [] else [tab.cdpSessionId]
  {
    answer := daemon.RegisterInitializedSessionTab(name, tab, now);
    if !answer.Registered? {
      cdp.Detach(tab.cdpSessionId);
    }
  }

  // ----- attaching a session's tabs again -----

  datatype PreparedTab = PreparedTab(targetId: string, cdpSessionId: string)

  /** What comes of attaching the targets in order. */
  ghost function PreparedOf(cdp: Cdp, ids: seq<string>): seq<PreparedTab> {
    if ids == [] then []
    else
      var id := ids[|ids| - 1];
      PreparedOf(cdp, ids[..|ids| - 1])
      + if cdp.Accepts(id) then [PreparedTab(id, cdp.attaches[id])] else []
  }

  ghost function AttachedOf(cdp: Cdp, ids: seq<string>): seq<string> {
    if ids == [] then []
    else
      var id := ids[|ids| - 1];
      AttachedOf(cdp, ids[..|ids| - 1]) + cdp.NewlyAttached(id)
  }

  ghost function DetachedOf(cdp: Cdp, ids: seq<string>): seq<string> {
    if ids == [] then []
    else
      var id := ids[|ids| - 1];
      DetachedOf(cdp, ids[..|ids| - 1]) + cdp.NewlyDetached(id)
  }

  ghost function FailedOf(cdp: Cdp, ids: seq<string>): seq<string> {
    if ids == [] then []
    else
      var id := ids[|ids| - 1];
      FailedOf(cdp, ids[..|ids| - 1]) + if cdp.Accepts(id) then [] else [id]
  }

  /** The tabs, those among `ids` that were attached with their new CDP sessions. */
  ghost function WithSessions(cdp: Cdp, tabs: map<string, Tab>, ids: seq<string>): (m: map<string, Tab>)
    ensures m.Keys == tabs.Keys
  {
    if ids == [] then tabs
    else
      var m, id := WithSessions(cdp, tabs, ids[..|ids| - 1]), ids[|ids| - 1];
      if id in tabs && cdp.Accepts(id) then m[id := m[id].(cdpSessionId := cdp.attaches[id])] else m
  }

  /** The tabs that survive, each with its new CDP session. */
  ghost function Survivors(cdp: Cdp, tabs: map<string, Tab>): map<string, Tab> {
    map id | id in tabs && cdp.Accepts(id) :: tabs[id].(cdpSessionId := cdp.attaches[id])
  }

  /** The active target stays if its tab survived; otherwise the first surviving tab takes its place. */
  ghost predicate ActiveAfter(before: Option<string>, tabs: map<string, Tab>, active: Option<string>) {
    if before.Some? && before.value in tabs then active == before
    else if tabs == map[] then active.None?
    else active.Some? && IsLeast(active.value, tabs.Keys)
  }

  /** Collects keys and sorts them. */
  method SortedKeys(keys: set<string>) returns (l: seq<string>)
    ensures l == Ascending(keys)
  {
    var left := keys;
    l := [];
    while left != {}
      invariant left <= keys && IsSorted(l)
      invariant forall x :: x in l <==> x in keys && x !in left
      invariant forall x, y :: x in l && y in left ==> AtMost(x, y)
    {
      var least := FindLeast(left);
      l := l + [least];
      left := left - {least};
    }
    SortedIsAscending(l, keys);
  }

  method FindLeast(keys: set<string>) returns (m: string)
    requires keys != {}
    ensures IsLeast(m, keys)
  {
    m :| m in keys;
    Reflexive(m);
    var left := keys - {m};
    while left != {}
      invariant left <= keys && m in keys
      invariant forall x :: x in keys && x !in left ==> AtMost(m, x)
    {
      var x :| x in left;
      left := left - {x};
      if !AtMost(m, x) {
        Total(m, x);
        Reflexive(x);
        forall y | y in keys && y !in left ensures AtMost(x, y) {
          if y != x {
            Transitive(x, m, y);
          }
        }
        m := x;
      }
    }
  }

  /** The loop over the targets. */
  method AttachEach(session: Session, cdp: Cdp, ids: seq<string>)
    returns (prepared: seq<PreparedTab>, failed: seq<string>)
    requires forall id :: id in ids ==> id in session.tabs
    modifies session`tabs, cdp`attached, cdp`detached
    ensures session.tabs == WithSessions(cdp, old(session.tabs), ids)
    ensures prepared == PreparedOf(cdp, ids) && failed == FailedOf(cdp, ids)
    ensures cdp.attached == old(cdp.attached) + AttachedOf(cdp, ids)
    ensures cdp.detached == old(cdp.detached) + DetachedOf(cdp, ids)
  {
    prepared, failed := [], [];
    for i := 0 to |ids|
      invariant session.tabs == WithSessions(cdp, old(session.tabs), ids[..i])
      invariant prepared == PreparedOf(cdp, ids[..i]) && failed == FailedOf(cdp, ids[..i])
      invariant cdp.attached == old(cdp.attached) + AttachedOf(cdp, ids[..i])
      invariant cdp.detached == old(cdp.detached) + DetachedOf(cdp, ids[..i])
    {
      var id := ids[i];
      assert ids[..i + 1][..i] == ids[..i];
      Grows(old(cdp.attached), AttachedOf(cdp, ids[..i]), cdp.NewlyAttached(id));
      Grows(old(cdp.detached), DetachedOf(cdp, ids[..i]), cdp.NewlyDetached(id));
      var sessionId := cdp.AttachAndInitialise(id);
      if sessionId.None? {
        failed := failed + [id];
        continue;
      }
      session.tabs := session.tabs[id := session.tabs[id].(cdpSessionId := sessionId.value)];
      prepared := prepared + [PreparedTab(id, sessionId.value)];
    }
    assert ids[..|ids|] == ids;
  }

  lemma Grows(l: seq<string>, a: seq<string>, b: seq<string>)
    ensures l + a + b == l + (a + b)
  {
  }

  /** Drops the tabs that could not be attached. */
  method DropFailed(session: Session, failed: seq<string>)
    modifies session`tabs
    ensures session.tabs == old(session.tabs) - (set x | x in failed)
  {
    for j := 0 to |failed|
      invariant session.tabs == old(session.tabs) - (set x | x in failed[..j])
    {
      assert failed[..j + 1] == failed[..j] + [failed[j]];
      session.tabs := session.tabs - {failed[j]};
    }
    assert failed[..|failed|] == failed;
  }

  /** Falls back to the first remaining target if the active one is gone. */
  method RestoreActive(session: Session)
    modifies session`active
    ensures ActiveAfter(old(session.active), session.tabs, session.active)
  {
    if session.active.Some? && session.active.value in session.tabs {
      return;
    }
    var remaining := SortedKeys(session.tabs.Keys);
    if remaining == [] {
      session.active := None;
    } else {
      FirstIsLeast(remaining, session.tabs.Keys);
      session.active := Some(remaining[0]);
    }
  }

  method ReattachSessionTabs(session: Session, cdp: Cdp) returns (prepared: seq<PreparedTab>)
    modifies session`tabs, session`active, cdp`attached, cdp`detached
    ensures var before, ids := old(session.View()), Ascending(old(session.tabs).Keys);
            && session.View() == before.(tabs := Survivors(cdp, before.tabs), active := session.active)
            && ActiveAfter(before.active, session.tabs, session.active)
            && prepared == PreparedOf(cdp, ids)
            && cdp.attached == old(cdp.attached) + AttachedOf(cdp, ids)
            && cdp.detached == old(cdp.detached) + DetachedOf(cdp, ids)
  {
    ghost var tabs := session.tabs;
    var ids := SortedKeys(session.tabs.Keys);
    var failed;
    prepared, failed := AttachEach(session, cdp, ids);
    DropFailed(session, failed);
    SurvivorsAre(cdp, tabs, ids);
    RestoreActive(session);
  }

  lemma SurvivorsAre(cdp: Cdp, tabs: map<string, Tab>, ids: seq<string>)
    requires forall id :: id in ids <==> id in tabs
    ensures WithSessions(cdp, tabs, ids) - (set x | x in FailedOf(cdp, ids)) == Survivors(cdp, tabs)
  {
    FailedAre(cdp, ids);
    forall id | id in tabs
      ensures WithSessions(cdp, tabs, ids)[id]
              == if cdp.Accepts(id) then tabs[id].(cdpSessionId := cdp.attaches[id]) else tabs[id]
    {
      WithSessionsAt(cdp, tabs, ids, id);
    }
  }

  lemma {:induction false} WithSessionsAt(cdp: Cdp, tabs: map<string, Tab>, ids: seq<string>, id: string)
    requires id in tabs
    ensures WithSessions(cdp, tabs, ids)[id]
            == if id in ids && cdp.Accepts(id) then tabs[id].(cdpSessionId := cdp.attaches[id]) else tabs[id]
  {
    if ids != [] {
      assert ids == ids[..|ids| - 1] + [ids[|ids| - 1]];
      WithSessionsAt(cdp, tabs, ids[..|ids| - 1], id);
    }
  }

  lemma {:induction false} FailedAre(cdp: Cdp, ids: seq<string>)
    ensures forall id :: id in FailedOf(cdp, ids) <==> id in ids && !cdp.Accepts(id)
  {
    if ids != [] {
      FailedAre(cdp, ids[..|ids| - 1]);
      assert ids == ids[..|ids| - 1] + [ids[|ids| - 1]];
    }
  }

  // ----- what comes of it -----

  function SessionIds(prepared: seq<PreparedTab>): seq<string> {
    if prepared == [] then []
    else SessionIds(prepared[..|prepared| - 1]) + [prepared[|prepared| - 1].cdpSessionId]
  }

  lemma SessionIdsSnoc(prepared: seq<PreparedTab>, last: PreparedTab)
    ensures SessionIds(prepared + [last]) == SessionIds(prepared) + [last.cdpSessionId]
  {
    assert (prepared + [last])[..|prepared|] == prepared;
  }

  /** Every CDP session attached is handed over with a prepared tab or is asked to detach, exactly once. */
  lemma {:induction false} SessionsConserved(cdp: Cdp, ids: seq<string>)
    ensures multiset(AttachedOf(cdp, ids))
            == multiset(SessionIds(PreparedOf(cdp, ids))) + multiset(DetachedOf(cdp, ids))
  {
    if ids != [] {
      var init, id := ids[..|ids| - 1], ids[|ids| - 1];
      SessionsConserved(cdp, init);
      if id in cdp.attaches {
        var x := cdp.attaches[id];
        assert AttachedOf(cdp, ids) == AttachedOf(cdp, init) + [x];
        if id in cdp.initialises {
          SessionIdsSnoc(PreparedOf(cdp, init), PreparedTab(id, x));
          assert DetachedOf(cdp, ids) == DetachedOf(cdp, init);
        } else {
          assert PreparedOf(cdp, ids) == PreparedOf(cdp, init);
          assert DetachedOf(cdp, ids) == DetachedOf(cdp, init) + [x];
        }
      } else {
        assert AttachedOf(cdp, ids) == AttachedOf(cdp, init) && PreparedOf(cdp, ids) == PreparedOf(cdp, init);
        assert DetachedOf(cdp, ids) == DetachedOf(cdp, init);
      }
    }
  }

  /** A prepared tab of one of the targets, with the CDP session that it got. */
  ghost predicate PreparedFrom(cdp: Cdp, ids: seq<string>, p: PreparedTab) {
    p.targetId in ids && cdp.Accepts(p.targetId) && p.cdpSessionId == cdp.attaches[p.targetId]
  }

  lemma {:induction false} PreparedAt(cdp: Cdp, ids: seq<string>, i: nat)
    requires i < |PreparedOf(cdp, ids)|
    ensures PreparedFrom(cdp, ids, PreparedOf(cdp, ids)[i])
  {
    var init, last := ids[..|ids| - 1], ids[|ids| - 1];
    assert ids == init + [last];
    if i < |PreparedOf(cdp, init)| {
      PreparedAt(cdp, init, i);
    }
  }

  lemma {:induction false} PreparedHas(cdp: Cdp, ids: seq<string>, id: string) returns (i: nat)
    requires id in ids && cdp.Accepts(id)
    ensures i < |PreparedOf(cdp, ids)| && PreparedOf(cdp, ids)[i].targetId == id
  {
    var init, last := ids[..|ids| - 1], ids[|ids| - 1];
    if id == last {
      i := |PreparedOf(cdp, init)|;
    } else {
      assert ids == init + [last];
      i := PreparedHas(cdp, init, id);
    }
  }

  /** In strictly ascending order of target. */
  ghost predicate Ordered(prepared: seq<PreparedTab>) {
    forall i, j :: 0 <= i < j < |prepared| ==>
      AtMost(prepared[i].targetId, prepared[j].targetId) && prepared[i].targetId != prepared[j].targetId
  }

  lemma {:induction false} PreparedOrdered(cdp: Cdp, ids: seq<string>)
    requires IsSorted(ids)
    ensures Ordered(PreparedOf(cdp, ids))
  {
    if ids != [] {
      var init, last := ids[..|ids| - 1], ids[|ids| - 1];
      var before := PreparedOf(cdp, init);
      PreparedOrdered(cdp, init);
      forall i | 0 <= i < |before| ensures AtMost(before[i].targetId, last) && before[i].targetId != last {
        PreparedAt(cdp, init, i);
        var k :| 0 <= k < |init| && init[k] == before[i].targetId;
        assert ids[k] == init[k];
      }
    }
  }

  /** The prepared tabs are the surviving ones, each once, in ascending order and with the CDP session it got. */
  lemma PreparedAreSurvivors(cdp: Cdp, tabs: map<string, Tab>)
    ensures var prepared, survivors := PreparedOf(cdp, Ascending(tabs.Keys)), Survivors(cdp, tabs);
            && |prepared| == |survivors| && Ordered(prepared)
            && forall i :: 0 <= i < |prepared| ==>
                 && prepared[i].targetId in survivors
                 && survivors[prepared[i].targetId].cdpSessionId == prepared[i].cdpSessionId
  {
    var ids, survivors := Ascending(tabs.Keys), Survivors(cdp, tabs);
    var prepared := PreparedOf(cdp, ids);
    PreparedOrdered(cdp, ids);
    forall i | 0 <= i < |prepared| ensures PreparedFrom(cdp, ids, prepared[i]) {
      PreparedAt(cdp, ids, i);
    }
    forall id | id in survivors ensures exists i :: 0 <= i < |prepared| && prepared[i].targetId == id {
      var i := PreparedHas(cdp, ids, id);
    }
    OrderedCount(prepared, survivors.Keys);
  }

  lemma {:induction false} OrderedCount(prepared: seq<PreparedTab>, targets: set<string>)
    requires Ordered(prepared)
    requires forall i :: 0 <= i < |prepared| ==> prepared[i].targetId in targets
    requires forall id :: id in targets ==> exists i :: 0 <= i < |prepared| && prepared[i].targetId == id
    ensures |targets| == |prepared|
  {
    if prepared == [] {
      assert targets == {};
    } else {
      var init, last := prepared[..|prepared| - 1], prepared[|prepared| - 1].targetId;
      forall id | id in targets - {last} ensures exists i :: 0 <= i < |init| && init[i].targetId == id {
        var i :| 0 <= i < |prepared| && prepared[i].targetId == id;
        assert init[i] == prepared[i];
      }
      OrderedCount(init, targets - {last});
    }
  }

  // ----- binding a session to a browser again -----

  datatype Rebinding = NoSession | ContextFailed | Rebound(tabs: nat, prepared: seq<PreparedTab>)

  /** The session's tabs can be attached again: it shares the browser's context, or its own is still there. */
  predicate Reusable(s: Record, host: string, contextAvailable: bool) {
    s.mode.Default? || (s.host == host && contextAvailable)
  }

  /** The session with its surviving tabs. */
  ghost function Reattached(cdp: Cdp, s: Record, active: Option<string>, host: string, now: nat): Record {
    s.(tabs := Survivors(cdp, s.tabs), active := active, host := host, disconnected := false, lastActive := now)
  }

  /** The session in a new browser context, without tabs. */
  function Emptied(s: Record, contextId: Option<string>, host: string, now: nat): Record {
    s.(contextId := contextId, tabs := map[], active := None, host := host, disconnected := false, lastActive := now)
  }

  /** What survives is well-formed again, whatever the browser refused. */
  lemma ReattachedRebinds(cdp: Cdp, s: Record, active: Option<string>, host: string, now: nat)
    requires SessionOk(s.name, s) && Clean(host) && ActiveAfter(s.active, Survivors(cdp, s.tabs), active)
    ensures RebindOk(s, Reattached(cdp, s, active, host, now))
  {
  }

  lemma EmptiedRebinds(s: Record, contextId: Option<string>, host: string, now: nat)
    requires SessionOk(s.name, s) && s.mode.Isolated? && Clean(host)
    requires contextId.Some? && Clean(contextId.value)
    ensures RebindOk(s, Emptied(s, contextId, host, now))
  {
  }

  ghost predicate BroughtUp(cdp: Cdp, before: Record, after: Record, host: string, contextAvailable: bool,
                            newContext: Option<string>, now: nat) {
    if Reusable(before, host, contextAvailable) then
      && after == Reattached(cdp, before, after.active, host, now)
      && ActiveAfter(before.active, after.tabs, after.active)
    else newContext.Some? && after == Emptied(before, newContext, host, now)
  }

  lemma BroughtUpRebinds(cdp: Cdp, before: Record, after: Record, host: string, contextAvailable: bool,
                         newContext: Option<string>, now: nat)
    requires SessionOk(before.name, before) && Clean(host) && (newContext.Some? ==> Clean(newContext.value))
    requires BroughtUp(cdp, before, after, host, contextAvailable, newContext, now)
    ensures RebindOk(before, after) && !after.disconnected && after.host == host
  {
    if Reusable(before, host, contextAvailable) {
      ReattachedRebinds(cdp, before, after.active, host, now);
    } else {
      EmptiedRebinds(before, newContext, host, now);
    }
  }

  /** The targets that are attached again: all of them, or none in a new context. */
  ghost function ReattachedIds(s: Record, host: string, contextAvailable: bool): seq<string> {
    if Reusable(s, host, contextAvailable) then Ascending(s.tabs.Keys) else []
  }

  /** Brings a copy of a session up to date; false if it needs a new browser context and cannot have one. */
  method BringUp(session: Session, host: string, cdp: Cdp, contextAvailable: bool, newContext: Option<string>, now: nat)
    returns (ok: bool, prepared: seq<PreparedTab>)
    modifies session, cdp`attached, cdp`detached
    ensures ok <==> Reusable(old(session.View()), host, contextAvailable) || newContext.Some?
    ensures ok ==> BroughtUp(cdp, old(session.View()), session.View(), host, contextAvailable, newContext, now)
    ensures var ids := ReattachedIds(old(session.View()), host, contextAvailable);
            && prepared == PreparedOf(cdp, ids)
            && cdp.attached == old(cdp.attached) + AttachedOf(cdp, ids)
            && cdp.detached == old(cdp.detached) + DetachedOf(cdp, ids)
  {
    prepared := [];
    if session.mode.Default? || (session.host == host && contextAvailable) {
      prepared := ReattachSessionTabs(session, cdp);
    } else {
      if newContext.None? {
        return false, [];
      }
      session.StartOver(newContext);
    }
    session.Connect(host, now);
    ok := true;
  }

  /** What a session becomes, with what is handed over. */
  ghost predicate RebuiltAs(cdp: Cdp, before: Record, after: Record, prepared: seq<PreparedTab>, host: string,
                            contextAvailable: bool, newContext: Option<string>, now: nat) {
    && BroughtUp(cdp, before, after, host, contextAvailable, newContext, now)
    && RebindOk(before, after)
    && prepared == PreparedOf(cdp, ReattachedIds(before, host, contextAvailable))
  }

  /** A copy of the session, brought up to date. */
  method RebuiltSession(before: Record, host: string, cdp: Cdp, contextAvailable: bool,
                        newContext: Option<string>, now: nat)
    returns (ok: bool, session: Session, prepared: seq<PreparedTab>)
    requires SessionOk(before.name, before) && Clean(host) && (newContext.Some? ==> Clean(newContext.value))
    modifies cdp`attached, cdp`detached
    ensures fresh(session)
    ensures ok <==> Reusable(before, host, contextAvailable) || newContext.Some?
    ensures ok ==> RebuiltAs(cdp, before, session.View(), prepared, host, contextAvailable, newContext, now)
    ensures var ids := ReattachedIds(before, host, contextAvailable);
            && cdp.attached == old(cdp.attached) + AttachedOf(cdp, ids)
            && cdp.detached == old(cdp.detached) + DetachedOf(cdp, ids)
  {
    session := new Session(before);
    ok, prepared := BringUp(session, host, cdp, contextAvailable, newContext, now);
    if ok {
      BroughtUpRebinds(cdp, before, session.View(), host, contextAvailable, newContext, now);
    }
  }

  /** What comes of rebinding a session that is there. */
  ghost predicate Reconnects(cdp: Cdp, st: State, after: State, name: string, rebound: Record, r: Rebinding,
                             host: string, contextAvailable: bool, newContext: Option<string>, now: nat)
    requires name in st
  {
    match r
    case NoSession => false
    case ContextFailed => after == st && !Reusable(st[name], host, contextAvailable) && newContext.None?
    case Rebound(tabs, prepared) =>
      && after == st[name := rebound] && tabs == |rebound.tabs|
      && RebuiltAs(cdp, st[name], rebound, prepared, host, contextAvailable, newContext, now)
  }

  method ReconnectPresent(daemon: DaemonState, name: string, host: string, cdp: Cdp,
                          contextAvailable: bool, newContext: Option<string>, now: nat)
    returns (r: Rebinding, ghost rebound: Record)
    requires daemon.Separate() && Clean(host)
    requires name in daemon.sessions && SessionOk(name, daemon.View()[name])
    requires newContext.Some? ==> Clean(newContext.value)
    modifies daemon`sessions, cdp`attached, cdp`detached
    ensures daemon.Separate()
    ensures Reconnects(cdp, old(daemon.View()), daemon.View(), name, rebound, r,
                       host, contextAvailable, newContext, now)
    ensures var ids := ReattachedIds(old(daemon.View())[name], host, contextAvailable);
            && cdp.attached == old(cdp.attached) + AttachedOf(cdp, ids)
            && cdp.detached == old(cdp.detached) + DetachedOf(cdp, ids)
  {
    ghost var st := daemon.View();
    var ok, session, prepared :=
      RebuiltSession(daemon.sessions[name].View(), host, cdp, contextAvailable, newContext, now);
    assert daemon.View() == st;
    rebound := session.View();
    if !ok {
      return ContextFailed, rebound;
    }
    r := Rebound(|session.tabs|, prepared);
    daemon.InsertSession(name, session);
  }

  /**
    Attaches a restored or disconnected session to a browser: a copy of it is
    brought up to date and then put in its place. An isolated session whose
    context is gone gets a new one and starts without tabs.
   */
  method ReconnectExistingSession(daemon: DaemonState, name: string, host: string, cdp: Cdp,
                                  contextAvailable: bool, newContext: Option<string>, now: nat)
    returns (r: Rebinding, ghost rebound: Record)
    requires daemon.Separate() && Clean(host)
    requires name in daemon.sessions ==> SessionOk(name, daemon.View()[name])
    requires newContext.Some? ==> Clean(newContext.value)
    modifies daemon`sessions, cdp`attached, cdp`detached
    ensures daemon.Separate()
    ensures var st := old(daemon.View());
            if name in st then
              var ids := ReattachedIds(st[name], host, contextAvailable);
              && Reconnects(cdp, st, daemon.View(), name, rebound, r, host, contextAvailable, newContext, now)
              && cdp.attached == old(cdp.attached) + AttachedOf(cdp, ids)
              && cdp.detached == old(cdp.detached) + DetachedOf(cdp, ids)
            else
              && r.NoSession? && daemon.View() == st
              && cdp.attached == old(cdp.attached) && cdp.detached == old(cdp.detached)
  {
    if name !in daemon.sessions {
      return NoSession, *;
    }
    r, rebound := ReconnectPresent(daemon, name, host, cdp, contextAvailable, newContext, now);
  }

  // ----- what a reconnect comes to, field by field -----

  /** The tabs whose targets the browser attaches and initialises, each with its new CDP session. */
  function AttachedAgain(cdp: Cdp, tabs: map<string, Tab>): map<string, Tab> {
    map id | id in tabs && id in cdp.attaches && id in cdp.initialises :: tabs[id].(cdpSessionId := cdp.attaches[id])
  }

  lemma SurvivorsAttached(cdp: Cdp, tabs: map<string, Tab>)
    ensures Survivors(cdp, tabs) == AttachedAgain(cdp, tabs)
  {
  }

  /**
    A session in the browser's own context, or one whose context is still there
    on the same host, keeps its context and its tabs that can be attached; what
    it acts on stays, or is the least of the tabs that are left.
   */
  lemma KeptIsAttachedAgain(cdp: Cdp, st: State, after: State, name: string, rebound: Record, r: Rebinding,
                            host: string, contextAvailable: bool, newContext: Option<string>, now: nat)
    requires name in st && Reconnects(cdp, st, after, name, rebound, r, host, contextAvailable, newContext, now)
    requires st[name].mode.Default? || (st[name].host == host && contextAvailable)
    ensures var before, tabs := st[name], AttachedAgain(cdp, st[name].tabs);
            && r == Rebound(|tabs|, PreparedOf(cdp, Ascending(before.tabs.Keys))) && after == st[name := rebound]
            && rebound == before.(tabs := tabs, active := rebound.active, host := host, disconnected := false,
                                  lastActive := now)
            && (if before.active.Some? && before.active.value in tabs then rebound.active == before.active
                else if tabs == map[] then rebound.active.None?
                else rebound.active.Some? && rebound.active.value in tabs
                     && forall id :: id in tabs ==> AtMost(rebound.active.value, id))
  {
    SurvivorsAttached(cdp, st[name].tabs);
  }

  /** Any other session starts without tabs in the new context, and is left as it was if there is none. */
  lemma MovedStartsOver(cdp: Cdp, st: State, after: State, name: string, rebound: Record, r: Rebinding,
                        host: string, contextAvailable: bool, newContext: Option<string>, now: nat)
    requires name in st && Reconnects(cdp, st, after, name, rebound, r, host, contextAvailable, newContext, now)
    requires st[name].mode.Isolated? && !(st[name].host == host && contextAvailable)
    ensures newContext.None? ==> r.ContextFailed? && after == st
    ensures newContext.Some? ==>
              && r == Rebound(0, []) && after == st[name := rebound]
              && rebound == st[name].(contextId := newContext, tabs := map[], active := None, host := host,
                                      disconnected := false, lastActive := now)
  {
  }

  /** The CDP sessions asked to detach are those of the targets that could be attached and not initialised. */
  lemma {:induction false} DetachedAre(cdp: Cdp, ids: seq<string>, x: string)
    ensures x in DetachedOf(cdp, ids) <==>
            exists id :: id in ids && id in cdp.attaches && id !in cdp.initialises && cdp.attaches[id] == x
  {
    if ids != [] {
      var init, last := ids[..|ids| - 1], ids[|ids| - 1];
      DetachedAre(cdp, init, x);
      assert ids == init + [last];
    }
  }

  /** The CDP sessions attached are those of the targets that could be attached. */
  lemma {:induction false} AttachedAre(cdp: Cdp, ids: seq<string>, x: string)
    ensures x in AttachedOf(cdp, ids) <==> exists id :: id in ids && id in cdp.attaches && cdp.attaches[id] == x
  {
    if ids != [] {
      var init, last := ids[..|ids| - 1], ids[|ids| - 1];
      AttachedAre(cdp, init, x);
      assert ids == init + [last];
    }
  }
}
