/**
  What each step does to a session, field by field, and over runs: which tab a
  session acts on, and when it was last used.
 */
module Activity {
  import opened Common
  import opened Sessions
  import opened Lifecycle
  import opened Ownership

  // ----- the target of a created page -----

  /** A page opened from a tab on the same host belongs to the tab's session. */
  lemma OpenerDecides(st: State, host: string, opener: string, contextId: Option<string>, name: string)
    requires UniqueOwners(st) && name in st && opener in st[name].tabs && st[name].host == host
    ensures CreatedIn(st, host, Some(opener), contextId) == Some(name)
  {
    OwnerIs(st, name, opener);
  }

  /** Any other page belongs to the one isolated session on the host that has its browser context. */
  lemma ContextDecides(st: State, host: string, opener: Option<string>, contextId: Option<string>, name: string)
    requires opener.Some? ==> forall n :: n in st && opener.value in st[n].tabs ==> st[n].host != host
    ensures CreatedIn(st, host, opener, contextId) == Some(name) <==>
            && contextId.Some?
            && (name in st && st[name].mode.Isolated? && st[name].host == host && st[name].contextId == contextId)
            && forall n :: n in st && st[n].mode.Isolated? && st[n].host == host && st[n].contextId == contextId
                 ==> n == name
  {
    if opener.Some? && Owner(st, opener.value).Some? {
      assert Owns(st, Owner(st, opener.value).value, opener.value);
    }
    if contextId.Some? {
      assert forall n :: Matches(st, n, host, contextId.value) <==>
               n in st && st[n].mode.Isolated? && st[n].host == host && st[n].contextId == contextId;
      if OnlyMatch(st, name, host, contextId.value) {
        assert forall n :: OnlyMatch(st, n, host, contextId.value) ==> n == name;
      }
    }
  }

  // ----- reservations -----

  /** A reservation fails without its session or at the limit, and else counts, up to the largest counter value. */
  lemma ReserveDoes(st: State, name: string, max: nat)
    requires max <= 0xFFFF_FFFF_FFFF_FFFF
    ensures ReserveError(st, name, max) ==
            if name !in st then Some(SessionNotFound)
            else if max > 0 && |st[name].tabs| + st[name].pending >= max then Some(TabLimitExceeded)
            else None
    ensures NextState(st, Reserve(name, max)) == AfterReserve(st, name, max) ==
            if name !in st || (max > 0 && |st[name].tabs| + st[name].pending >= max) then st
            else if st[name].pending < 0xFFFF_FFFF_FFFF_FFFF
            then st[name := st[name].(pending := st[name].pending + 1)]
            else st[name := st[name].(pending := 0xFFFF_FFFF_FFFF_FFFF)]
  {
    if name in st {
      LimitIsExact(st[name], max);
    }
  }

  lemma ReleaseDoes(st: State, name: string)
    ensures NextState(st, Release(name)) == AfterRelease(st, name) ==
            if name in st && st[name].pending > 0 then st[name := st[name].(pending := st[name].pending - 1)] else st
  {
  }

  // ----- registrations -----

  /** Some other session has the target. */
  ghost predicate TakenByOther(st: State, name: string, targetId: string) {
    exists other :: other != name && other in st && targetId in st[other].tabs
  }

  lemma OwnerSaid(st: State, name: string, targetId: string)
    requires UniqueOwners(st)
    ensures Owner(st, targetId) == Some(name) <==> name in st && targetId in st[name].tabs
    ensures Owner(st, targetId).Some? && Owner(st, targetId) != Some(name) <==> TakenByOther(st, name, targetId)
  {
    if name in st && targetId in st[name].tabs {
      OwnerIs(st, name, targetId);
    }
    if TakenByOther(st, name, targetId) {
      var other :| other != name && other in st && targetId in st[other].tabs;
      OwnerIs(st, other, targetId);
    }
  }

  /**
    What a registration is told. Only when another session has the target does it
    matter which is asked first: with a reservation, whether the own session is there.
   */
  lemma AnswerIs(w: World, a: Action)
    requires UniqueOwners(w.st) && (a.RegisterReserved? || a.Register?)
    ensures var id := a.tab.targetId;
            Answer(w, a) ==
              if a.name in w.st && id in w.st[a.name].tabs then AlreadyTracked
              else if TakenByOther(w.st, a.name, id) && (a.Register? || a.name in w.st)
              then Failed(TargetAlreadyAttached)
              else if a.name !in w.st then Failed(SessionNotFound)
              else Registered
  {
    OwnerSaid(w.st, a.name, a.tab.targetId);
  }

  /** The counter of a session that gave a reservation back. */
  function GivenBack(a: Action, pending: nat): nat {
    if a.RegisterReserved? && pending > 0 then pending - 1 else pending
  }

  /**
    A registered tab is stored as it is and becomes the active one, and the
    session counts as used; nothing else changes.
   */
  lemma RegisteredIsActive(w: World, a: Action)
    requires Enabled(w, a) && (a.RegisterReserved? || a.Register?) && Answer(w, a).Registered?
    ensures a.name in w.st
    ensures var before, id := w.st[a.name], a.tab.targetId;
            NextState(w.st, a) == w.st[a.name := before.(tabs := before.tabs[id := a.tab], active := Some(id),
                                                         lastActive := a.now, pending := GivenBack(a, before.pending))]
  {
  }

  /** Any other answer leaves the sessions as they are, but that a reservation is given back. */
  lemma RefusedChangesNothing(w: World, a: Action)
    requires Enabled(w, a) && (a.RegisterReserved? || a.Register?) && !Answer(w, a).Registered?
    ensures NextState(w.st, a) ==
            if a.name in w.st
            then w.st[a.name := w.st[a.name].(pending := GivenBack(a, w.st[a.name].pending))] else w.st
  {
  }

  // ----- removals and updates -----

  /** The session that has the tab loses it, counts as used, and if it acted on it, acts on a remaining one. */
  lemma RemovalDoes(w: World, a: Action, name: string)
    requires Enabled(w, a) && a.Remove? && UniqueOwners(w.st) && name in w.st && a.targetId in w.st[name].tabs
    ensures var before, left := w.st[name], w.st[name].tabs - {a.targetId};
            && (a.fallback.Some? ==> a.fallback.value in left) && (a.fallback.None? ==> left == map[])
            && NextState(w.st, a) == w.st[name := before.(tabs := left, lastActive := a.now, active :=
                 if before.active == Some(a.targetId) then a.fallback else before.active)]
  {
    OwnerIs(w.st, name, a.targetId);
  }

  lemma UnknownRemovalDoes(w: World, a: Action)
    requires a.Remove? && forall name :: name in w.st ==> a.targetId !in w.st[name].tabs
    ensures NextState(w.st, a) == w.st
  {
  }

  /** A new address or title is written into the tab, and only then does the session count as used. */
  lemma UpdateDoes(w: World, a: Action)
    requires a.Update?
    ensures NextState(w.st, a) ==
            if a.name in w.st && a.targetId in w.st[a.name].tabs
               && (w.st[a.name].tabs[a.targetId].url != a.url || w.st[a.name].tabs[a.targetId].title != a.title)
            then
              var before := w.st[a.name];
              var tab := before.tabs[a.targetId].(url := a.url, title := a.title);
              w.st[a.name := before.(tabs := before.tabs[a.targetId := tab], lastActive := a.now)]
            else w.st
  {
  }

  /** A new session has no tabs and is used at once; only the one named `default` shares the browser's own context. */
  lemma CreateDoes(w: World, a: Action)
    requires Enabled(w, a) && a.Create?
    ensures NextState(w.st, a) == w.st[a.name := Record(a.name, if a.name == "default" then Default else Isolated,
                                                        a.host, a.contextId, map[], None, a.now, a.now, false, 0)]
    ensures a.contextId.None? <==> a.name == "default"
  {
  }

  /**
    A lost browser only marks the session, a command only counts as a use, a
    closed session is gone, and a rebound one is replaced.
   */
  lemma OthersDo(w: World, a: Action)
    requires a.Disconnect? || a.Touch? || a.Close? || a.Navigated? || (a.Rebind? && a.name in w.st)
    ensures a.name !in w.st ==> NextState(w.st, a) == w.st
    ensures a.name in w.st ==>
              var before := w.st[a.name];
              NextState(w.st, a) ==
                if a.Rebind? then w.st[a.name := a.rebound]
                else if a.Disconnect? then w.st[a.name := before.(disconnected := true)]
                else if a.Touch? then w.st[a.name := before.(lastActive := a.now)]
                else if a.Close? then w.st - {a.name}
                else if a.targetId in before.tabs
                then w.st[a.name := before.(lastActive := a.now, tabs :=
                       before.tabs[a.targetId := before.tabs[a.targetId].(url := a.url, title := a.title)])]
                else w.st[a.name := before.(lastActive := a.now)]
  {
  }

  // ----- which tab a session acts on -----

  /** The steps after which a session need not act on `targetId` any more. */
  ghost predicate MovesOn(w: World, a: Action, name: string, targetId: string) {
    || ((a.RegisterReserved? || a.Register?) && a.name == name && Answer(w, a).Registered?)
    || (a.Remove? && a.targetId == targetId)
    || ((a.Rebind? || a.Close?) && a.name == name)
  }

  ghost predicate ActsOn(w: World, name: string, targetId: string) {
    name in w.st && w.st[name].active == Some(targetId)
  }

  lemma StaysActive(w: World, a: Action, name: string, targetId: string)
    requires Enabled(w, a) && ActsOn(w, name, targetId) && !MovesOn(w, a, name, targetId)
    ensures ActsOn(Next(w, a), name, targetId)
  {
  }

  lemma {:induction false} StaysActiveThroughout(run: seq<World>, actions: seq<Action>, m: nat, n: nat,
                                                 name: string, targetId: string)
    requires IsRun(run, actions) && m <= n <= |actions| && ActsOn(run[m], name, targetId)
    requires forall i :: m <= i < n ==> !MovesOn(run[i], actions[i], name, targetId)
    ensures ActsOn(run[n], name, targetId)
    decreases n - m
  {
    if m < n {
      StaysActiveThroughout(run, actions, m, n - 1, name, targetId);
      StaysActive(run[n - 1], actions[n - 1], name, targetId);
    }
  }

  /**
    In every run a session acts on the tab registered last, until another is
    registered for it, the tab leaves, or the session is bound again or closed.
   */
  lemma LatestIsActive(run: seq<World>, actions: seq<Action>, m: nat, n: nat)
    requires IsRun(run, actions) && m < n <= |actions|
    requires (actions[m].RegisterReserved? || actions[m].Register?) && Answer(run[m], actions[m]).Registered?
    requires forall i :: m < i < n ==> !MovesOn(run[i], actions[i], actions[m].name, actions[m].tab.targetId)
    ensures ActsOn(run[n], actions[m].name, actions[m].tab.targetId)
  {
    RegisteredIsActive(run[m], actions[m]);
    StaysActiveThroughout(run, actions, m + 1, n, actions[m].name, actions[m].tab.targetId);
  }

  // ----- when a session was last used -----

  /** The instant at which the step uses the session, if it does. */
  ghost function UsedAt(w: World, a: Action, name: string): Option<nat> {
    match a
    case Touch(n, now) => if n == name && name in w.st then Some(now) else None
    case Navigated(n, _, _, _, now) => if n == name && name in w.st then Some(now) else None
    case Create(n, _, _, now) => if n == name then Some(now) else None
    case Rebind(n, rebound) => if n == name then Some(rebound.lastActive) else None
    case Register(n, _, now) => if n == name && Answer(w, a).Registered? then Some(now) else None
    case RegisterReserved(n, _, now) => if n == name && Answer(w, a).Registered? then Some(now) else None
    case Remove(id, _, now) => if name in w.st && id in w.st[name].tabs then Some(now) else None
    case Update(n, id, url, title, now) =>
      if n == name && name in w.st && id in w.st[name].tabs
         && (w.st[name].tabs[id].url != url || w.st[name].tabs[id].title != title)
      then Some(now) else None
    case _ => None
  }

  /** A use is recorded, and nothing else changes what is recorded. */
  lemma UseIsRecorded(w: World, a: Action, name: string)
    requires Enabled(w, a) && UniqueOwners(w.st) && name in NextState(w.st, a)
    ensures UsedAt(w, a, name).Some? ==> NextState(w.st, a)[name].lastActive == UsedAt(w, a, name).value
    ensures UsedAt(w, a, name).None? ==> name in w.st && NextState(w.st, a)[name].lastActive == w.st[name].lastActive
  {
    if a.Remove? && name in w.st && a.targetId in w.st[name].tabs {
      OwnerIs(w.st, name, a.targetId);
    }
  }

  /** No step from `m` up to `n` uses the session. */
  ghost predicate Unused(run: seq<World>, actions: seq<Action>, m: nat, n: nat, name: string)
    requires n <= |actions| && |run| == |actions| + 1
  {
    forall i :: m <= i < n ==> UsedAt(run[i], actions[i], name).None?
  }

  /** Step `m` is the last before `n` to use the session, at instant `t`. */
  ghost predicate LastUse(run: seq<World>, actions: seq<Action>, m: nat, n: nat, name: string, t: nat)
    requires n <= |actions| && |run| == |actions| + 1
  {
    m < n && UsedAt(run[m], actions[m], name) == Some(t) && Unused(run, actions, m + 1, n, name)
  }

  lemma UseStep(run: seq<World>, actions: seq<Action>, i: nat, name: string)
    requires IsRun(run, actions) && i < |actions| && name in run[i + 1].st
    ensures var used := UsedAt(run[i], actions[i], name);
            && (used.Some? ==> run[i + 1].st[name].lastActive == used.value)
            && (used.None? ==> name in run[i].st && run[i + 1].st[name].lastActive == run[i].st[name].lastActive)
  {
    RunOk(run, actions, i);
    UseIsRecorded(run[i], actions[i], name);
  }

  /**
    In every run what is recorded is the instant of the latest use, at step `m`,
    or what was recorded at the start if there was none.
   */
  lemma {:induction false} LatestUse(run: seq<World>, actions: seq<Action>, n: nat, name: string)
    returns (m: Option<nat>)
    requires IsRun(run, actions) && n <= |actions| && name in run[n].st
    ensures m.Some? ==> LastUse(run, actions, m.value, n, name, run[n].st[name].lastActive)
    ensures m.None? ==> Unused(run, actions, 0, n, name)
                        && name in run[0].st && run[0].st[name].lastActive == run[n].st[name].lastActive
  {
    m := None;
    if n > 0 {
      UseStep(run, actions, n - 1, name);
      if UsedAt(run[n - 1], actions[n - 1], name).Some? {
        m := Some(n - 1);
      } else {
        m := LatestUse(run, actions, n - 1, name);
      }
    }
  }
}
