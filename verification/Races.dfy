/** Who wins when several actors register the same target, and how many tabs a limit lets in. */
module Races {
  import opened Common
  import opened Sessions
  import opened Lifecycle
  import opened Ownership

  /** The session that a step acts on. */
  ghost function Subject(st: State, a: Action): string {
    if a.Remove? then (if Owner(st, a.targetId).Some? then Owner(st, a.targetId).value else "") else a.name
  }

  lemma OthersStay(w: World, a: Action, name: string)
    requires Enabled(w, a) && name != Subject(w.st, a)
    ensures name in NextState(w.st, a) <==> name in w.st
    ensures name in w.st ==> NextState(w.st, a)[name] == w.st[name]
    ensures At(NextHeld(w, a), name) == At(w.held, name) && At(NextExtra(w, a), name) == At(w.extra, name)
  {
  }

  // ----- one registrant wins -----

  /** No tab leaves its session. */
  predicate KeepsTabs(a: Action) {
    !a.Remove? && !a.Rebind? && !a.Close?
  }

  /** The action registers the target in a session that exists. */
  ghost predicate Attempt(w: World, a: Action, targetId: string) {
    (a.RegisterReserved? || a.Register?) && a.tab.targetId == targetId && a.name in w.st
  }

  /** The tab of a target in a session, as far as registration decides it. */
  ghost predicate Stored(st: State, name: string, tab: Tab) {
    && Owns(st, name, tab.targetId)
    && st[name].tabs[tab.targetId].cdpSessionId == tab.cdpSessionId
    && st[name].tabs[tab.targetId].ownership == tab.ownership
  }

  ghost predicate Wins(w: World, a: Action, targetId: string) {
    Attempt(w, a, targetId) && Answer(w, a).Registered?
  }

  lemma StoredStays(w: World, a: Action, name: string, tab: Tab)
    requires UniqueOwners(w.st) && Enabled(w, a) && KeepsTabs(a) && Stored(w.st, name, tab)
    ensures Stored(NextState(w.st, a), name, tab)
    ensures Attempt(w, a, tab.targetId) ==> !Answer(w, a).Registered?
  {
    OwnerIs(w.st, name, tab.targetId);
    if name != Subject(w.st, a) {
      OthersStay(w, a, name);
    } else {
      SubjectStores(w, a, tab);
    }
  }

  lemma SubjectStores(w: World, a: Action, tab: Tab)
    requires Enabled(w, a) && KeepsTabs(a) && Stored(w.st, a.name, tab)
    requires Owner(w.st, tab.targetId) == Some(a.name)
    ensures Stored(NextState(w.st, a), a.name, tab)
  {
  }

  lemma {:induction false} StoredThroughout(run: seq<World>, actions: seq<Action>, m: nat, n: nat,
                                            name: string, tab: Tab)
    requires IsRun(run, actions) && m <= n <= |actions|
    requires forall i :: m <= i < n ==> KeepsTabs(actions[i])
    requires Stored(run[m].st, name, tab)
    ensures Stored(run[n].st, name, tab)
    ensures forall i :: m <= i < n ==> !Wins(run[i], actions[i], tab.targetId)
  {
    if m < n {
      StoredThroughout(run, actions, m, n - 1, name, tab);
      StoredStep(run, actions, n - 1, name, tab);
    }
  }

  lemma StoredStep(run: seq<World>, actions: seq<Action>, i: nat, name: string, tab: Tab)
    requires IsRun(run, actions) && i < |actions| && KeepsTabs(actions[i]) && Stored(run[i].st, name, tab)
    ensures Stored(run[i + 1].st, name, tab) && !Wins(run[i], actions[i], tab.targetId)
  {
    RunOk(run, actions, i);
    StoredStays(run[i], actions[i], name, tab);
  }

  /** The winner's tab is stored. */
  lemma WinnerStored(w: World, a: Action)
    requires Enabled(w, a) && (a.RegisterReserved? || a.Register?) && a.name in w.st && Answer(w, a).Registered?
    ensures Stored(NextState(w.st, a), a.name, a.tab)
  {
  }

  lemma {:induction false} UnownedUntilWon(run: seq<World>, actions: seq<Action>, m: nat, n: nat, targetId: string)
    requires IsRun(run, actions) && m <= n <= |actions|
    requires forall i :: m <= i < n ==> KeepsTabs(actions[i]) && !Attempt(run[i], actions[i], targetId)
    requires Owner(run[m].st, targetId).None?
    ensures Owner(run[n].st, targetId).None?
  {
    if m < n {
      UnownedUntilWon(run, actions, m, n - 1, targetId);
      forall name ensures !Owns(run[n].st, name, targetId) {
        NobodyElseAdds(run[n - 1], actions[n - 1], name, targetId);
      }
    }
  }

  lemma NobodyElseAdds(w: World, a: Action, name: string, targetId: string)
    requires Enabled(w, a) && KeepsTabs(a) && !Attempt(w, a, targetId) && !Owns(w.st, name, targetId)
    ensures !Owns(NextState(w.st, a), name, targetId)
  {
  }

  /**
    While no tab is removed, exactly one of the actors that register an unowned
    target is told that it registered it, and it is the first; the tab it stored
    is never overwritten by another's.
   */
  lemma {:induction false} ExactlyOneWinner(run: seq<World>, actions: seq<Action>, m: nat, n: nat,
                                            targetId: string, k: nat)
    requires IsRun(run, actions) && m <= k < n <= |actions|
    requires forall i :: m <= i < n ==> KeepsTabs(actions[i])
    requires Owner(run[m].st, targetId).None?
    requires Attempt(run[k], actions[k], targetId)
    requires forall i :: m <= i < k ==> !Attempt(run[i], actions[i], targetId)
    ensures forall i :: m <= i < n ==> (Wins(run[i], actions[i], targetId) <==> i == k)
    ensures Stored(run[n].st, actions[k].name, actions[k].tab)
  {
    UnownedUntilWon(run, actions, m, k, targetId);
    assert Answer(run[k], actions[k]).Registered?;
    WinnerStored(run[k], actions[k]);
    StoredThroughout(run, actions, k + 1, n, actions[k].name, actions[k].tab);
  }

  // ----- reservations -----

  /** Every session counts the reservations that are held for it, and none is held for a session that is not there. */
  ghost predicate Conserved(w: World) {
    forall name :: CountTrue(w.st, w.held, name)
  }

  /** The one reservation that the count cannot hold: an unlimited one when the counter is at its largest value. */
  ghost predicate Saturates(w: World, a: Action) {
    a.Reserve? && a.max == 0 && a.name in w.st && w.st[a.name].pending >= USIZE_MAX
  }

  /** The count of one session is true. */
  ghost predicate CountTrue(st: State, held: map<string, nat>, name: string) {
    if name in st then st[name].pending == At(held, name) else At(held, name) == 0
  }

  lemma ReserveCounts(w: World, name: string, max: nat)
    requires CountTrue(w.st, w.held, name) && max <= USIZE_MAX
    ensures CountTrue(AfterReserve(w.st, name, max), NextHeld(w, Reserve(name, max)), name)
            <==> !(max == 0 && name in w.st && w.st[name].pending >= USIZE_MAX)
  {
    if name in w.st {
      LimitIsExact(w.st[name], max);
    }
  }

  lemma OtherCounts(w: World, a: Action)
    requires Conserved(w) && Enabled(w, a) && !a.Reserve?
    ensures CountTrue(NextState(w.st, a), NextHeld(w, a), Subject(w.st, a))
  {
    assert CountTrue(w.st, w.held, Subject(w.st, a));
  }

  /** A step keeps the count true exactly when it does not saturate it. */
  lemma StepConserves(w: World, a: Action)
    requires Conserved(w) && Enabled(w, a)
    ensures Conserved(Next(w, a)) <==> !Saturates(w, a)
  {
    var subject := Subject(w.st, a);
    assert CountTrue(w.st, w.held, subject);
    if a.Reserve? {
      ReserveCounts(w, a.name, a.max);
    } else {
      OtherCounts(w, a);
    }
    forall name | name != subject ensures CountTrue(NextState(w.st, a), NextHeld(w, a), name) {
      OthersStay(w, a, name);
      assert CountTrue(w.st, w.held, name);
    }
  }

  /** In every run whose counters stay below the largest `usize`, no reservation is lost or invented. */
  lemma {:induction false} ReservationsConserved(run: seq<World>, actions: seq<Action>, n: nat)
    requires IsRun(run, actions) && n <= |actions|
    requires forall i :: 0 <= i < n ==> !Saturates(run[i], actions[i])
    ensures Conserved(run[n])
  {
    if n > 0 {
      ReservationsConserved(run, actions, n - 1);
      RunOk(run, actions, n - 1);
      StepConserves(run[n - 1], actions[n - 1]);
    }
  }

  /** With a limit, tabs and reservations exceed it by no more than the tabs that came without a reservation. */
  ghost predicate WithinLimit(w: World, limit: nat) {
    forall name :: name in w.st ==> |w.st[name].tabs| + w.st[name].pending <= limit + At(w.extra, name)
  }

  lemma StepWithinLimit(w: World, a: Action, limit: nat)
    requires 0 < limit <= USIZE_MAX && Conserved(w) && Enabled(w, a) && WithinLimit(w, limit)
    requires a.Reserve? ==> a.max == limit
    ensures WithinLimit(Next(w, a), limit)
  {
    var after, subject := Next(w, a), Subject(w.st, a);
    forall name | name in after.st
      ensures |after.st[name].tabs| + after.st[name].pending <= limit + At(after.extra, name)
    {
      if name == subject {
        assert CountTrue(w.st, w.held, name);
        SubjectWithinLimit(w, a, limit);
      } else {
        OthersStay(w, a, name);
      }
    }
  }

  lemma SubjectWithinLimit(w: World, a: Action, limit: nat)
    requires 0 < limit <= USIZE_MAX && Enabled(w, a) && (a.Reserve? ==> a.max == limit)
    requires var name := Subject(w.st, a);
             && name in NextState(w.st, a)
             && CountTrue(w.st, w.held, name)
             && (name in w.st ==> |w.st[name].tabs| + w.st[name].pending <= limit + At(w.extra, name))
    ensures var name := Subject(w.st, a);
            var s := NextState(w.st, a)[name];
            |s.tabs| + s.pending <= limit + At(NextExtra(w, a), name)
  {
    var st, name := w.st, Subject(w.st, a);
    match a
    case Reserve(_, _) => LimitIsExact(st[name], limit);
    case Remove(targetId, _, _) => Shrinks(st[name].tabs, (st[name].tabs - {targetId}));
    case Rebind(_, rebound) => Shrinks(st[name].tabs, rebound.tabs);
    case Update(_, _, _, _, _) => InfoSize(st, name, a.targetId, a.url, a.title);
    case Navigated(_, _, _, _, _) => InfoSize(st, name, a.targetId, a.url, a.title);
    case RegisterReserved(_, tab, _) => OneMore(st[name].tabs, tab.targetId, tab);
    case Register(_, tab, _) => OneMore(st[name].tabs, tab.targetId, tab);
    case _ =>
  }

  lemma Shrinks(tabs: map<string, Tab>, fewer: map<string, Tab>)
    requires forall id :: id in fewer ==> id in tabs
    ensures |fewer| <= |tabs|
  {
    assert |tabs| == |tabs.Keys| && |fewer| == |fewer.Keys|;
    SubsetSize(fewer.Keys, tabs.Keys);
  }

  lemma {:induction false} SubsetSize(a: set<string>, b: set<string>)
    requires a <= b
    ensures |a| <= |b|
  {
    if a != {} {
      var x :| x in a;
      SubsetSize(a - {x}, b - {x});
    }
  }

  lemma InfoSize(st: State, name: string, targetId: string, url: string, title: string)
    requires name in st
    ensures Owns(st, name, targetId) ==> |WithInfo(st[name], targetId, url, title, 0).tabs| == |st[name].tabs|
  {
  }

  lemma OneMore(tabs: map<string, Tab>, id: string, tab: Tab)
    ensures |tabs[id := tab]| <= |tabs| + 1
  {
  }

  lemma {:induction false} RunWithinLimit(run: seq<World>, actions: seq<Action>, n: nat, limit: nat)
    requires IsRun(run, actions) && n <= |actions| && 0 < limit <= USIZE_MAX
    requires forall i :: 0 <= i < n && actions[i].Reserve? ==> actions[i].max == limit
    ensures WithinLimit(run[n], limit) && Conserved(run[n])
  {
    if n > 0 {
      RunWithinLimit(run, actions, n - 1, limit);
      RunOk(run, actions, n - 1);
      StepConserves(run[n - 1], actions[n - 1]);
      StepWithinLimit(run[n - 1], actions[n - 1], limit);
    }
  }
}
