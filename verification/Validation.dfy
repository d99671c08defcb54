/** The persisted form of the sessions, and what `validate_persisted_state` accepts. */
module Validation {
  import opened Common
  import opened Strings
  import opened Sessions
  import opened Ownership

  datatype PersistedTab = PersistedTab(targetId: string, url: string, title: string, ownership: TabOwnership)

  datatype PersistedSession = PersistedSession(name: string, mode: SessionMode, host: string,
                                               contextId: Option<string>, tabs: seq<PersistedTab>,
                                               active: Option<string>, createdAt: nat, lastActive: nat,
                                               disconnected: bool)

  datatype PersistedState = PersistedState(version: nat, sessions: seq<PersistedSession>)

  datatype Invalid =
    | EmptyName | PaddedName | DuplicateName
    | EmptyHost | PaddedHost
    | DefaultWithContext | DefaultIsolated | NamedDefault | NoContext | PaddedContext
    | EmptyTarget | PaddedTarget | DuplicateTarget | SharedTarget | AttachedInIsolated
    | EmptyActive | PaddedActive | DanglingActive | NoActive

  // ----- the checks of one session, in order -----

  function NameError(s: PersistedSession, names: set<string>): Option<Invalid> {
    if Trim(s.name) == [] then Some(EmptyName)
    else if Trim(s.name) != s.name then Some(PaddedName)
    else if s.name in names then Some(DuplicateName)
    else None
  }

  function HostError(s: PersistedSession): Option<Invalid> {
    if Trim(s.host) == [] then Some(EmptyHost)
    else if Trim(s.host) != s.host then Some(PaddedHost)
    else None
  }

  function ModeError(s: PersistedSession): Option<Invalid> {
    if s.name == "default" then
      if s.mode.Isolated? then Some(DefaultIsolated)
      else if s.contextId.Some? then Some(DefaultWithContext)
      else None
    else if s.mode.Default? then Some(NamedDefault)
    else if s.contextId.None? || Trim(s.contextId.value) == [] then Some(NoContext)
    else if Trim(s.contextId.value) != s.contextId.value then Some(PaddedContext)
    else None
  }

  function TabError(mode: SessionMode, tab: PersistedTab, targets: set<string>, owned: set<string>): Option<Invalid> {
    if Trim(tab.targetId) == [] then Some(EmptyTarget)
    else if Trim(tab.targetId) != tab.targetId then Some(PaddedTarget)
    else if tab.targetId in targets then Some(DuplicateTarget)
    else if tab.targetId in owned then Some(SharedTarget)
    else if mode.Isolated? && tab.ownership.Attached? then Some(AttachedInIsolated)
    else None
  }

  function ActiveError(s: PersistedSession, targets: set<string>): Option<Invalid> {
    match s.active
    case Some(active) =>
      if Trim(active) == [] then Some(EmptyActive)
      else if Trim(active) != active then Some(PaddedActive)
      else if active in targets then None
      else Some(DanglingActive)
    case None => if s.tabs != [] then Some(NoActive) else None
  }

  /** The targets of a session's tabs. */
  function Targets(tabs: seq<PersistedTab>): set<string> {
    set tab | tab in tabs :: tab.targetId
  }

  method ValidateTabs(s: PersistedSession, owned: set<string>) returns (error: Option<Invalid>, targets: set<string>)
    ensures error.None? ==> targets == Targets(s.tabs) && TabsValid(s) && targets !! owned
    ensures error.Some? ==> exists k :: FirstTabProblem(s, k, owned, error.value)
  {
    targets := {};
    for i := 0 to |s.tabs|
      invariant targets == Targets(s.tabs[..i]) && targets !! owned
      invariant forall k :: 0 <= k < i ==> TabFits(s.mode, s.tabs[k])
      invariant forall j, k :: 0 <= j < k < i ==> s.tabs[j].targetId != s.tabs[k].targetId
    {
      TrimKeeps(s.tabs[i].targetId);
      error := TabError(s.mode, s.tabs[i], targets, owned);
      if error.Some? {
        TabErrorIsFirst(s, i, owned, error.value);
        return;
      }
      NextTarget(s.tabs, i);
      targets := targets + {s.tabs[i].targetId};
    }
    assert s.tabs[..|s.tabs|] == s.tabs;
    error := None;
  }

  lemma NextTarget(tabs: seq<PersistedTab>, i: nat)
    requires i < |tabs|
    ensures Targets(tabs[..i + 1]) == Targets(tabs[..i]) + {tabs[i].targetId}
    ensures forall k :: 0 <= k < i ==> tabs[k].targetId in Targets(tabs[..i])
  {
    assert tabs[..i + 1] == tabs[..i] + [tabs[i]];
    forall k | 0 <= k < i ensures tabs[k].targetId in Targets(tabs[..i]) {
      assert tabs[..i][k] == tabs[k];
    }
  }

  method Validate(p: PersistedState) returns (error: Option<Invalid>)
    ensures error.None? <==> ValidState(p)
    ensures error.Some? ==>
              exists i :: 0 <= i < |p.sessions| && ValidUpTo(p, i) && FirstProblem(p, i, error.value)
  {
    var names: set<string>, owned: set<string> := {}, {};
    for i := 0 to |p.sessions|
      invariant ValidUpTo(p, i)
      invariant names == Names(p, i) && owned == Owned(p, i)
    {
      var s := p.sessions[i];
      error := NameError(s, names);
      if error.None? {
        error := HostError(s);
      }
      if error.None? {
        error := ModeError(s);
      }
      if error.Some? {
        HeaderProblem(p, i, error.value);
        HeaderIsFirst(p, i, error.value);
        return;
      }
      var targets;
      error, targets := ValidateTabs(s, owned);
      if error.Some? {
        TabsProblem(p, i, error.value);
        TabsAreFirst(p, i, error.value);
        return;
      }
      error := ActiveError(s, targets);
      if error.Some? {
        ActiveProblem(p, i, error.value);
        ActiveIsFirst(p, i, error.value);
        return;
      }
      SessionPasses(p, i);
      OneMoreSession(p, i);
      names := names + {s.name};
      owned := owned + targets;
    }
    error := None;
  }

  // ----- what makes a state valid -----

  predicate TabFits(mode: SessionMode, tab: PersistedTab) {
    Clean(tab.targetId) && (mode.Isolated? ==> tab.ownership.Owned?)
  }

  predicate TabsValid(s: PersistedSession) {
    && (forall k :: 0 <= k < |s.tabs| ==> TabFits(s.mode, s.tabs[k]))
    && forall j, k :: 0 <= j < k < |s.tabs| ==> s.tabs[j].targetId != s.tabs[k].targetId
  }

  /** The active target is a listed one, or there is none to list. */
  predicate ActiveFits(s: PersistedSession) {
    match s.active
    case Some(active) => active in Targets(s.tabs)
    case None => s.tabs == []
  }

  /** A session that is well-formed on its own. */
  predicate SessionValid(s: PersistedSession) {
    && Clean(s.name) && Clean(s.host) && ModeFits(s.name, s.mode, s.contextId)
    && TabsValid(s) && ActiveFits(s)
  }

  predicate Apart(a: PersistedSession, b: PersistedSession) {
    Targets(a.tabs) !! Targets(b.tabs)
  }

  /** The first `n` sessions are well-formed, have different names and share no target. */
  ghost predicate ValidUpTo(p: PersistedState, n: nat) {
    && n <= |p.sessions|
    && (forall i :: 0 <= i < n ==> SessionValid(p.sessions[i]))
    && (forall i, j :: 0 <= i < j < n ==> p.sessions[i].name != p.sessions[j].name)
    && forall i, j :: 0 <= i < j < n ==> Apart(p.sessions[i], p.sessions[j])
  }

  ghost predicate ValidState(p: PersistedState) {
    ValidUpTo(p, |p.sessions|)
  }

  ghost function Names(p: PersistedState, n: nat): set<string>
    requires n <= |p.sessions|
  {
    set i | 0 <= i < n :: p.sessions[i].name
  }

  ghost function Owned(p: PersistedState, n: nat): set<string>
    requires n <= |p.sessions|
  {
    set i, t | 0 <= i < n && t in Targets(p.sessions[i].tabs) :: t
  }

  // ----- what each error reports -----

  /** Tab `k` of a session has the problem `e`, given the targets of the sessions before. */
  predicate TabProblem(s: PersistedSession, k: int, owned: set<string>, e: Invalid) {
    && 0 <= k < |s.tabs|
    && var id := s.tabs[k].targetId;
       match e
       case EmptyTarget => Trim(id) == []
       case PaddedTarget => Trim(id) != id
       case DuplicateTarget => exists j :: 0 <= j < k && s.tabs[j].targetId == id
       case SharedTarget => id in owned
       case AttachedInIsolated => s.mode.Isolated? && s.tabs[k].ownership.Attached?
       case _ => false
  }

  /** A session has a problem `e` that is not about one of its tabs, given the names of the sessions before. */
  predicate SessionProblem(s: PersistedSession, names: set<string>, e: Invalid) {
    match e
    case EmptyName => Trim(s.name) == []
    case PaddedName => Trim(s.name) != s.name
    case DuplicateName => s.name in names
    case EmptyHost => Trim(s.host) == []
    case PaddedHost => Trim(s.host) != s.host
    case DefaultIsolated => s.name == "default" && s.mode.Isolated?
    case DefaultWithContext => s.name == "default" && s.contextId.Some?
    case NamedDefault => s.name != "default" && s.mode.Default?
    case NoContext => s.mode.Isolated? && (s.contextId.None? || Trim(s.contextId.value) == [])
    case PaddedContext => s.mode.Isolated? && s.contextId.Some? && Trim(s.contextId.value) != s.contextId.value
    case EmptyActive => s.active.Some? && Trim(s.active.value) == []
    case PaddedActive => s.active.Some? && Trim(s.active.value) != s.active.value
    case DanglingActive => s.active.Some? && s.active.value !in Targets(s.tabs)
    case NoActive => s.active.None? && s.tabs != []
    case _ => false
  }

  /** Session `i` has the problem `e`. */
  ghost predicate Problem(p: PersistedState, i: nat, e: Invalid)
    requires i < |p.sessions|
  {
    if OfTab(e) then exists k :: TabProblem(p.sessions[i], k, Owned(p, i), e)
    else SessionProblem(p.sessions[i], Names(p, i), e)
  }

  /** The place of a check among those of a session; those of one tab come one after the other. */
  function Rank(e: Invalid): nat {
    match e
    case EmptyName => 0
    case PaddedName => 1
    case DuplicateName => 2
    case EmptyHost => 3
    case PaddedHost => 4
    case DefaultWithContext => 6
    case DefaultIsolated => 5
    case NamedDefault => 5
    case NoContext => 5
    case PaddedContext => 6
    case EmptyTarget => 7
    case PaddedTarget => 8
    case DuplicateTarget => 9
    case SharedTarget => 10
    case AttachedInIsolated => 11
    case EmptyActive => 12
    case PaddedActive => 13
    case DanglingActive => 14
    case NoActive => 12
  }

  predicate OfTab(e: Invalid) {
    7 <= Rank(e) <= 11
  }

  /** `e` is what the first tab with a problem has first. */
  ghost predicate FirstTabProblem(s: PersistedSession, k: int, owned: set<string>, e: Invalid) {
    && TabProblem(s, k, owned, e)
    && (forall j, e' :: 0 <= j < k ==> !TabProblem(s, j, owned, e'))
    && forall e' :: Rank(e') < Rank(e) ==> !TabProblem(s, k, owned, e')
  }

  /** Session `i` has the problem `e`, and none that is looked for before. */
  ghost predicate FirstProblem(p: PersistedState, i: nat, e: Invalid)
    requires i < |p.sessions|
  {
    && Problem(p, i, e)
    && (forall e' :: Rank(e') < Rank(e) && !(OfTab(e) && OfTab(e')) ==> !Problem(p, i, e'))
    && (OfTab(e) ==> exists k :: FirstTabProblem(p.sessions[i], k, Owned(p, i), e))
  }

  lemma TabErrorIsFirst(s: PersistedSession, k: nat, owned: set<string>, e: Invalid)
    requires k < |s.tabs| && TabError(s.mode, s.tabs[k], Targets(s.tabs[..k]), owned) == Some(e)
    requires Targets(s.tabs[..k]) !! owned
    requires forall j :: 0 <= j < k ==> TabFits(s.mode, s.tabs[j])
    requires forall i, j :: 0 <= i < j < k ==> s.tabs[i].targetId != s.tabs[j].targetId
    ensures FirstTabProblem(s, k, owned, e)
  {
    TargetsAre(s.tabs[..k], s.tabs[k].targetId);
    forall j, e' | 0 <= j < k ensures !TabProblem(s, j, owned, e') {
      TrimKeeps(s.tabs[j].targetId);
      TargetsAre(s.tabs[..k], s.tabs[j].targetId);
      assert s.tabs[..k][j] == s.tabs[j];
    }
    if x :| 0 <= x < |s.tabs[..k]| && s.tabs[..k][x].targetId == s.tabs[k].targetId {
      assert s.tabs[x].targetId == s.tabs[k].targetId;
    }
    if x :| 0 <= x < k && s.tabs[x].targetId == s.tabs[k].targetId {
      assert s.tabs[..k][x] == s.tabs[x];
    }
  }

  lemma HeaderIsFirst(p: PersistedState, i: nat, e: Invalid)
    requires i < |p.sessions| && Problem(p, i, e)
    requires var s, names := p.sessions[i], Names(p, i);
             || Some(e) == NameError(s, names)
             || (NameError(s, names).None? && Some(e) == HostError(s))
             || (NameError(s, names).None? && HostError(s).None? && Some(e) == ModeError(s))
    ensures FirstProblem(p, i, e)
  {
    var s, names := p.sessions[i], Names(p, i);
    forall e' | Rank(e') < Rank(e) ensures !Problem(p, i, e') {
      if NameError(s, names).Some? {
        NameIsFirst(s, names, e, e');
      } else if HostError(s).Some? {
        HostIsFirst(s, names, e, e');
      } else {
        ModeIsFirst(s, names, e, e');
      }
    }
  }

  lemma NameIsFirst(s: PersistedSession, names: set<string>, e: Invalid, e': Invalid)
    requires Some(e) == NameError(s, names) && Rank(e') < Rank(e)
    ensures Rank(e) < 7 && !SessionProblem(s, names, e')
  {
  }

  lemma HostIsFirst(s: PersistedSession, names: set<string>, e: Invalid, e': Invalid)
    requires NameError(s, names).None? && Some(e) == HostError(s) && Rank(e') < Rank(e)
    ensures Rank(e) < 7 && !SessionProblem(s, names, e')
  {
  }

  lemma ModeIsFirst(s: PersistedSession, names: set<string>, e: Invalid, e': Invalid)
    requires NameError(s, names).None? && HostError(s).None? && Some(e) == ModeError(s) && Rank(e') < Rank(e)
    ensures Rank(e) < 7 && !SessionProblem(s, names, e')
  {
  }

  lemma HeaderPassed(s: PersistedSession, names: set<string>, e: Invalid)
    requires Rank(e) < 7 && NameError(s, names).None? && HostError(s).None? && ModeError(s).None?
    ensures !SessionProblem(s, names, e)
  {
  }

  lemma TabsAreFirst(p: PersistedState, i: nat, e: Invalid)
    requires i < |p.sessions| && Problem(p, i, e)
    requires var s := p.sessions[i];
             NameError(s, Names(p, i)).None? && HostError(s).None? && ModeError(s).None?
    requires exists k :: FirstTabProblem(p.sessions[i], k, Owned(p, i), e)
    ensures FirstProblem(p, i, e)
  {
    var k :| FirstTabProblem(p.sessions[i], k, Owned(p, i), e);
    assert OfTab(e);
    forall e' | Rank(e') < Rank(e) && !OfTab(e') ensures !Problem(p, i, e') {
      HeaderPassed(p.sessions[i], Names(p, i), e');
    }
  }

  lemma ActiveIsFirst(p: PersistedState, i: nat, e: Invalid)
    requires i < |p.sessions| && Problem(p, i, e)
    requires var s, targets := p.sessions[i], Targets(p.sessions[i].tabs);
             && NameError(s, Names(p, i)).None? && HostError(s).None? && ModeError(s).None?
             && TabsValid(s) && targets !! Owned(p, i) && ActiveError(s, targets) == Some(e)
    ensures FirstProblem(p, i, e)
  {
    forall e' | Rank(e') < Rank(e) ensures !Problem(p, i, e') {
      if Rank(e') < 7 {
        HeaderPassed(p.sessions[i], Names(p, i), e');
      } else if OfTab(e') {
        forall k ensures !TabProblem(p.sessions[i], k, Owned(p, i), e') {
          if TabProblem(p.sessions[i], k, Owned(p, i), e') {
            TabProblemRefutes(p.sessions[i], k, Owned(p, i), e');
          }
        }
      }
    }
  }

  // ----- a problem means that the state is not valid -----

  lemma HeaderProblem(p: PersistedState, i: nat, e: Invalid)
    requires i < |p.sessions| && ValidUpTo(p, i)
    requires var s := p.sessions[i];
             Some(e) == NameError(s, Names(p, i)) || Some(e) == HostError(s) || Some(e) == ModeError(s)
    ensures Problem(p, i, e) && !ValidState(p)
  {
    var s := p.sessions[i];
    TrimKeeps(s.name);
    TrimKeeps(s.host);
    if s.contextId.Some? {
      TrimKeeps(s.contextId.value);
    }
  }

  lemma TabProblemRefutes(s: PersistedSession, k: int, owned: set<string>, e: Invalid)
    requires TabProblem(s, k, owned, e)
    ensures !TabsValid(s) || exists t :: t in Targets(s.tabs) && t in owned
  {
    TrimKeeps(s.tabs[k].targetId);
    assert s.tabs[k].targetId in Targets(s.tabs);
  }

  lemma OwnedDisjoint(p: PersistedState, i: nat)
    requires i < |p.sessions| && ValidState(p)
    ensures Targets(p.sessions[i].tabs) !! Owned(p, i)
  {
    forall t | t in Owned(p, i) ensures t !in Targets(p.sessions[i].tabs) {
      var j :| 0 <= j < i && t in Targets(p.sessions[j].tabs);
      assert Apart(p.sessions[j], p.sessions[i]);
    }
  }

  lemma TabsProblem(p: PersistedState, i: nat, e: Invalid)
    requires i < |p.sessions| && ValidUpTo(p, i)
    requires exists k :: TabProblem(p.sessions[i], k, Owned(p, i), e)
    ensures Problem(p, i, e) && !ValidState(p)
  {
    var k :| TabProblem(p.sessions[i], k, Owned(p, i), e);
    TabProblemRefutes(p.sessions[i], k, Owned(p, i), e);
    if ValidState(p) {
      OwnedDisjoint(p, i);
    }
  }

  lemma TargetsClean(s: PersistedSession)
    requires TabsValid(s)
    ensures forall t :: t in Targets(s.tabs) ==> Clean(t)
  {
    forall t | t in Targets(s.tabs) ensures Clean(t) {
      var tab :| tab in s.tabs && tab.targetId == t;
    }
  }

  lemma ActiveProblem(p: PersistedState, i: nat, e: Invalid)
    requires i < |p.sessions| && ValidUpTo(p, i)
    requires Some(e) == ActiveError(p.sessions[i], Targets(p.sessions[i].tabs))
    ensures Problem(p, i, e) && !ValidState(p)
  {
    var s := p.sessions[i];
    if s.active.Some? {
      TrimKeeps(s.active.value);
    }
    if TabsValid(s) {
      TargetsClean(s);
    }
  }

  lemma OneMoreSession(p: PersistedState, i: nat)
    requires i < |p.sessions|
    ensures Names(p, i + 1) == Names(p, i) + {p.sessions[i].name}
    ensures Owned(p, i + 1) == Owned(p, i) + Targets(p.sessions[i].tabs)
  {
  }

  lemma SessionPasses(p: PersistedState, i: nat)
    requires i < |p.sessions| && ValidUpTo(p, i)
    requires var s, targets := p.sessions[i], Targets(p.sessions[i].tabs);
             && NameError(s, Names(p, i)).None? && HostError(s).None? && ModeError(s).None?
             && TabsValid(s) && targets !! Owned(p, i) && ActiveError(s, targets).None?
    ensures ValidUpTo(p, i + 1)
  {
    HeaderPasses(p.sessions[i], Names(p, i));
    NewNames(p, i);
    NewTargets(p, i);
    ActivePasses(p.sessions[i]);
    Extends(p, i);
  }

  lemma ActivePasses(s: PersistedSession)
    requires Clean(s.name) && Clean(s.host) && ModeFits(s.name, s.mode, s.contextId)
    requires TabsValid(s) && ActiveError(s, Targets(s.tabs)).None?
    ensures SessionValid(s)
  {
  }

  lemma Extends(p: PersistedState, i: nat)
    requires i < |p.sessions| && ValidUpTo(p, i) && SessionValid(p.sessions[i])
    requires forall j :: 0 <= j < i ==> p.sessions[j].name != p.sessions[i].name
    requires forall j :: 0 <= j < i ==> Apart(p.sessions[j], p.sessions[i])
    ensures ValidUpTo(p, i + 1)
  {
  }

  lemma NewNames(p: PersistedState, i: nat)
    requires i < |p.sessions| && p.sessions[i].name !in Names(p, i)
    ensures forall j :: 0 <= j < i ==> p.sessions[j].name != p.sessions[i].name
  {
    forall j | 0 <= j < i ensures p.sessions[j].name != p.sessions[i].name {
      assert p.sessions[j].name in Names(p, i);
    }
  }

  lemma NewTargets(p: PersistedState, i: nat)
    requires i < |p.sessions| && Targets(p.sessions[i].tabs) !! Owned(p, i)
    ensures forall j :: 0 <= j < i ==> Apart(p.sessions[j], p.sessions[i])
  {
    forall j | 0 <= j < i ensures Apart(p.sessions[j], p.sessions[i]) {
      forall t | t in Targets(p.sessions[j].tabs) ensures t !in Targets(p.sessions[i].tabs) {
        assert t in Owned(p, i);
      }
    }
  }

  lemma HeaderPasses(s: PersistedSession, names: set<string>)
    requires NameError(s, names).None? && HostError(s).None? && ModeError(s).None?
    ensures Clean(s.name) && s.name !in names && Clean(s.host) && ModeFits(s.name, s.mode, s.contextId)
  {
    TrimKeeps(s.name);
    TrimKeeps(s.host);
    if s.contextId.Some? {
      TrimKeeps(s.contextId.value);
    }
  }

  // ----- the valid states, condition by condition -----

  /** The one session without a browser context of its own is the default one, and it is so named. */
  lemma ValidMeans(p: PersistedState)
    ensures ValidState(p) <==>
            && (forall i :: 0 <= i < |p.sessions| ==>
                  var s := p.sessions[i];
                  && Clean(s.name) && Clean(s.host)
                  && (if s.name == "default" then s.mode.Default? && s.contextId.None?
                      else s.mode.Isolated? && s.contextId.Some? && Clean(s.contextId.value))
                  && (forall k :: 0 <= k < |s.tabs| ==>
                        Clean(s.tabs[k].targetId) && (s.tabs[k].ownership.Attached? ==> s.name == "default"))
                  && (forall j, k :: 0 <= j < k < |s.tabs| ==> s.tabs[j].targetId != s.tabs[k].targetId)
                  && (s.active.None? ==> s.tabs == [])
                  && (s.active.Some? ==> exists k :: 0 <= k < |s.tabs| && s.tabs[k].targetId == s.active.value))
            && (forall i, j :: 0 <= i < j < |p.sessions| ==> p.sessions[i].name != p.sessions[j].name)
            && (forall i, j :: 0 <= i < j < |p.sessions| ==>
                  forall k, l :: 0 <= k < |p.sessions[i].tabs| && 0 <= l < |p.sessions[j].tabs| ==>
                    p.sessions[i].tabs[k].targetId != p.sessions[j].tabs[l].targetId)
  {
    forall i | 0 <= i < |p.sessions| ensures SessionValid(p.sessions[i]) <==> SessionMeans(p.sessions[i]) {
      SessionIs(p.sessions[i]);
    }
    forall i, j | 0 <= i < j < |p.sessions| ensures Apart(p.sessions[i], p.sessions[j]) <==>
      forall k, l :: 0 <= k < |p.sessions[i].tabs| && 0 <= l < |p.sessions[j].tabs| ==>
        p.sessions[i].tabs[k].targetId != p.sessions[j].tabs[l].targetId
    {
      ApartIs(p.sessions[i], p.sessions[j]);
    }
  }

  predicate SessionMeans(s: PersistedSession) {
    && Clean(s.name) && Clean(s.host)
    && (if s.name == "default" then s.mode.Default? && s.contextId.None?
        else s.mode.Isolated? && s.contextId.Some? && Clean(s.contextId.value))
    && (forall k :: 0 <= k < |s.tabs| ==>
          Clean(s.tabs[k].targetId) && (s.tabs[k].ownership.Attached? ==> s.name == "default"))
    && (forall j, k :: 0 <= j < k < |s.tabs| ==> s.tabs[j].targetId != s.tabs[k].targetId)
    && (s.active.None? ==> s.tabs == [])
    && (s.active.Some? ==> exists k :: 0 <= k < |s.tabs| && s.tabs[k].targetId == s.active.value)
  }

  lemma TargetsAre(tabs: seq<PersistedTab>, t: string)
    ensures t in Targets(tabs) <==> exists k :: 0 <= k < |tabs| && tabs[k].targetId == t
  {
    if t in Targets(tabs) {
      var tab :| tab in tabs && tab.targetId == t;
      var k :| 0 <= k < |tabs| && tabs[k] == tab;
    }
    if k :| 0 <= k < |tabs| && tabs[k].targetId == t {
      assert tabs[k] in tabs;
    }
  }

  lemma SessionIs(s: PersistedSession)
    ensures SessionValid(s) <==> SessionMeans(s)
  {
    if s.active.Some? {
      TargetsAre(s.tabs, s.active.value);
    }
  }

  lemma ApartIs(a: PersistedSession, b: PersistedSession)
    ensures Apart(a, b) <==>
            forall k, l :: 0 <= k < |a.tabs| && 0 <= l < |b.tabs| ==> a.tabs[k].targetId != b.tabs[l].targetId
  {
    forall t ensures t in Targets(a.tabs) <==> exists k :: 0 <= k < |a.tabs| && a.tabs[k].targetId == t {
      TargetsAre(a.tabs, t);
    }
    forall t ensures t in Targets(b.tabs) <==> exists k :: 0 <= k < |b.tabs| && b.tabs[k].targetId == t {
      TargetsAre(b.tabs, t);
    }
    if Apart(a, b) {
      forall k, l | 0 <= k < |a.tabs| && 0 <= l < |b.tabs| ensures a.tabs[k].targetId != b.tabs[l].targetId {
        assert a.tabs[k].targetId in Targets(a.tabs);
      }
    }
  }
}
