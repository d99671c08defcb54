/** What a start makes of the file that the daemon wrote before, in every run. */
module Restart {
  import opened Common
  import opened Strings
  import opened Sessions
  import opened Lifecycle
  import opened Ownership
  import opened Validation
  import opened Persist

  // ----- loading a file -----

  datatype LoadResult = LoadResult(state: PersistedState, disabled: bool, reason: Option<Refusal>)

  const EMPTY_STATE := PersistedState(CURRENT_VERSION, [])

  function Refused(reason: Refusal): LoadResult {
    LoadResult(EMPTY_STATE, true, Some(reason))
  }

  /** A file of another version, or one that is not valid, is left alone and nothing is restored from it. */
  ghost function Read(p: PersistedState): LoadResult {
    if p.version != CURRENT_VERSION then Refused(UnsupportedVersion)
    else if ValidState(p) then LoadResult(p, false, None)
    else Refused(InvalidState)
  }

  /** `load_state_from_path` once the file is parsed. */
  method LoadState(p: PersistedState) returns (r: LoadResult)
    ensures r == Read(p)
  {
    if p.version != CURRENT_VERSION {
      return Refused(UnsupportedVersion);
    }
    var error := Validate(p);
    r := if error.None? then LoadResult(p, false, None) else Refused(InvalidState);
  }

  method PrepareSessions(daemon: DaemonState, sessions: seq<PersistedSession>)
    requires daemon.Separate()
    modifies daemon`sessions
    ensures daemon.Separate() && daemon.View() == Prepared(old(daemon.View()), sessions, |sessions|)
  {
    for i := 0 to |sessions|
      invariant daemon.Separate() && daemon.View() == Prepared(old(daemon.View()), sessions, i)
    {
      var session := new Session(IntoSession(sessions[i]));
      session.MarkDisconnected();
      daemon.InsertSession(sessions[i].name, session);
    }
  }

  method PrepareLoadedState(daemon: DaemonState, loaded: LoadResult)
    requires daemon.Separate()
    modifies daemon`sessions, daemon`persistDisabled, daemon`persistDisabledReason
    ensures daemon.Separate()
    ensures daemon.View() == Prepared(old(daemon.View()), loaded.state.sessions, |loaded.state.sessions|)
    ensures daemon.persistDisabled == (old(daemon.persistDisabled) || loaded.disabled)
    ensures daemon.persistDisabledReason == loaded.reason
  {
    if loaded.disabled {
      daemon.persistDisabled := true;
    }
    daemon.persistDisabledReason := loaded.reason;
    PrepareSessions(daemon, loaded.state.sessions);
  }

  /** What is refused: any version but 1, and a file of version 1 that is not valid. */
  lemma ReadMeans(p: PersistedState)
    ensures p.version != 1 ==> Read(p) == LoadResult(PersistedState(1, []), true, Some(UnsupportedVersion))
    ensures p.version == 1 && !ValidState(p) ==> Read(p) == LoadResult(PersistedState(1, []), true, Some(InvalidState))
    ensures p.version == 1 && ValidState(p) ==> Read(p) == LoadResult(p, false, None)
  {
  }

  // ----- a restart -----

  /** What a session is after a restart: its CDP sessions and reservations are gone, and it waits for its browser. */
  function Restarted(s: Record): Record {
    s.(tabs := map id | id in s.tabs :: s.tabs[id].(cdpSessionId := ""), disconnected := true, pending := 0)
  }

  /** Only that: its name, mode, host and context, its tabs and what it acts on, and its instants are as they were. */
  lemma RestartedIs(s: Record)
    ensures var r := Restarted(s);
            && r.name == s.name && r.mode == s.mode && r.host == s.host && r.contextId == s.contextId
            && r.active == s.active && r.createdAt == s.createdAt && r.lastActive == s.lastActive
            && r.disconnected && r.pending == 0 && r.tabs.Keys == s.tabs.Keys
            && forall id :: id in s.tabs ==>
                 r.tabs[id] == Tab(s.tabs[id].targetId, s.tabs[id].url, s.tabs[id].title, "", s.tabs[id].ownership)
  {
  }

  lemma RestartedTab(s: Record, id: string)
    requires Coherent(s) && id in s.tabs
    ensures var m := TabMap(TabList(s.tabs));
            id in m && m[id] == s.tabs[id].(cdpSessionId := "")
  {
    var l, ids := TabList(s.tabs), Ascending(s.tabs.Keys);
    assert id in ids;
    var k :| 0 <= k < |ids| && ids[k] == id;
    TabListDistinct(s);
    ListedTab(s.tabs, k);
    TabMapAt(l, k);
  }

  lemma RestartedKeys(s: Record)
    requires Coherent(s)
    ensures TabMap(TabList(s.tabs)).Keys == s.tabs.Keys
  {
    TabListDistinct(s);
    TabMapKeys(TabList(s.tabs));
    TabListTargets(s);
  }

  lemma RestartedTabs(s: Record)
    requires Coherent(s)
    ensures TabMap(TabList(s.tabs)) == Restarted(s).tabs
  {
    var m := TabMap(TabList(s.tabs));
    RestartedKeys(s);
    forall id | id in s.tabs ensures id in m && m[id] == s.tabs[id].(cdpSessionId := "") {
      RestartedTab(s, id);
    }
  }

  lemma RestartedSession(st: State, name: string)
    requires Ok(st) && CleanNames(st) && name in st
    ensures name in Load(Build(st)) && Load(Build(st))[name] == Restarted(st[name])
  {
    var p := Build(st);
    var k := BuiltIndex(st, name);
    BuildValidExactly(st);
    BuiltSession(st, k);
    ListedSession(st, k);
    PreparedAt(p.sessions, |p.sessions|, k);
    RestartedTabs(st[name]);
  }

  lemma LoadedWasThere(st: State, name: string)
    requires Ok(st) && CleanNames(st) && name in Load(Build(st))
    ensures name in st
  {
    BuildValidExactly(st);
    var i := LoadedFrom(Build(st), name);
    BuiltSession(st, i);
    ListedSession(st, i);
  }

  lemma AllComeBack(st: State)
    requires Ok(st) && CleanNames(st)
    ensures Load(Build(st)) == map name | name in st :: Restarted(st[name])
  {
    forall name | name in st ensures name in Load(Build(st)) && Load(Build(st))[name] == Restarted(st[name]) {
      RestartedSession(st, name);
    }
    forall name | name in Load(Build(st)) ensures name in st {
      LoadedWasThere(st, name);
    }
  }

  /**
    After a restart every session is back, and no other is, if no name is empty
    or padded; with one such name none is back and nothing will be written.
   */
  lemma RestartKeeps(st: State)
    requires Ok(st)
    ensures var loaded := Read(Build(st));
            && loaded.disabled == !CleanNames(st)
            && loaded.reason == (if CleanNames(st) then None else Some(InvalidState))
            && Load(loaded.state) == if CleanNames(st) then map name | name in st :: Restarted(st[name]) else map[]
  {
    BuildValidExactly(st);
    if CleanNames(st) {
      AllComeBack(st);
    }
  }

  // ----- what runs write -----

  /** At any point of any run the names present alone decide whether the file is accepted. */
  lemma RunWritesValid(run: seq<World>, actions: seq<Action>, n: nat)
    requires IsRun(run, actions) && n <= |actions|
    ensures ValidState(Build(run[n].st)) <==> CleanNames(run[n].st)
  {
    RunOk(run, actions, n);
    BuildValidExactly(run[n].st);
  }

  /** A session present was restored, or some client asked for its name. */
  lemma {:induction false} NamesCameFrom(run: seq<World>, actions: seq<Action>, n: nat, name: string)
    requires IsRun(run, actions) && n <= |actions| && name in run[n].st
    ensures name in run[0].st || exists i :: 0 <= i < n && actions[i].Create? && actions[i].name == name
    decreases n
  {
    if n > 0 {
      SessionsAppear(run[n - 1], actions[n - 1], name);
      if name in run[n - 1].st {
        NamesCameFrom(run, actions, n - 1, name);
      }
    }
  }

  lemma SessionsAppear(w: World, a: Action, name: string)
    requires Enabled(w, a) && name in NextState(w.st, a)
    ensures name in w.st || (a.Create? && a.name == name)
  {
  }

  /** If every name that clients ask for is clean, every file written by a daemon that restored a valid one is valid. */
  lemma CleanRequestsWriteValid(run: seq<World>, actions: seq<Action>, n: nat)
    requires IsRun(run, actions) && n <= |actions| && CleanNames(run[0].st)
    requires forall i :: 0 <= i < n && actions[i].Create? ==> Clean(actions[i].name)
    ensures ValidState(Build(run[n].st))
  {
    forall name | name in run[n].st ensures Clean(name) {
      NamesCameFrom(run, actions, n, name);
    }
    RunWritesValid(run, actions, n);
  }

  /** A client that connects with a padded name makes a file that the next start refuses. */
  lemma PaddedNameRefused(w: World, a: Action)
    requires w == World(map[], map[], map[])
    requires a == Create("a ", "127.0.0.1:9222", Some("C"), 0)
    ensures Initial(w) && Enabled(w, a) && Ok(Next(w, a).st)
    ensures !ValidState(Build(Next(w, a).st))
  {
    assert Clean("127.0.0.1:9222") && Clean("C");
    NextKeeps(w, a);
    assert "a " in Next(w, a).st && !Clean("a ");
    BuildValidExactly(Next(w, a).st);
  }

  /**
    The sessions as the writer sees them when it reads each at a moment of its
    own: `at` says when each was read.
   */
  ghost function ReadAt(run: seq<World>, at: map<string, nat>): State
    requires forall name :: name in at ==> at[name] < |run| && name in run[at[name]].st
  {
    map name | name in at :: run[at[name]].st[name]
  }

  /** No target that one session has in this part of the run is registered for another in it. */
  ghost predicate NoTargetMoves(run: seq<World>, actions: seq<Action>, from: nat, to: nat)
    requires to <= |actions| && |run| == |actions| + 1
  {
    forall k, i, other :: from <= k <= i < to && Registers(actions[i]) && other != actions[i].name ==>
      !Owns(run[k].st, other, actions[i].tab.targetId)
  }

  predicate Registers(a: Action) {
    a.RegisterReserved? || a.Register?
  }

  /**
    Reading the sessions one after another is as good as reading them at once
    while no target moves from one session to another.
   */
  lemma ReadOneByOne(run: seq<World>, actions: seq<Action>, from: nat, to: nat, at: map<string, nat>)
    requires IsRun(run, actions) && from <= to <= |actions| && NoTargetMoves(run, actions, from, to)
    requires forall name :: name in at ==> from <= at[name] <= to && name in run[at[name]].st
    ensures ValidState(Build(ReadAt(run, at))) <==> CleanNames(ReadAt(run, at))
  {
    var st := ReadAt(run, at);
    forall name | name in st ensures SessionOk(name, st[name]) {
      RunOk(run, actions, at[name]);
    }
    forall a, b, t | Owns(st, a, t) && Owns(st, b, t) ensures a == b {
      if at[a] <= at[b] {
        OneOwnerThroughout(run, actions, from, at[a], at[b], to, a, b, t);
      } else {
        OneOwnerThroughout(run, actions, from, at[b], at[a], to, b, a, t);
      }
    }
    BuildValidExactly(st);
  }

  /** A target that some session has is not some other's later on. */
  lemma {:induction false} OneOwnerThroughout(run: seq<World>, actions: seq<Action>, from: nat, m: nat, n: nat, to: nat,
                                              a: string, b: string, t: string)
    requires IsRun(run, actions) && from <= m <= n <= to <= |actions| && NoTargetMoves(run, actions, from, to)
    requires Owns(run[m].st, a, t) && Owns(run[n].st, b, t)
    ensures a == b
    decreases n - m
  {
    if m == n {
      RunOk(run, actions, n);
    } else if Owns(run[n - 1].st, b, t) {
      OneOwnerThroughout(run, actions, from, m, n - 1, to, a, b, t);
    } else {
      TabsAppear(run[n - 1], actions[n - 1], b, t);
    }
  }

  /** Only a registration gives a session a tab. */
  lemma TabsAppear(w: World, a: Action, name: string, t: string)
    requires Enabled(w, a) && Owns(NextState(w.st, a), name, t) && !Owns(w.st, name, t)
    ensures Registers(a) && a.name == name && a.tab.targetId == t
  {
  }
}
