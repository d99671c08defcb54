/** The sessions in the form of state.json: when it is valid, and what comes back from it. */
module Persist {
  import opened Strings
  import opened Sessions
  import opened Lifecycle
  import opened Ownership
  import opened Validation

  const CURRENT_VERSION: nat := 1

  // ----- to the persisted form -----

  function ToPersistedTab(tab: Tab): PersistedTab {
    PersistedTab(tab.targetId, tab.url, tab.title, tab.ownership)
  }

  /** The tabs in ascending order of their targets; a coherent session files each under its own. */
  ghost function TabList(tabs: map<string, Tab>): (l: seq<PersistedTab>)
    ensures |l| == |tabs|
  {
    var ids := Ascending(tabs.Keys);
    seq(|ids|, i requires 0 <= i < |ids| => assert ids[i] in ids; ToPersistedTab(tabs[ids[i]]))
  }

  ghost function FromSession(s: Record): PersistedSession {
    PersistedSession(s.name, s.mode, s.host, s.contextId, TabList(s.tabs), s.active, s.createdAt, s.lastActive,
                     s.disconnected)
  }

  ghost function SessionList(st: State): (l: seq<PersistedSession>)
    ensures |l| == |st|
  {
    var names := Ascending(st.Keys);
    seq(|names|, i requires 0 <= i < |names| => assert names[i] in names; FromSession(st[names[i]]))
  }

  /** `build_persisted_state`. */
  ghost function Build(st: State): PersistedState {
    PersistedState(CURRENT_VERSION, SessionList(st))
  }

  // ----- from the persisted form -----

  /** A restored tab has no CDP session yet. */
  function RestoredTab(tab: PersistedTab): Tab {
    Tab(tab.targetId, tab.url, tab.title, "", tab.ownership)
  }

  function TabMap(tabs: seq<PersistedTab>): map<string, Tab> {
    if tabs == [] then map[]
    else TabMap(tabs[..|tabs| - 1])[tabs[|tabs| - 1].targetId := RestoredTab(tabs[|tabs| - 1])]
  }

  function IntoSession(s: PersistedSession): Record {
    Record(s.name, s.mode, s.host, s.contextId, TabMap(s.tabs), s.active, s.createdAt, s.lastActive, s.disconnected, 0)
  }

  /** A session prepared for restore waits for its browser. */
  function PreparedSession(s: PersistedSession): Record {
    IntoSession(s).(disconnected := true)
  }

  function Prepared(st: State, sessions: seq<PersistedSession>, n: nat): State
    requires n <= |sessions|
  {
    if n == 0 then st
    else Prepared(st, sessions, n - 1)[sessions[n - 1].name := PreparedSession(sessions[n - 1])]
  }

  /** The state a fresh daemon prepares from a file. */
  function Load(p: PersistedState): State {
    Prepared(map[], p.sessions, |p.sessions|)
  }

  // ----- what is written is valid -----

  lemma ListedTab(tabs: map<string, Tab>, k: nat)
    requires k < |TabList(tabs)|
    ensures Ascending(tabs.Keys)[k] in tabs && TabList(tabs)[k] == ToPersistedTab(tabs[Ascending(tabs.Keys)[k]])
  {
    assert Ascending(tabs.Keys)[k] in Ascending(tabs.Keys);
  }

  lemma ListedSession(st: State, k: nat)
    requires k < |SessionList(st)|
    ensures Ascending(st.Keys)[k] in st && SessionList(st)[k] == FromSession(st[Ascending(st.Keys)[k]])
  {
    assert Ascending(st.Keys)[k] in Ascending(st.Keys);
  }

  lemma ListedTarget(s: Record, k: nat)
    requires Coherent(s) && k < |s.tabs|
    ensures TabList(s.tabs)[k].targetId == Ascending(s.tabs.Keys)[k]
  {
    ListedTab(s.tabs, k);
  }

  lemma TargetIsListed(s: Record, t: string)
    requires Coherent(s) && t in s.tabs
    ensures t in Targets(TabList(s.tabs))
  {
    var ids, l := Ascending(s.tabs.Keys), TabList(s.tabs);
    assert t in ids;
    var k :| 0 <= k < |ids| && ids[k] == t;
    ListedTarget(s, k);
    assert l[k] in l;
  }

  lemma ListedIsTarget(s: Record, t: string)
    requires Coherent(s) && t in Targets(TabList(s.tabs))
    ensures t in s.tabs
  {
    var l := TabList(s.tabs);
    var tab :| tab in l && tab.targetId == t;
    var k :| 0 <= k < |l| && l[k] == tab;
    ListedTarget(s, k);
    assert Ascending(s.tabs.Keys)[k] in Ascending(s.tabs.Keys);
  }

  lemma TabListTargets(s: Record)
    requires Coherent(s)
    ensures Targets(TabList(s.tabs)) == s.tabs.Keys
  {
    forall t | t in s.tabs ensures t in Targets(TabList(s.tabs)) {
      TargetIsListed(s, t);
    }
    forall t | t in Targets(TabList(s.tabs)) ensures t in s.tabs {
      ListedIsTarget(s, t);
    }
  }

  lemma TabListDistinct(s: Record)
    requires Coherent(s)
    ensures forall j, k :: 0 <= j < k < |s.tabs| ==> TabList(s.tabs)[j].targetId != TabList(s.tabs)[k].targetId
  {
    forall j, k | 0 <= j < k < |s.tabs| ensures TabList(s.tabs)[j].targetId != TabList(s.tabs)[k].targetId {
      ListedTarget(s, j);
      ListedTarget(s, k);
    }
  }

  /** A well-formed session is written in a valid form exactly when its name is clean. */
  lemma FromSessionValid(name: string, s: Record)
    requires SessionOk(name, s)
    ensures SessionValid(FromSession(s)) <==> Clean(name)
  {
    ListedTabsFit(name, s);
    ListedActive(s);
    HeaderDecides(FromSession(s), name);
  }

  lemma ListedTabsFit(name: string, s: Record)
    requires SessionOk(name, s)
    ensures TabsValid(FromSession(s))
  {
    TabListDistinct(s);
    forall k | 0 <= k < |TabList(s.tabs)| ensures TabFits(s.mode, TabList(s.tabs)[k]) {
      ListedTab(s.tabs, k);
      var id := Ascending(s.tabs.Keys)[k];
      assert TabOk(s.mode, id, s.tabs[id]);
    }
  }

  lemma ListedActive(s: Record)
    requires Coherent(s)
    ensures ActiveFits(FromSession(s))
  {
    TabListTargets(s);
    if s.active.None? {
      assert TabList(s.tabs) == [];
    }
  }

  lemma HeaderDecides(p: PersistedSession, name: string)
    requires p.name == name && Clean(p.host) && ModeFits(name, p.mode, p.contextId) && TabsValid(p) && ActiveFits(p)
    ensures SessionValid(p) <==> Clean(name)
  {
  }

  /** The sessions are well-formed one by one, whether or not they share targets. */
  ghost predicate EachOk(st: State) {
    forall name :: name in st ==> SessionOk(name, st[name])
  }

  /** No session has an empty or padded name; nothing in the daemon sees to that. */
  ghost predicate CleanNames(st: State) {
    forall name :: name in st ==> Clean(name)
  }

  lemma BuiltSession(st: State, i: nat)
    requires EachOk(st) && i < |SessionList(st)|
    ensures var name := Ascending(st.Keys)[i];
            && SessionList(st)[i].name == name
            && (SessionValid(SessionList(st)[i]) <==> Clean(name))
            && Targets(SessionList(st)[i].tabs) == st[name].tabs.Keys
  {
    var name := Ascending(st.Keys)[i];
    ListedSession(st, i);
    FromSessionValid(name, st[name]);
    TabListTargets(st[name]);
  }

  lemma BuiltIndex(st: State, name: string) returns (i: nat)
    requires name in st
    ensures i < |SessionList(st)| && Ascending(st.Keys)[i] == name
  {
    assert name in Ascending(st.Keys);
    i :| 0 <= i < |Ascending(st.Keys)| && Ascending(st.Keys)[i] == name;
  }

  lemma BuiltApart(st: State, i: nat, j: nat)
    requires EachOk(st) && UniqueOwners(st) && i < j < |SessionList(st)|
    ensures SessionList(st)[i].name != SessionList(st)[j].name
    ensures Apart(SessionList(st)[i], SessionList(st)[j])
  {
    var a, b := Ascending(st.Keys)[i], Ascending(st.Keys)[j];
    BuiltSession(st, i);
    BuiltSession(st, j);
    ListedSession(st, i);
    ListedSession(st, j);
    assert a != b;
    forall t | t in st[a].tabs ensures t !in st[b].tabs {
      assert Owns(st, a, t) && !Owns(st, b, t);
    }
  }

  lemma BuiltValid(st: State)
    requires EachOk(st) && CleanNames(st) && UniqueOwners(st)
    ensures ValidState(Build(st))
  {
    var p := Build(st);
    forall i | 0 <= i < |p.sessions| ensures SessionValid(p.sessions[i]) {
      BuiltSession(st, i);
      ListedSession(st, i);
    }
    forall i, j | 0 <= i < j < |p.sessions|
      ensures p.sessions[i].name != p.sessions[j].name && Apart(p.sessions[i], p.sessions[j])
    {
      BuiltApart(st, i, j);
    }
  }

  lemma ValidNamesClean(st: State, name: string)
    requires EachOk(st) && ValidState(Build(st)) && name in st
    ensures Clean(name)
  {
    var i := BuiltIndex(st, name);
    BuiltSession(st, i);
    assert SessionValid(Build(st).sessions[i]);
  }

  lemma ValidOwnersUnique(st: State, a: string, b: string, t: string)
    requires EachOk(st) && ValidState(Build(st)) && Owns(st, a, t) && Owns(st, b, t)
    ensures a == b
  {
    var i := BuiltIndex(st, a);
    var j := BuiltIndex(st, b);
    BuiltSession(st, i);
    BuiltSession(st, j);
    OneOwner(Build(st), i, j, t);
  }

  /**
    What is written is accepted when it is read again, exactly when no session
    has an empty or padded name and no two sessions share a target.
   */
  lemma BuildValidExactly(st: State)
    requires EachOk(st)
    ensures ValidState(Build(st)) <==> CleanNames(st) && UniqueOwners(st)
  {
    if CleanNames(st) && UniqueOwners(st) {
      BuiltValid(st);
    }
    if ValidState(Build(st)) {
      forall name | name in st ensures Clean(name) {
        ValidNamesClean(st, name);
      }
      forall a, b, t | Owns(st, a, t) && Owns(st, b, t) ensures a == b {
        ValidOwnersUnique(st, a, b, t);
      }
    }
  }

  lemma OneOwner(p: PersistedState, i: nat, j: nat, t: string)
    requires ValidState(p) && i < |p.sessions| && j < |p.sessions|
    requires t in Targets(p.sessions[i].tabs) && t in Targets(p.sessions[j].tabs)
    ensures i == j
  {
    assert i < j ==> Apart(p.sessions[i], p.sessions[j]);
    assert j < i ==> Apart(p.sessions[j], p.sessions[i]);
  }

  // ----- nothing is lost or merged -----

  /** Two tabs of the list have different targets. */
  predicate DistinctTabs(tabs: seq<PersistedTab>) {
    forall j, k :: 0 <= j < k < |tabs| ==> tabs[j].targetId != tabs[k].targetId
  }

  lemma {:induction false} TabMapAt(tabs: seq<PersistedTab>, k: nat)
    requires DistinctTabs(tabs) && k < |tabs|
    ensures tabs[k].targetId in TabMap(tabs) && TabMap(tabs)[tabs[k].targetId] == RestoredTab(tabs[k])
  {
    if k < |tabs| - 1 {
      TabMapAt(tabs[..|tabs| - 1], k);
    }
  }

  lemma {:induction false} TabMapKey(tabs: seq<PersistedTab>, id: string) returns (k: nat)
    requires id in TabMap(tabs)
    ensures k < |tabs| && tabs[k].targetId == id
  {
    if tabs[|tabs| - 1].targetId == id {
      k := |tabs| - 1;
    } else {
      k := TabMapKey(tabs[..|tabs| - 1], id);
    }
  }

  lemma {:induction false} TabMapSize(tabs: seq<PersistedTab>)
    requires DistinctTabs(tabs)
    ensures |TabMap(tabs)| == |tabs|
  {
    if tabs != [] {
      var init, id := tabs[..|tabs| - 1], tabs[|tabs| - 1].targetId;
      TabMapSize(init);
      if id in TabMap(init) {
        var k := TabMapKey(init, id);
        assert false;
      }
    }
  }

  lemma TabMapKeys(tabs: seq<PersistedTab>)
    requires DistinctTabs(tabs)
    ensures TabMap(tabs).Keys == Targets(tabs)
  {
    forall id | id in TabMap(tabs) ensures id in Targets(tabs) {
      var k := TabMapKey(tabs, id);
      assert tabs[k] in tabs;
    }
    forall id | id in Targets(tabs) ensures id in TabMap(tabs) {
      var tab :| tab in tabs && tab.targetId == id;
      var k :| 0 <= k < |tabs| && tabs[k] == tab;
      TabMapAt(tabs, k);
    }
  }

  /** Every tab of a session survives in its restored form, under its own target. */
  lemma PreparedSessionOk(s: PersistedSession)
    requires SessionValid(s)
    ensures SessionOk(s.name, PreparedSession(s)) && PreparedSession(s).tabs.Keys == Targets(s.tabs)
  {
    var tabs := TabMap(s.tabs);
    TabMapKeys(s.tabs);
    forall id | id in tabs ensures TabOk(s.mode, id, tabs[id]) && tabs[id].targetId == id {
      var k := TabMapKey(s.tabs, id);
      TabMapAt(s.tabs, k);
      assert TabFits(s.mode, s.tabs[k]);
    }
    if s.active.None? {
      assert tabs == map[];
    }
  }

  /** No two sessions of the list have the same name. */
  ghost predicate DistinctNames(sessions: seq<PersistedSession>) {
    forall i, j :: 0 <= i < j < |sessions| ==> sessions[i].name != sessions[j].name
  }

  lemma {:induction false} PreparedAt(sessions: seq<PersistedSession>, n: nat, i: nat)
    requires DistinctNames(sessions) && i < n <= |sessions|
    ensures var st := Prepared(map[], sessions, n);
            sessions[i].name in st && st[sessions[i].name] == PreparedSession(sessions[i])
  {
    if i < n - 1 {
      PreparedAt(sessions, n - 1, i);
    }
  }

  lemma {:induction false} PreparedKey(sessions: seq<PersistedSession>, n: nat, name: string) returns (i: nat)
    requires n <= |sessions| && name in Prepared(map[], sessions, n)
    ensures i < n && sessions[i].name == name
  {
    if sessions[n - 1].name == name {
      i := n - 1;
    } else {
      i := PreparedKey(sessions, n - 1, name);
    }
  }

  lemma {:induction false} PreparedSize(sessions: seq<PersistedSession>, n: nat)
    requires DistinctNames(sessions) && n <= |sessions|
    ensures |Prepared(map[], sessions, n)| == n
  {
    if n > 0 {
      PreparedSize(sessions, n - 1);
      if sessions[n - 1].name in Prepared(map[], sessions, n - 1) {
        var i := PreparedKey(sessions, n - 1, sessions[n - 1].name);
        assert false;
      }
    }
  }

  /** The session of the file that a loaded session comes from. */
  lemma LoadedFrom(p: PersistedState, name: string) returns (i: nat)
    requires ValidState(p) && name in Load(p)
    ensures i < |p.sessions| && p.sessions[i].name == name && Load(p)[name] == PreparedSession(p.sessions[i])
    ensures SessionOk(name, Load(p)[name]) && Clean(name)
    ensures Load(p)[name].tabs.Keys == Targets(p.sessions[i].tabs)
  {
    i := PreparedKey(p.sessions, |p.sessions|, name);
    PreparedAt(p.sessions, |p.sessions|, i);
    PreparedSessionOk(p.sessions[i]);
  }

  /** A daemon that loads a valid file starts in a well-formed state. */
  lemma LoadOk(p: PersistedState)
    requires ValidState(p)
    ensures Ok(Load(p)) && CleanNames(Load(p))
    ensures forall name :: name in Load(p) ==> Load(p)[name].pending == 0
  {
    forall name | name in Load(p)
      ensures SessionOk(name, Load(p)[name]) && Clean(name) && Load(p)[name].pending == 0
    {
      var i := LoadedFrom(p, name);
    }
    forall a, b, t | Owns(Load(p), a, t) && Owns(Load(p), b, t) ensures a == b {
      var i := LoadedFrom(p, a);
      var j := LoadedFrom(p, b);
      OneOwner(p, i, j, t);
    }
  }

  // ----- writing what was loaded -----

  /** The tabs are the same ones, in ascending order of target. */
  predicate SameTabs(tabs: seq<PersistedTab>, sorted: seq<PersistedTab>) {
    && |sorted| == |tabs|
    && (forall j, k :: 0 <= j < k < |sorted| ==>
          AtMost(sorted[j].targetId, sorted[k].targetId) && sorted[j].targetId != sorted[k].targetId)
    && (forall k :: 0 <= k < |tabs| ==> tabs[k] in sorted)
    && forall k :: 0 <= k < |sorted| ==> sorted[k] in tabs
  }

  /** The session is the same but for the order of its tabs, and waits for its browser. */
  predicate SameSession(s: PersistedSession, written: PersistedSession) {
    && SameTabs(s.tabs, written.tabs)
    && written == s.(tabs := written.tabs, disconnected := true)
  }

  /** The sessions are the same ones, in ascending order of name. */
  ghost predicate SameSessions(sessions: seq<PersistedSession>, written: seq<PersistedSession>) {
    && |written| == |sessions|
    && (forall j, k :: 0 <= j < k < |written| ==>
          AtMost(written[j].name, written[k].name) && written[j].name != written[k].name)
    && forall i :: 0 <= i < |sessions| ==> exists j :: 0 <= j < |written| && SameSession(sessions[i], written[j])
  }

  lemma TabsSurvive(tabs: seq<PersistedTab>)
    requires DistinctTabs(tabs)
    ensures SameTabs(tabs, TabList(TabMap(tabs)))
  {
    var m, sorted := TabMap(tabs), TabList(TabMap(tabs));
    var ids := Ascending(m.Keys);
    TabMapSize(tabs);
    forall k | 0 <= k < |sorted| ensures sorted[k] in tabs && sorted[k].targetId == ids[k] {
      ListedTab(m, k);
      var j := TabMapKey(tabs, ids[k]);
      TabMapAt(tabs, j);
    }
    forall k | 0 <= k < |tabs| ensures tabs[k] in sorted {
      TabMapAt(tabs, k);
      assert tabs[k].targetId in ids;
      var j :| 0 <= j < |ids| && ids[j] == tabs[k].targetId;
      ListedTab(m, j);
    }
  }

  lemma SessionSurvives(p: PersistedState, i: nat) returns (j: nat)
    requires ValidState(p) && i < |p.sessions|
    ensures j < |SessionList(Load(p))| && SameSession(p.sessions[i], SessionList(Load(p))[j])
  {
    var s, names := p.sessions[i], Ascending(Load(p).Keys);
    PreparedAt(p.sessions, |p.sessions|, i);
    assert s.name in names;
    j :| 0 <= j < |names| && names[j] == s.name;
    ListedSession(Load(p), j);
    assert SessionValid(s);
    TabsSurvive(s.tabs);
  }

  lemma WrittenName(p: PersistedState, k: nat)
    requires ValidState(p) && k < |SessionList(Load(p))|
    ensures SessionList(Load(p))[k].name == Ascending(Load(p).Keys)[k]
  {
    ListedSession(Load(p), k);
    var i := LoadedFrom(p, Ascending(Load(p).Keys)[k]);
  }

  /**
    Loading a valid file and writing the sessions again gives the file back,
    sorted, with every session marked as disconnected: nothing is lost, added or merged.
   */
  lemma BuildLoad(p: PersistedState)
    requires ValidState(p)
    ensures SameSessions(p.sessions, Build(Load(p)).sessions)
  {
    var written, names := Build(Load(p)).sessions, Ascending(Load(p).Keys);
    PreparedSize(p.sessions, |p.sessions|);
    forall i | 0 <= i < |p.sessions| ensures exists j :: 0 <= j < |written| && SameSession(p.sessions[i], written[j]) {
      var j := SessionSurvives(p, i);
    }
    forall j, k | 0 <= j < k < |written|
      ensures AtMost(written[j].name, written[k].name) && written[j].name != written[k].name
    {
      WrittenName(p, j);
      WrittenName(p, k);
    }
  }

  // ----- the file, field by field -----

  /** The sessions are written in ascending order of name and their tabs of target, in version 1, with every field. */
  lemma WrittenSession(st: State, i: nat)
    requires i < |st|
    ensures Build(st).version == 1 && |Build(st).sessions| == |st|
    ensures var name, w := Ascending(st.Keys)[i], Build(st).sessions[i];
            && name in st && w.name == st[name].name && w.mode == st[name].mode && w.host == st[name].host
            && w.contextId == st[name].contextId && w.active == st[name].active
            && w.createdAt == st[name].createdAt && w.lastActive == st[name].lastActive
            && w.disconnected == st[name].disconnected && |w.tabs| == |st[name].tabs|
  {
    ListedSession(st, i);
  }

  lemma WrittenTab(st: State, i: nat, k: nat)
    requires i < |st| && k < |Build(st).sessions[i].tabs|
    ensures var name := Ascending(st.Keys)[i];
            name in st && k < |st[name].tabs| &&
            var id := Ascending(st[name].tabs.Keys)[k];
            id in st[name].tabs &&
            var tab := st[name].tabs[id];
            Build(st).sessions[i].tabs[k] == PersistedTab(tab.targetId, tab.url, tab.title, tab.ownership)
  {
    ListedSession(st, i);
    ListedTab(st[Ascending(st.Keys)[i]].tabs, k);
  }
}
