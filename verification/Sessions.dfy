/** A session: its tabs, its active target and the tabs reserved for it. */
module Sessions {
  import opened Common

  datatype SessionMode = Default | Isolated

  datatype TabOwnership = Owned | Attached

  /** Every field but the console ring buffer. */
  datatype Tab = Tab(targetId: string, url: string, title: string, cdpSessionId: string, ownership: TabOwnership)

  /** The fields of a session. Instants are seconds of Unix time. */
  datatype Record = Record(name: string, mode: SessionMode, host: string, contextId: Option<string>,
                           tabs: map<string, Tab>, active: Option<string>, createdAt: nat, lastActive: nat,
                           disconnected: bool, pending: nat)

  /** Saturating arithmetic on `usize`. */
  function Saturated(x: nat): nat {
    if x <= USIZE_MAX then x else USIZE_MAX
  }

  function Less1(x: nat): nat {
    if x == 0 then 0 else x - 1
  }

  function Fresh(name: string, mode: SessionMode, host: string, contextId: Option<string>, now: nat): Record {
    Record(name, mode, host, contextId, map[], None, now, now, false, 0)
  }

  function Touched(s: Record, now: nat): Record {
    s.(lastActive := now)
  }

  /** The session with one more tab, which becomes the active one. */
  function Added(s: Record, tab: Tab, now: nat): Record {
    s.(tabs := s.tabs[tab.targetId := tab], active := Some(tab.targetId), lastActive := now)
  }

  /** The session without a tab; if it was the active one, `fallback` takes its place. */
  function Removed(s: Record, targetId: string, fallback: Option<string>, now: nat): Record {
    s.(tabs := s.tabs - {targetId}, lastActive := now,
       active := if s.active == Some(targetId) then fallback else s.active)
  }

  /** The session with a new address and title for one of its tabs. */
  function WithInfo(s: Record, targetId: string, url: string, title: string, now: nat): Record
    requires targetId in s.tabs
  {
    s.(tabs := s.tabs[targetId := s.tabs[targetId].(url := url, title := title)], lastActive := now)
  }

  /** Whatever key comes first, or none when no tab is left. */
  predicate IsFallback(tabs: map<string, Tab>, fallback: Option<string>) {
    match fallback
    case None => tabs == map[]
    case Some(id) => id in tabs
  }

  predicate CanAdd(s: Record, max: nat) {
    max == 0 || Saturated(|s.tabs| + s.pending) < max
  }

  class Session {
    var name: string
    var mode: SessionMode
    var host: string
    var contextId: Option<string>
    var tabs: map<string, Tab>
    var active: Option<string>
    var createdAt: nat
    var lastActive: nat
    var disconnected: bool
    var pending: nat

    function View(): Record
      reads this
    {
      Record(name, mode, host, contextId, tabs, active, createdAt, lastActive, disconnected, pending)
    }

    constructor (s: Record)
      ensures View() == s
    {
      name, mode, host, contextId := s.name, s.mode, s.host, s.contextId;
      tabs, active, createdAt, lastActive := s.tabs, s.active, s.createdAt, s.lastActive;
      disconnected, pending := s.disconnected, s.pending;
    }

    constructor NewDefault(host: string, now: nat)
      ensures View() == Fresh("default", Default, host, None, now)
    {
      name, mode, this.host, contextId := "default", Default, host, None;
      tabs, active, createdAt, lastActive, disconnected, pending := map[], None, now, now, false, 0;
    }

    constructor NewIsolated(name: string, host: string, contextId: string, now: nat)
      ensures View() == Fresh(name, Isolated, host, Some(contextId), now)
    {
      this.name, mode, this.host, this.contextId := name, Isolated, host, Some(contextId);
      tabs, active, createdAt, lastActive, disconnected, pending := map[], None, now, now, false, 0;
    }

    method Touch(now: nat)
      modifies this`lastActive
      ensures View() == Touched(old(View()), now)
    {
      lastActive := now;
    }

    /** Inserts a tab and makes it the active one. */
    method InsertTab(tab: Tab, now: nat)
      modifies this
      ensures View() == Added(old(View()), tab, now)
    {
      tabs := tabs[tab.targetId := tab];
      active := Some(tab.targetId);
      Touch(now);
    }

    method AddTab(targetId: string, url: string, title: string, now: nat)
      modifies this
      ensures View() == Added(old(View()), Tab(targetId, url, title, "", Owned), now)
    {
      InsertTab(Tab(targetId, url, title, "", Owned), now);
    }

    /** Removes a tab; an active one falls back to whichever remaining tab comes first. */
    method RemoveTab(targetId: string, now: nat) returns (ghost fallback: Option<string>)
      modifies this
      ensures IsFallback(tabs, fallback)
      ensures View() == Removed(old(View()), targetId, fallback, now)
    {
      tabs := tabs - {targetId};
      var first: Option<string> := None;
      if tabs != map[] {
        var id :| id in tabs;
        first := Some(id);
      }
      if active == Some(targetId) {
        active := first;
      }
      fallback := first;
      Touch(now);
    }

    method SetTabInfo(targetId: string, url: string, title: string, now: nat)
      requires targetId in tabs
      modifies this`tabs, this`lastActive
      ensures View() == WithInfo(old(View()), targetId, url, title, now)
    {
      tabs := tabs[targetId := tabs[targetId].(url := url, title := title)];
      Touch(now);
    }

    method CanAddTab(max: nat) returns (ok: bool)
      ensures ok == CanAdd(View(), max)
    {
      ok := max == 0 || Saturated(|tabs| + pending) < max;
    }

    method ReleaseReservation()
      modifies this`pending
      ensures View() == old(View()).(pending := Less1(old(View()).pending))
    {
      pending := Less1(pending);
    }

    /** Moves to a new browser context, without tabs. */
    method StartOver(contextId: Option<string>)
      modifies this`contextId, this`tabs, this`active
      ensures View() == old(View()).(contextId := contextId, tabs := map[], active := None)
    {
      this.contextId, tabs, active := contextId, map[], None;
    }

    method Connect(host: string, now: nat)
      modifies this`host, this`disconnected, this`lastActive
      ensures View() == old(View()).(host := host, disconnected := false, lastActive := now)
    {
      this.host, disconnected := host, false;
      Touch(now);
    }

    method MarkDisconnected()
      modifies this`disconnected
      ensures View() == old(View()).(disconnected := true)
    {
      disconnected := true;
    }
  }

  /** Saturation never lets a tab through: the limit is on the true sum. */
  lemma LimitIsExact(s: Record, max: nat)
    requires max <= USIZE_MAX
    ensures CanAdd(s, max) <==> max == 0 || |s.tabs| + s.pending < max
  {
  }

  // ----- what every operation on one session keeps -----

  /** Each tab is filed under its own target, and the active target is one of them whenever there are any. */
  predicate Coherent(s: Record) {
    && (forall id :: id in s.tabs ==> s.tabs[id].targetId == id)
    && match s.active
       case None => s.tabs == map[]
       case Some(id) => id in s.tabs
  }

  lemma AddedCoherent(s: Record, tab: Tab, now: nat)
    requires Coherent(s)
    ensures Coherent(Added(s, tab, now))
    ensures Added(s, tab, now).tabs.Keys == s.tabs.Keys + {tab.targetId}
  {
  }

  lemma RemovedCoherent(s: Record, targetId: string, fallback: Option<string>, now: nat)
    requires Coherent(s) && IsFallback(s.tabs - {targetId}, fallback)
    ensures Coherent(Removed(s, targetId, fallback, now))
    ensures Removed(s, targetId, fallback, now).tabs.Keys == s.tabs.Keys - {targetId}
  {
    if s.active.None? {
      assert s.tabs - {targetId} == map[];
    }
  }
}
