/** What happens to the sessions when the connection to their browser is lost. */
module Disconnect {
  import opened Sessions
  import opened Subscriptions
  import opened Lifecycle
  import opened Ownership

  /** A connection is known by its allocation. */
  type Connection = nat

  /** The session is marked if it is on the host. */
  function Marked(s: Record, host: string): Record {
    if s.host == host then s.(disconnected := true) else s
  }

  /** Every session of the host is marked. */
  ghost function AllMarked(st: State, host: string): State {
    map name | name in st :: Marked(st[name], host)
  }

  /** The sessions of the host. */
  ghost function OnHost(st: State, host: string): set<string> {
    set name | name in st && st[name].host == host
  }

  /** The registered tasks without those of the sessions, which are cancelled. */
  ghost function CancelSessions(t: Tasks, names: set<string>): Tasks {
    var keys := set key | key in t.tokens && key.0 in names;
    Tasks(t.tokens - keys, t.cancelled + set key | key in keys :: t.tokens[key])
  }

  ghost function CancelSessionDialogs(d: Dialogs, names: set<string>): Dialogs {
    var keys := set key | key in d.tasks.tokens && key.0 in names;
    Dialogs(d.pending - keys, d.policies - names, CancelSessions(d.tasks, names))
  }

  /** The sessions and the tasks that follow their tabs. */
  datatype Snapshot = Snapshot(st: State, console: Tasks, dialogs: Dialogs)

  ghost function Snap(daemon: DaemonState): Snapshot
    reads daemon`sessions, daemon.sessions.Values, daemon.console, daemon.dialogs, daemon.dialogs.tasks
  {
    Snapshot(daemon.View(), daemon.console.View(), daemon.dialogs.View())
  }

  ghost function SessionLost(s: Snapshot, name: string, host: string): Snapshot {
    if name in s.st && s.st[name].host == host then
      Snapshot(s.st[name := s.st[name].(disconnected := true)],
               CancelSession(s.console, name), CancelDialogs(s.dialogs, name))
    else s
  }

  ghost function HostLost(s: Snapshot, host: string): Snapshot {
    var names := OnHost(s.st, host);
    Snapshot(AllMarked(s.st, host), CancelSessions(s.console, names), CancelSessionDialogs(s.dialogs, names))
  }

  /**
    One session of the list, under its lifecycle lock: it may have gone, or moved
    to another host, since the list was made.
   */
  method DisconnectSession(daemon: DaemonState, name: string, host: string)
    requires daemon.Separate()
    modifies daemon.sessions.Values, daemon.console, daemon.dialogs, daemon.dialogs.tasks
    ensures Snap(daemon) == SessionLost(old(Snap(daemon)), name, host)
  {
    if name !in daemon.sessions || daemon.sessions[name].host != host {
      return;
    }
    daemon.MarkSessionDisconnected(name);
    daemon.EndSessionTasks(name);
  }

  method DisconnectSessionsForHost(daemon: DaemonState, host: string)
    requires daemon.Separate()
    modifies daemon.sessions.Values, daemon.console, daemon.dialogs, daemon.dialogs.tasks
    ensures Snap(daemon) == HostLost(old(Snap(daemon)), host)
  {
    var names := set name | name in daemon.sessions && daemon.sessions[name].host == host;
    ghost var before := Snap(daemon);
    assert names == OnHost(before.st, host);
    NoneYet(before);
    var done: set<string> := {};
    while names - done != {}
      invariant done <= names == OnHost(before.st, host)
      invariant Snap(daemon) == LostSoFar(before, done)
      decreases names - done
    {
      var name :| name in names - done;
      OneMoreSession(before, done, name, host);
      DisconnectSession(daemon, name, host);
      done := done + {name};
    }
    assert done == names;
    AllLost(before, host);
  }

  lemma AllLost(s: Snapshot, host: string)
    ensures LostSoFar(s, OnHost(s.st, host)) == HostLost(s, host)
  {
    assert MarkedSoFar(s.st, OnHost(s.st, host)) == AllMarked(s.st, host);
  }

  method LoseHost(daemon: DaemonState, host: string)
    requires daemon.Separate()
    modifies daemon`persistRequests, daemon.sessions.Values
    modifies daemon.console, daemon.dialogs, daemon.dialogs.tasks
    ensures Snap(daemon) == HostLost(old(Snap(daemon)), host)
    ensures daemon.persistRequests == old(daemon.persistRequests) + 1
  {
    DisconnectSessionsForHost(daemon, host);
    ghost var lost := Snap(daemon);
    daemon.RequestPersist();
    assert Snap(daemon) == lost;
  }

  /** The sessions in `names` are lost. */
  ghost function LostSoFar(s: Snapshot, names: set<string>): Snapshot {
    Snapshot(MarkedSoFar(s.st, names), CancelSessions(s.console, names), CancelSessionDialogs(s.dialogs, names))
  }

  ghost function MarkedSoFar(st: State, names: set<string>): State {
    map name | name in st :: if name in names then st[name].(disconnected := true) else st[name]
  }

  lemma NoTaskYet(t: Tasks)
    ensures CancelSessions(t, {}) == t
  {
    assert t.tokens - {} == t.tokens;
    assert CancelSessions(t, {}).cancelled == t.cancelled;
  }

  lemma NoneYet(s: Snapshot)
    ensures LostSoFar(s, {}) == s
  {
    NoTaskYet(s.console);
    NoTaskYet(s.dialogs.tasks);
    assert MarkedSoFar(s.st, {}) == s.st;
    assert s.dialogs.pending - {} == s.dialogs.pending && s.dialogs.policies - {} == s.dialogs.policies;
  }

  lemma OneMoreTask(t: Tasks, done: set<string>, name: string)
    requires name !in done
    ensures CancelSession(CancelSessions(t, done), name) == CancelSessions(t, done + {name})
    ensures KeysOf(CancelSessions(t, done), name) == KeysOf(t, name)
  {
    var before, after := CancelSessions(t, done), CancelSessions(t, done + {name});
    assert KeysOf(before, name) == KeysOf(t, name);
    assert CancelSession(before, name).tokens == after.tokens;
    assert CancelSession(before, name).cancelled == after.cancelled;
  }

  lemma OneMoreDialogs(d: Dialogs, done: set<string>, name: string)
    requires name !in done
    ensures CancelDialogs(CancelSessionDialogs(d, done), name) == CancelSessionDialogs(d, done + {name})
  {
    OneMoreTask(d.tasks, done, name);
    var before, after := CancelSessionDialogs(d, done), CancelSessionDialogs(d, done + {name});
    assert CancelDialogs(before, name).pending == after.pending;
    assert CancelDialogs(before, name).policies == after.policies;
  }

  lemma OneMoreSession(s: Snapshot, done: set<string>, name: string, host: string)
    requires name !in done && name in s.st && s.st[name].host == host
    ensures SessionLost(LostSoFar(s, done), name, host) == LostSoFar(s, done + {name})
  {
    OneMoreTask(s.console, done, name);
    OneMoreDialogs(s.dialogs, done, name);
    assert MarkedSoFar(s.st, done + {name})
           == MarkedSoFar(s.st, done)[name := MarkedSoFar(s.st, done)[name].(disconnected := true)];
  }

  // ----- the browser entries -----

  class BrowserState {
    const daemon: DaemonState
    var browsers: map<string, Connection>
    var watchers: map<string, Token>
    var cancelledWatchers: set<Token>

    constructor (daemon: DaemonState)
      ensures this.daemon == daemon && browsers == map[] && watchers == map[] && cancelledWatchers == {}
    {
      this.daemon := daemon;
      browsers, watchers, cancelledWatchers := map[], map[], {};
    }

    method CancelWatcher(host: string)
      modifies this`watchers, this`cancelledWatchers
      ensures watchers == old(watchers) - {host}
      ensures cancelledWatchers == old(cancelledWatchers) + if host in old(watchers) then {old(watchers)[host]} else {}
    {
      if host in watchers {
        cancelledWatchers := cancelledWatchers + {watchers[host]};
      }
      watchers := watchers - {host};
    }

    /** A connection was closed; only if it is still the host's current one does anything happen. */
    method HandleBrowserDisconnect(host: string, disconnected: Connection)
      requires daemon.Separate()
      modifies this`browsers, this`watchers, this`cancelledWatchers
      modifies daemon`persistRequests, daemon.sessions.Values
      modifies daemon.console, daemon.dialogs, daemon.dialogs.tasks
      ensures if host in old(browsers) && old(browsers)[host] == disconnected then
                && browsers == old(browsers) - {host}
                && watchers == old(watchers) - {host}
                && cancelledWatchers
                   == old(cancelledWatchers) + (if host in old(watchers) then {old(watchers)[host]} else {})
              else
                && browsers == old(browsers) && watchers == old(watchers)
                && cancelledWatchers == old(cancelledWatchers)
      ensures Snap(daemon) == if host in old(browsers) && old(browsers)[host] == disconnected
                              then HostLost(old(Snap(daemon)), host) else old(Snap(daemon))
      ensures daemon.persistRequests == old(daemon.persistRequests)
                + if host in old(browsers) && old(browsers)[host] == disconnected then 1 else 0
    {
      if !IsCurrent(host, disconnected) {
        return;
      }
      browsers := browsers - {host};
      CancelWatcher(host);
      LoseHost(daemon, host);
    }

    predicate IsCurrent(host: string, connection: Connection)
      reads this`browsers
    {
      host in browsers && browsers[host] == connection
    }
  }

  // ----- what a lost connection leaves behind -----

  /**
    Every session of the host is marked, all its console and dialog tasks are
    cancelled and none is registered any more; the tokens, pending dialogs and
    policies of other sessions are as they were, and so are the other sessions.
   */
  lemma DisconnectLeaves(s: Snapshot, host: string)
    ensures var names, after := OnHost(s.st, host), HostLost(s, host);
            && (forall name :: name in names <==> name in s.st && s.st[name].host == host)
            && after.st.Keys == s.st.Keys
            && (forall name :: name in s.st ==>
                  after.st[name] == if s.st[name].host == host then s.st[name].(disconnected := true) else s.st[name])
            && TasksEnded(s.console, after.console, names)
            && TasksEnded(s.dialogs.tasks, after.dialogs.tasks, names)
            && (forall key :: key in after.dialogs.pending <==>
                  key in s.dialogs.pending && !(key.0 in names && key in s.dialogs.tasks.tokens))
            && (forall name :: name in names ==> name !in after.dialogs.policies)
            && (forall name :: name !in names ==> (name in after.dialogs.policies <==> name in s.dialogs.policies))
  {
    TasksEndedOf(s.console, OnHost(s.st, host));
    TasksEndedOf(s.dialogs.tasks, OnHost(s.st, host));
  }

  ghost predicate TasksEnded(t: Tasks, after: Tasks, names: set<string>) {
    && (forall key :: key in after.tokens ==> key.0 !in names)
    && (forall key :: key in t.tokens && key.0 in names ==> t.tokens[key] in after.cancelled)
    && (forall key :: key in t.tokens && key.0 !in names ==> key in after.tokens && after.tokens[key] == t.tokens[key])
    && forall key :: key in after.tokens ==> key in t.tokens
  }

  lemma TasksEndedOf(t: Tasks, names: set<string>)
    ensures TasksEnded(t, CancelSessions(t, names), names)
  {
    var after := CancelSessions(t, names);
    forall key | key in t.tokens && key.0 in names ensures t.tokens[key] in after.cancelled {
      assert key in (set k | k in t.tokens && k.0 in names);
    }
  }

  /** Marking sessions leaves the daemon well-formed. */
  lemma DisconnectKeeps(st: State, host: string)
    requires Ok(st)
    ensures Ok(AllMarked(st, host))
  {
    var after := AllMarked(st, host);
    forall a, b, t | Owns(after, a, t) && Owns(after, b, t) ensures a == b {
      assert Owns(st, a, t) && Owns(st, b, t);
    }
  }
}
