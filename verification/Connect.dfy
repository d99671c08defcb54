/**
  Connecting to browsers: clients that share one connection per browser key,
  monitors that notice closed connections, and the command that disconnects a
  browser, interleaved in any way.
 */
module Connect {
  import opened Common
  import opened Subscriptions
  import opened Disconnect

  // ----- the two halves of a connect, each one atomic access after the other -----

  /** A watcher's token that is still in use stays; a missing or cancelled one is replaced. */
  method EnsureTargetWatcher(b: BrowserState, host: string, newToken: Token) returns (token: Token, spawned: bool)
    modifies b`watchers
    ensures spawned <==> !(host in old(b.watchers) && old(b.watchers)[host] !in b.cancelledWatchers)
    ensures token == if spawned then newToken else old(b.watchers)[host]
    ensures b.watchers == old(b.watchers)[host := token]
  {
    if host in b.watchers && b.watchers[host] !in b.cancelledWatchers {
      return b.watchers[host], false;
    }
    b.watchers := b.watchers[host := newToken];
    return newToken, true;
  }

  method FindBrowser(b: BrowserState, key: string, newToken: Token) returns (found: Option<Connection>)
    modifies b`watchers
    ensures found == if key in b.browsers then Some(b.browsers[key]) else None
    ensures found.None? ==> b.watchers == old(b.watchers)
    ensures found.Some? ==> key in b.watchers
                            && (b.watchers[key] == newToken || b.watchers[key] !in b.cancelledWatchers)
  {
    if key !in b.browsers {
      return None;
    }
    var token, spawned := EnsureTargetWatcher(b, key, newToken);
    found := Some(b.browsers[key]);
  }

  /**
    What a client does while it holds the connect lock: it looks again, and only
    if there is still no entry does it connect and insert.
   */
  method ConnectLocked(b: BrowserState, key: string, connected: Option<Connection>, newToken: Token)
    returns (r: Option<Connection>, monitored: bool)
    modifies b`browsers, b`watchers
    ensures r.Some? ==> key in b.watchers && (b.watchers[key] == newToken || b.watchers[key] !in b.cancelledWatchers)
    ensures if key in old(b.browsers) then
              r == Some(old(b.browsers)[key]) && b.browsers == old(b.browsers) && !monitored
            else
              && r == connected && monitored == connected.Some?
              && b.browsers == if connected.Some? then old(b.browsers)[key := connected.value] else old(b.browsers)
  {
    r := FindBrowser(b, key, newToken);
    monitored := false;
    if r.Some? {
      return;
    }
    if connected.None? {
      return;
    }
    b.browsers := b.browsers[key := connected.value];
    var token, spawned := EnsureTargetWatcher(b, key, newToken);
    monitored := true;
    r := connected;
  }

  // ----- every interleaving -----

  type ClientId = nat

  /** Where a client stands in its call, if it is making one. */
  datatype Client =
    | Idle
    | Missed(key: string)                          // found no entry and waits for the connect lock
    | Locked(key: string)                          // holds the lock
    | Connecting(key: string)                      // found no entry again
    | Created(key: string, connection: Connection) // has a connection that is not yet an entry

  /** Where the disconnect command stands; it holds the session bind lock. */
  datatype Command =
    | NoCommand
    | Begun(key: string, connection: Connection)
    | Unlisted(key: string, connection: Connection)

  datatype World = World(browsers: map<string, Connection>, clients: map<ClientId, Client>, lock: Option<ClientId>,
                         keyOf: map<Connection, string>, next: Connection, closed: set<Connection>,
                         monitors: set<Connection>, command: Command)

  datatype Action =
    | Look(client: ClientId, key: string)
    | Lock(client: ClientId)
    | LookAgain(client: ClientId)
    | ConnectFails(client: ClientId)
    | ConnectWorks(client: ClientId)
    | Insert(client: ClientId)
    | Lose(connection: Connection)
    | Notice(connection: Connection)
    | Begin(key: string)
    | Unlist
    | Close

  function ClientAt(w: World, c: ClientId): Client {
    if c in w.clients then w.clients[c] else Idle
  }

  predicate HoldsLock(c: Client) {
    c.Locked? || c.Connecting? || c.Created?
  }

  predicate Enabled(w: World, a: Action) {
    match a
    case Look(c, _) => ClientAt(w, c).Idle?
    case Lock(c) => ClientAt(w, c).Missed? && w.lock.None?
    case LookAgain(c) => ClientAt(w, c).Locked?
    case ConnectFails(c) => ClientAt(w, c).Connecting?
    case ConnectWorks(c) => ClientAt(w, c).Connecting?
    case Insert(c) => ClientAt(w, c).Created?
    case Lose(connection) => connection in w.keyOf
    case Notice(connection) => connection in w.monitors && connection in w.closed && w.command.NoCommand?
    case Begin(key) => w.command.NoCommand? && key in w.browsers
    case Unlist => w.command.Begun?
    case Close => w.command.Unlisted?
  }

  function Next(w: World, a: Action): World
    requires Enabled(w, a)
  {
    match a
    case Look(c, key) => w.(clients := w.clients[c := if key in w.browsers then Idle else Missed(key)])
    case Lock(c) => w.(clients := w.clients[c := Locked(ClientAt(w, c).key)], lock := Some(c))
    case LookAgain(c) =>
      var key := ClientAt(w, c).key;
      if key in w.browsers then w.(clients := w.clients[c := Idle], lock := None)
      else w.(clients := w.clients[c := Connecting(key)])
    case ConnectFails(c) => w.(clients := w.clients[c := Idle], lock := None)
    case ConnectWorks(c) =>
      var key := ClientAt(w, c).key;
      w.(clients := w.clients[c := Created(key, w.next)], keyOf := w.keyOf[w.next := key], next := w.next + 1)
    case Insert(c) =>
      var client := ClientAt(w, c);
      w.(clients := w.clients[c := Idle], lock := None, browsers := w.browsers[client.key := client.connection],
         monitors := w.monitors + {client.connection})
    case Lose(connection) => w.(closed := w.closed + {connection})
    case Notice(connection) =>
      var key := if connection in w.keyOf then w.keyOf[connection] else "";
      w.(monitors := w.monitors - {connection},
         browsers := if key in w.browsers && w.browsers[key] == connection then w.browsers - {key} else w.browsers)
    case Begin(key) => w.(command := Begun(key, w.browsers[key]))
    case Unlist =>
      w.(command := Unlisted(w.command.key, w.command.connection), browsers := w.browsers - {w.command.key})
    case Close => w.(command := NoCommand, closed := w.closed + {w.command.connection})
  }

  const START := World(map[], map[], None, map[], 0, {}, {}, NoCommand)

  /** The world after the first `n` actions, if each was possible when its turn came. */
  function Run(actions: seq<Action>, n: nat): Option<World>
    requires n <= |actions|
  {
    if n == 0 then Some(START)
    else
      match Run(actions, n - 1)
      case None => None
      case Some(w) => if Enabled(w, actions[n - 1]) then Some(Next(w, actions[n - 1])) else None
  }

  // ----- what every step keeps -----

  /** The lock is held by the one client that is inside, and nobody inserts a second entry for its key. */
  ghost predicate LockInv(w: World) {
    && (forall c: ClientId :: HoldsLock(ClientAt(w, c)) <==> w.lock == Some(c))
    && forall c: ClientId :: ClientAt(w, c).Connecting? || ClientAt(w, c).Created? ==> ClientAt(w, c).key !in w.browsers
  }

  /** A connection is its key's entry. */
  predicate Listed(w: World, connection: Connection) {
    connection in w.keyOf && w.keyOf[connection] in w.browsers && w.browsers[w.keyOf[connection]] == connection
  }

  /** A connection that a client has created and not yet inserted. */
  predicate InHand(w: World, connection: Connection) {
    w.lock.Some? && ClientAt(w, w.lock.value).Created? && ClientAt(w, w.lock.value).connection == connection
  }

  /** A connection that the disconnect command took off the list and is about to close. */
  predicate BeingClosed(w: World, connection: Connection) {
    w.command.Unlisted? && w.command.connection == connection
  }

  ghost predicate EntryInv(w: World) {
    && (forall key :: key in w.browsers ==> Listed(w, w.browsers[key]) && w.keyOf[w.browsers[key]] == key)
    && (forall connection :: connection in w.keyOf ==> connection < w.next)
    && (forall connection :: InHand(w, connection) ==>
          && connection in w.keyOf && !Listed(w, connection)
          && w.keyOf[connection] == ClientAt(w, w.lock.value).key)
    && (w.command.Begun? ==> w.command.key in w.browsers && w.browsers[w.command.key] == w.command.connection)
  }

  /** Every connection ever created is its key's entry, is closed, or is on its way to one or the other. */
  ghost predicate NoneStray(w: World) {
    forall connection :: connection in w.keyOf ==>
      Listed(w, connection) || connection in w.closed || InHand(w, connection) || BeingClosed(w, connection)
  }

  /** Every entry has a monitor that will notice when it is closed. */
  ghost predicate Watched(w: World) {
    forall key :: key in w.browsers ==> w.browsers[key] in w.monitors
  }

  ghost predicate Inv(w: World) {
    LockInv(w) && EntryInv(w) && NoneStray(w) && Watched(w)
  }

  lemma LockKept(w: World, a: Action)
    requires LockInv(w) && Enabled(w, a)
    ensures LockInv(Next(w, a))
  {
  }

  lemma EntriesKept(w: World, a: Action)
    requires LockInv(w) && EntryInv(w) && Enabled(w, a)
    ensures EntryInv(Next(w, a))
  {
  }

  lemma NoneStrays(w: World, a: Action)
    requires LockInv(w) && EntryInv(w) && NoneStray(w) && Enabled(w, a)
    ensures NoneStray(Next(w, a))
  {
  }

  lemma NextKeeps(w: World, a: Action)
    requires Inv(w) && Enabled(w, a)
    ensures Inv(Next(w, a))
  {
    LockKept(w, a);
    EntriesKept(w, a);
    NoneStrays(w, a);
  }

  lemma {:induction false} RunInv(actions: seq<Action>, n: nat)
    requires n <= |actions| && Run(actions, n).Some?
    ensures Inv(Run(actions, n).value)
  {
    if n > 0 {
      RunInv(actions, n - 1);
      NextKeeps(Run(actions, n - 1).value, actions[n - 1]);
    }
  }

  // ----- what that means -----

  /**
    In no run does an insertion replace an entry, the disconnect command take
    another connection off the list than it closes, or a monitor take a
    connection off the list that has replaced its own.
   */
  lemma NothingReplaced(actions: seq<Action>, n: nat)
    requires n < |actions| && Run(actions, n + 1).Some?
    ensures var w, after := Run(actions, n).value, Run(actions, n + 1).value;
            && (actions[n].Insert? ==> ClientAt(w, actions[n].client).key !in w.browsers)
            && (actions[n].Unlist? ==>
                  w.command.key in w.browsers && w.browsers[w.command.key] == w.command.connection)
            && (actions[n].Notice? ==>
                  && !Listed(after, actions[n].connection)
                  && forall key :: key in w.browsers && w.browsers[key] != actions[n].connection ==>
                       key in after.browsers && after.browsers[key] == w.browsers[key])
  {
    RunInv(actions, n);
  }

  /** Whenever nobody is in the middle of connecting or disconnecting, every connection is its key's entry or closed. */
  lemma NoConnectionLeaks(actions: seq<Action>, n: nat, connection: Connection)
    requires n <= |actions| && Run(actions, n).Some?
    requires var w := Run(actions, n).value;
             w.lock.None? && w.command.NoCommand? && connection in w.keyOf
    ensures var w := Run(actions, n).value;
            Listed(w, connection) || connection in w.closed
  {
    RunInv(actions, n);
  }

  /** A closed connection that is still an entry can always be noticed once no disconnect command is under way. */
  lemma ClosedEntryIsNoticed(actions: seq<Action>, n: nat, key: string)
    requires n <= |actions| && Run(actions, n).Some?
    requires var w := Run(actions, n).value;
             key in w.browsers && w.browsers[key] in w.closed && w.command.NoCommand?
    ensures var w := Run(actions, n).value;
            Enabled(w, Notice(w.browsers[key])) && key !in Next(w, Notice(w.browsers[key])).browsers
  {
    RunInv(actions, n);
  }

  // ----- what single steps do -----

  /** A connection that is lost is closed, and nothing else changes. */
  lemma LoseCloses(w: World, connection: Connection)
    requires Enabled(w, Lose(connection))
    ensures Next(w, Lose(connection)) == w.(closed := w.closed + {connection})
  {
  }

  /**
    A client that finds an entry shares it and leaves the lock; one that finds
    none may connect, and a new connection becomes its key's entry with a monitor.
   */
  lemma ClientDoes(w: World, c: ClientId, key: string)
    requires Inv(w) && ClientAt(w, c) == Locked(key)
    ensures key in w.browsers ==>
              Next(w, LookAgain(c)) == w.(clients := w.clients[c := Idle], lock := None)
    ensures key !in w.browsers ==>
              var found := Next(w, LookAgain(c));
              && found == w.(clients := w.clients[c := Connecting(key)]) && Enabled(found, ConnectWorks(c)) &&
              var made := Next(found, ConnectWorks(c));
              && Enabled(made, Insert(c)) &&
              var after := Next(made, Insert(c));
              && after.browsers == w.browsers[key := w.next] && w.next in after.monitors && w.next !in w.keyOf
              && after.lock.None? && ClientAt(after, c).Idle?
  {
  }
}
