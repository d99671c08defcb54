/**
  `NetworkIdleCounter`, proved to answer what the whole history of the
  network says. Instants are nanoseconds of a monotonic clock, given as
  parameters.
 */
module NetworkIdle {
  import opened Common

  type Instant = nat

  datatype Counter = Counter(inFlight: set<string>, idleSince: Option<Instant>)

  function Start(c: Counter, id: string): Counter {
    Counter(c.inFlight + {id}, None)
  }

  function End(c: Counter, id: string, now: Instant): Counter {
    var left := c.inFlight - {id};
    Counter(left, if left == {} && c.idleSince.None? then Some(now) else c.idleSince)
  }

  function IsIdle(c: Counter, quietMs: nat, now: Instant): bool {
    match c.idleSince
    case None => false
    case Some(since) => Elapsed(since, now) >= quietMs * 1_000_000
  }

  /** `Instant::elapsed` saturates at zero. */
  function Elapsed(since: Instant, now: Instant): nat {
    if now >= since then now - since else 0
  }

  class NetworkIdleCounter {
    var inFlight: set<string>
    var idleSince: Option<Instant>

    ghost function View(): Counter
      reads this
    {
      Counter(inFlight, idleSince)
    }

    constructor (now: Instant)
      ensures View() == Counter({}, Some(now))
    {
      inFlight := {};
      idleSince := Some(now);
    }

    method RequestStart(id: string)
      modifies this
      ensures View() == Start(old(View()), id)
    {
      inFlight := inFlight + {id};
      idleSince := None;
    }

    method RequestEnd(id: string, now: Instant)
      modifies this
      ensures View() == End(old(View()), id, now)
    {
      inFlight := inFlight - {id};
      if inFlight == {} && idleSince.None? {
        idleSince := Some(now);
      }
    }

    method IsIdleForDuration(quietMs: nat, now: Instant) returns (idle: bool)
      ensures idle == IsIdle(View(), quietMs, now)
    {
      match idleSince
      case Some(since) => idle := Elapsed(since, now) >= quietMs * 1_000_000;
      case None => idle := false;
    }
  }

  // ----- the history -----

  datatype Event = Started(at: Instant, id: string) | Ended(at: Instant, id: string)

  function Apply(c: Counter, e: Event): Counter {
    match e
    case Started(_, id) => Start(c, id)
    case Ended(at, id) => End(c, id, at)
  }

  /** The counter after the first `n` events. */
  function Replay(created: Instant, events: seq<Event>, n: nat): Counter
    requires n <= |events|
  {
    if n == 0 then Counter({}, Some(created)) else Apply(Replay(created, events, n - 1), events[n - 1])
  }

  /** Time never runs backwards. */
  ghost predicate WellTimed(created: Instant, events: seq<Event>, now: Instant) {
    && created <= now
    && (forall i :: 0 <= i < |events| ==> created <= events[i].at <= now)
    && forall i, j :: 0 <= i <= j < |events| ==> events[i].at <= events[j].at
  }

  /** Event `j` starts request `id`, and no later event among the first `n` ends it. */
  ghost predicate LiveFrom(events: seq<Event>, j: nat, n: nat, id: string)
    requires n <= |events|
  {
    && j < n && events[j].Started? && events[j].id == id
    && forall k :: j < k < n ==> events[k].Started? || events[k].id != id
  }

  /** After `n` events, request `id` has started and not ended since. */
  ghost predicate Live(events: seq<Event>, n: nat, id: string)
    requires n <= |events|
  {
    exists j :: LiveFrom(events, j, n, id)
  }

  ghost predicate Busy(events: seq<Event>, n: nat)
    requires n <= |events|
  {
    exists id :: Live(events, n, id)
  }

  /**
    Nothing was in flight during the last `quiet` nanoseconds before `now`: they
    lie after the creation, and every busy spell was over before they began. The
    state after `i` events lasts until event `i`, or until now.
   */
  ghost predicate QuietFor(created: Instant, events: seq<Event>, now: Instant, quiet: nat) {
    && created + quiet <= now
    && forall i :: 0 <= i <= |events| && Busy(events, i) ==> i < |events| && events[i].at + quiet <= now
  }

  /** `t` is when the last busy spell among the first `n` states ended, or the creation if there was none. */
  ghost predicate IdleSince(created: Instant, events: seq<Event>, n: nat, t: Instant)
    requires n <= |events|
  {
    && (forall i :: 0 <= i < n && Busy(events, i) ==> events[i].at <= t)
    && (t == created || exists i :: 0 <= i < n && Busy(events, i) && events[i].at == t)
  }

  lemma LiveStep(events: seq<Event>, n: nat, id: string)
    requires n < |events|
    ensures Live(events, n + 1, id) <==>
            (events[n].Started? && events[n].id == id)
            || (Live(events, n, id) && !(events[n].Ended? && events[n].id == id))
  {
    if events[n].Started? && events[n].id == id {
      assert LiveFrom(events, n, n + 1, id);
    }
    if Live(events, n, id) && !(events[n].Ended? && events[n].id == id) {
      var j :| LiveFrom(events, j, n, id);
      assert LiveFrom(events, j, n + 1, id);
    }
    if Live(events, n + 1, id) {
      var j: nat :| LiveFrom(events, j, n + 1, id);
      if j < n {
        assert LiveFrom(events, j, n, id);
      }
    }
  }

  /** The set in flight is the set of live requests, and an instant is recorded exactly when it is empty. */
  lemma {:induction false} ReplayTracks(created: Instant, events: seq<Event>, n: nat, now: Instant)
    requires n <= |events| && WellTimed(created, events, now)
    ensures var c := Replay(created, events, n);
            && (forall id :: id in c.inFlight <==> Live(events, n, id))
            && (c.idleSince.None? <==> c.inFlight != {})
            && (c.idleSince.Some? ==> IdleSince(created, events, n, c.idleSince.value))
  {
    if n > 0 {
      ReplayTracks(created, events, n - 1, now);
      var before, c, e := Replay(created, events, n - 1), Replay(created, events, n), events[n - 1];
      forall id ensures id in c.inFlight <==> Live(events, n, id) {
        LiveStep(events, n - 1, id);
      }
      if before.inFlight != {} {
        var id :| id in before.inFlight;
        assert Busy(events, n - 1);
      } else {
        assert !Busy(events, n - 1);
      }
      if c.idleSince.Some? {
        IdleSinceStep(created, events, n, now);
      }
    }
  }

  lemma IdleSinceStep(created: Instant, events: seq<Event>, n: nat, now: Instant)
    requires 0 < n <= |events| && WellTimed(created, events, now)
    requires var before := Replay(created, events, n - 1);
             && (before.idleSince.None? <==> Busy(events, n - 1))
             && (before.idleSince.Some? ==> IdleSince(created, events, n - 1, before.idleSince.value))
    requires Replay(created, events, n).idleSince.Some?
    ensures IdleSince(created, events, n, Replay(created, events, n).idleSince.value)
  {
    var before, t := Replay(created, events, n - 1), Replay(created, events, n).idleSince.value;
    if before.idleSince.None? {
      assert t == events[n - 1].at;
    }
  }

  /** The counter is idle for a duration exactly when the history says that nothing was in flight throughout it. */
  lemma IdleMeansQuiet(created: Instant, events: seq<Event>, now: Instant, quietMs: nat)
    requires WellTimed(created, events, now)
    ensures IsIdle(Replay(created, events, |events|), quietMs, now)
            <==> QuietFor(created, events, now, quietMs * 1_000_000)
  {
    var n, c, quiet := |events|, Replay(created, events, |events|), quietMs * 1_000_000;
    ReplayTracks(created, events, n, now);
    assert Busy(events, n) <==> c.inFlight != {} by {
      if c.inFlight != {} {
        var id :| id in c.inFlight;
        assert Live(events, n, id);
      }
    }
    if c.idleSince.Some? {
      var t := c.idleSince.value;
      assert t <= now;
      if QuietFor(created, events, now, quiet) {
        assert t + quiet <= now;
      }
    }
  }

  /** Duplicate starts and unknown ends included, an instant is recorded exactly when nothing is in flight. */
  lemma IdleSinceIffEmpty(created: Instant, events: seq<Event>, n: nat, now: Instant)
    requires n <= |events| && WellTimed(created, events, now)
    ensures var c := Replay(created, events, n);
            (c.idleSince.Some? <==> c.inFlight == {}) && (c.inFlight == {} <==> !Busy(events, n))
  {
    ReplayTracks(created, events, n, now);
    var c := Replay(created, events, n);
    if c.inFlight != {} {
      var id :| id in c.inFlight;
      assert Live(events, n, id);
    }
  }
}
