/**
  The registry of session lifecycle locks, which holds each lock weakly. A lock
  is known by its allocation; its reference count says how many handles are
  alive, and one whose count reached zero never comes back.
 */
module LockRegistry {
  type Lock = nat

  /**
    The entries, the reference count of every lock ever allocated, the name each
    was allocated for, and the next allocation.
   */
  datatype Registry = Registry(locks: map<string, Lock>, strong: map<Lock, nat>,
                               nameOf: map<Lock, string>, next: Lock)
  {
    predicate IsLive(l: Lock) {
      l in strong && strong[l] > 0
    }

    /** An entry whose lock is still held by someone. */
    predicate HasLive(name: string) {
      name in locks && IsLive(locks[name])
    }

    function Live(): set<Lock> {
      set l | l in strong && strong[l] > 0
    }
  }

  const EMPTY := Registry(map[], map[], map[], 0)

  /** The registry without its entry for `name`, if that one is dead. */
  function PruneEntry(r: Registry, name: string): Registry {
    if name in r.locks && !r.HasLive(name) then r.(locks := r.locks - {name}) else r
  }

  function Pruned(r: Registry): Registry {
    r.(locks := map name | name in r.locks && r.HasLive(name) :: r.locks[name])
  }

  /** The lock that a caller gets for `name`. */
  function LockAt(r: Registry, name: string): Lock {
    if r.HasLive(name) then r.locks[name] else r.next
  }

  /**
    The registry once a caller holds the lock for `name`: one more handle, or a
    new lock in place of a dead or missing one.
   */
  function Enter(r: Registry, name: string): Registry {
    if r.HasLive(name) then
      r.(strong := r.strong[r.locks[name] := r.strong[r.locks[name]] + 1])
    else
      Registry(r.locks[name := r.next], r.strong[r.next := 1], r.nameOf[r.next := name], r.next + 1)
  }

  function CloneHandle(r: Registry, l: Lock): Registry {
    if r.IsLive(l) then r.(strong := r.strong[l := r.strong[l] + 1]) else r
  }

  function DropHandle(r: Registry, l: Lock): Registry {
    if r.IsLive(l) then r.(strong := r.strong[l := r.strong[l] - 1]) else r
  }

  class SessionLifecycleLockRegistry {
    var locks: map<string, Lock>
    var strong: map<Lock, nat>
    var next: Lock
    ghost var nameOf: map<Lock, string>

    ghost function View(): Registry
      reads this
    {
      Registry(locks, strong, nameOf, next)
    }

    constructor ()
      ensures View() == EMPTY
    {
      locks, strong, nameOf, next := map[], map[], map[], 0;
    }

    method StrongCount(l: Lock) returns (n: nat)
      ensures n > 0 <==> View().IsLive(l)
    {
      n := if l in strong then strong[l] else 0;
    }

    /** Removes every dead entry. */
    method Retain()
      modifies this`locks
      ensures View() == Pruned(old(View()))
    {
      var left := locks.Keys;
      while left != {}
        invariant left <= locks.Keys <= old(locks.Keys)
        invariant forall name :: name in locks ==> locks[name] == old(locks[name])
        invariant forall name :: name in old(locks) && name !in left ==>
                    (name in locks <==> old(View().HasLive(name)))
      {
        var name :| name in left;
        left := left - {name};
        var count := StrongCount(locks[name]);
        if count == 0 {
          locks := locks - {name};
        }
      }
    }

    method LockFor(name: string) returns (lock: Lock)
      requires forall l :: l in strong ==> l < next
      modifies this
      ensures lock == LockAt(Pruned(old(View())), name)
      ensures View() == Enter(Pruned(old(View())), name)
    {
      Retain();
      if name in locks {
        var count := StrongCount(locks[name]);
        if count > 0 {
          lock := locks[name];
          strong := strong[lock := strong[lock] + 1];
          return;
        }
      }
      lock := next;
      locks := locks[name := lock];
      strong := strong[lock := 1];
      nameOf := nameOf[lock := name];
      next := next + 1;
    }
  }

  // ----- what every step keeps -----

  /** Every live lock is the entry of the name it was allocated for. */
  ghost predicate Inv(r: Registry) {
    && r.strong.Keys == r.nameOf.Keys
    && (forall l :: l in r.strong ==> l < r.next)
    && (forall name :: name in r.locks ==> r.locks[name] in r.nameOf && r.nameOf[r.locks[name]] == name)
    && forall l :: r.IsLive(l) ==> r.nameOf[l] in r.locks && r.locks[r.nameOf[l]] == l
  }

  /**
    What threads may do to the registry. A call of `lock_for` first prunes the
    entries one by one and then enters, and other threads may act in between.
   */
  datatype Action = Prune(name: string) | Take(name: string) | Clone(lock: Lock) | Drop(lock: Lock)

  function Next(r: Registry, a: Action): Registry {
    match a
    case Prune(name) => PruneEntry(r, name)
    case Take(name) => Enter(r, name)
    case Clone(l) => CloneHandle(r, l)
    case Drop(l) => DropHandle(r, l)
  }

  /** The registry after the first `n` actions. */
  function Run(actions: seq<Action>, n: nat): Registry
    requires n <= |actions|
  {
    if n == 0 then EMPTY else Next(Run(actions, n - 1), actions[n - 1])
  }

  lemma NextKeeps(r: Registry, a: Action)
    requires Inv(r)
    ensures Inv(Next(r, a))
  {
    match a
    case Prune(name) =>
    case Take(name) =>
      var after := Next(r, a);
      if !r.HasLive(name) {
        assert forall l :: r.IsLive(l) ==> r.nameOf[l] != name;
      }
    case Clone(l) =>
    case Drop(l) =>
  }

  lemma {:induction false} RunInv(actions: seq<Action>, n: nat)
    requires n <= |actions|
    ensures Inv(Run(actions, n))
  {
    if n > 0 {
      RunInv(actions, n - 1);
      NextKeeps(Run(actions, n - 1), actions[n - 1]);
    }
  }

  /** The name of a lock never changes, and a dead lock stays dead. */
  lemma {:induction false} LocksAge(actions: seq<Action>, m: nat, n: nat, l: Lock)
    requires m <= n <= |actions| && l in Run(actions, m).nameOf
    ensures l in Run(actions, n).nameOf && Run(actions, n).nameOf[l] == Run(actions, m).nameOf[l]
    ensures Run(actions, n).IsLive(l) ==> Run(actions, m).IsLive(l)
  {
    if m < n {
      LocksAge(actions, m, n - 1, l);
      RunInv(actions, n - 1);
    }
  }

  /** The lock that action `i` of a run hands out. */
  function HandedOut(actions: seq<Action>, i: nat): Lock
    requires i < |actions| && actions[i].Take?
  {
    LockAt(Run(actions, i), actions[i].name)
  }

  /**
    Whatever the threads do, two locks handed out for the same session name are
    the same lock as long as both are alive.
   */
  lemma OneLockPerName(actions: seq<Action>, i: nat, j: nat)
    requires i < |actions| && j < |actions|
    requires actions[i].Take? && actions[j].Take? && actions[i].name == actions[j].name
    requires var end := Run(actions, |actions|);
             end.IsLive(HandedOut(actions, i)) && end.IsLive(HandedOut(actions, j))
    ensures HandedOut(actions, i) == HandedOut(actions, j)
  {
    var end := Run(actions, |actions|);
    HandedOutAtEnd(actions, i, HandedOut(actions, i), end);
    HandedOutAtEnd(actions, j, HandedOut(actions, j), end);
    RunInv(actions, |actions|);
    OneLiveLock(end, HandedOut(actions, i), HandedOut(actions, j));
  }

  lemma OneLiveLock(r: Registry, l: Lock, l': Lock)
    requires Inv(r) && r.IsLive(l) && r.IsLive(l') && r.nameOf[l] == r.nameOf[l']
    ensures l == l'
  {
  }

  lemma HandedOutAtEnd(actions: seq<Action>, i: nat, l: Lock, end: Registry)
    requires i < |actions| && actions[i].Take? && l == HandedOut(actions, i) && end == Run(actions, |actions|)
    ensures l in end.nameOf && end.nameOf[l] == actions[i].name
  {
    HandedOutFor(actions, i);
    LocksAge(actions, i + 1, |actions|, l);
  }

  lemma HandedOutFor(actions: seq<Action>, i: nat)
    requires i < |actions| && actions[i].Take?
    ensures var l, after := HandedOut(actions, i), Run(actions, i + 1);
            l in after.nameOf && after.nameOf[l] == actions[i].name && after.IsLive(l)
  {
    RunInv(actions, i);
  }

  /** Pruning and entering leave every live entry as it was: only dead ones are removed or replaced. */
  lemma LiveEntriesStay(r: Registry, a: Action, name: string)
    requires Inv(r) && r.HasLive(name)
    ensures name in Next(r, a).locks && Next(r, a).locks[name] == r.locks[name]
    ensures !a.Drop? ==> Next(r, a).HasLive(name)
  {
  }

  /** After an undisturbed call the registry has exactly one entry for each live lock. */
  lemma AsManyEntriesAsLiveLocks(r: Registry, name: string)
    requires Inv(r)
    ensures var after := Enter(Pruned(r), name);
            Inv(after) && |after.locks| == |after.Live()|
  {
    var p := Pruned(r);
    assert Inv(p) by {
      forall l | p.IsLive(l) ensures p.nameOf[l] in p.locks && p.locks[p.nameOf[l]] == l {
        assert r.IsLive(l);
      }
    }
    NextKeeps(p, Take(name));
    var after := Enter(p, name);
    assert forall n :: n in after.locks ==> after.IsLive(after.locks[n]);
    SameSize(after.locks, after.nameOf, after.Live());
  }

  /** Two sets that map onto each other have the same size. */
  lemma {:induction false} SameSize(locks: map<string, Lock>, nameOf: map<Lock, string>, live: set<Lock>)
    requires forall l :: l in live ==> l in nameOf && nameOf[l] in locks && locks[nameOf[l]] == l
    requires forall n :: n in locks ==> locks[n] in live && nameOf[locks[n]] == n
    ensures |locks| == |live|
    decreases |live|
  {
    if live == {} {
      assert locks.Keys == {};
    } else {
      var l :| l in live;
      var rest := locks - {nameOf[l]};
      SameSize(rest, nameOf, live - {l});
      assert locks == rest[nameOf[l] := l];
    }
  }

  // ----- a lock lives as long as its handles -----

  /**
    How many handles to `l` the first `n` actions leave: those handed out or
    cloned, less those dropped while there was one.
   */
  ghost function Handles(actions: seq<Action>, n: nat, l: Lock): nat
    requires n <= |actions|
  {
    if n == 0 then 0
    else
      var before := Handles(actions, n - 1, l);
      match actions[n - 1]
      case Take(_) => if HandedOut(actions, n - 1) == l then before + 1 else before
      case Clone(c) => if c == l && before > 0 then before + 1 else before
      case Drop(d) => if d == l && before > 0 then before - 1 else before
      case Prune(_) => before
  }

  /** In every run the reference count of a lock is the number of its handles, so it is alive while there is one. */
  lemma {:induction false} CountIsHandles(actions: seq<Action>, n: nat, l: Lock)
    requires n <= |actions|
    ensures var r := Run(actions, n);
            && (l in r.strong ==> r.strong[l] == Handles(actions, n, l))
            && (l !in r.strong ==> Handles(actions, n, l) == 0)
            && (r.IsLive(l) <==> Handles(actions, n, l) > 0)
  {
    if n > 0 {
      CountIsHandles(actions, n - 1, l);
      RunInv(actions, n - 1);
    }
  }
}
