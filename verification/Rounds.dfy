/**
  Cleanup and a lost browser take the sessions one at a time, each under its own
  lifecycle lock, and every other actor may act between two turns. Here are the
  runs in which they do.
 */
module Rounds {
  import opened Common
  import opened Sessions
  import opened Subscriptions
  import opened Lifecycle
  import opened Ownership
  import opened Activity
  import opened Disconnect
  import opened Cleanup

  datatype Scene = Scene(world: World, console: Tasks, dialogs: Dialogs)

  /** What the actors do with the background tasks and with what the dialog tasks record. */
  datatype Change =
    | TrackConsole(key: Key, token: Token)
    | TrackDialogs(key: Key, token: Token)
    | EndConsole(key: Key)
    | EndDialogs(key: Key)
    | EndConsoles(session: string)
    | EndAllDialogs(session: string)
    | RecordDialog(key: Key, dialog: Dialog)
    | TakeDialog(key: Key)
    | SetPolicy(session: string, policy: Policy)

  /**
    An action of another actor, a change of the background tasks, or the turn of
    one session in a round of cleanup or of a lost browser. Each turn of cleanup
    has its own times and its own failures; the tasks that it ends are changes
    of their own.
   */
  datatype Step =
    | Act(action: Action)
    | Tend(change: Change)
    | Clean(name: string, browsers: map<string, Browser>, now: nat, timeout: nat, later: nat, after: Option<Record>)
    | Lose(name: string, host: string)

  // ----- the background tasks -----

  function Changed(s: Scene, change: Change): Scene {
    match change
    case TrackConsole(key, token) => s.(console := Track(s.console, key, token))
    case TrackDialogs(key, token) => s.(dialogs := s.dialogs.(tasks := Track(s.dialogs.tasks, key, token)))
    case EndConsole(key) => s.(console := CancelKey(s.console, key))
    case EndDialogs(key) => s.(dialogs := CancelDialog(s.dialogs, key))
    case EndConsoles(session) => s.(console := CancelSession(s.console, session))
    case EndAllDialogs(session) => s.(dialogs := CancelDialogs(s.dialogs, session))
    case RecordDialog(key, dialog) => s.(dialogs := SetDialog(s.dialogs, key, dialog))
    case TakeDialog(key) => s.(dialogs := s.dialogs.(pending := s.dialogs.pending - {key}))
    case SetPolicy(session, policy) => s.(dialogs := s.dialogs.(policies := s.dialogs.policies[session := policy]))
  }

  /** Each task is still registered in its place, or cancelled, and no cancellation is undone. */
  ghost predicate Tended(before: Tasks, after: Tasks) {
    before.cancelled <= after.cancelled && NoneLeaks(before, after)
  }

  lemma TendedTwice(a: Tasks, b: Tasks, c: Tasks)
    requires Tended(a, b) && Tended(b, c)
    ensures Tended(a, c)
  {
  }

  lemma SessionTended(t: Tasks, session: string)
    ensures Tended(t, CancelSession(t, session))
  {
    CancelSessionLeaksNone(t, session);
  }

  lemma ChangeTends(s: Scene, change: Change)
    ensures var after := Changed(s, change);
            Tended(s.console, after.console) && Tended(s.dialogs.tasks, after.dialogs.tasks)
  {
    match change
    case EndConsoles(session) => SessionTended(s.console, session);
    case EndAllDialogs(session) => SessionTended(s.dialogs.tasks, session);
    case _ =>
  }

  // ----- the steps -----

  ghost predicate StepEnabled(s: Scene, step: Step) {
    match step
    case Act(action) => Enabled(s.world, action)
    case Tend(_) => true
    case Clean(name, browsers, now, timeout, later, after) =>
      && At(s.world.held, name) == 0
      && (match Get(s.world.st, name)
          case None => after.None?
          case Some(before) => Cleaned(before, after, browsers, now, timeout, later))
    case Lose(_, _) => true
  }

  /** The sessions and tasks after the turn of one session whose browser is lost. */
  ghost function Lost(s: Scene, name: string, host: string): Snapshot {
    SessionLost(Snapshot(s.world.st, s.console, s.dialogs), name, host)
  }

  ghost function AfterStep(s: Scene, step: Step): Scene
    requires StepEnabled(s, step)
  {
    match step
    case Act(action) => s.(world := Next(s.world, action))
    case Tend(change) => Changed(s, change)
    case Clean(name, _, _, _, _, after) => s.(world := s.world.(st := Put(s.world.st, name, after)))
    case Lose(name, host) =>
      var lost := Lost(s, name, host);
      Scene(s.world.(st := lost.st), lost.console, lost.dialogs)
  }

  ghost predicate IsMixedRun(run: seq<Scene>, steps: seq<Step>) {
    && |run| == |steps| + 1 && Initial(run[0].world)
    && forall i :: 0 <= i < |steps| ==> StepEnabled(run[i], steps[i]) && run[i + 1] == AfterStep(run[i], steps[i])
  }

  // ----- what every step keeps -----

  /** The session whose turn it is has been used too recently. */
  predicate Spares(st: State, step: Step)
    requires step.Clean?
  {
    step.name in st && !Expired(st[step.name], step.now, step.timeout)
  }

  /** A turn of cleanup keeps the daemon well-formed and every other session as it is. */
  lemma CleanKeeps(s: Scene, step: Step)
    requires Ownership.Ok(s.world.st) && step.Clean? && StepEnabled(s, step)
    ensures Ownership.Ok(AfterStep(s, step).world.st)
    ensures Spares(s.world.st, step) ==> AfterStep(s, step) == s
  {
    var st := s.world.st;
    PutSame(st, step.name);
    if step.after.None? {
      CloseKeeps(st, step.name);
    } else if Expired(st[step.name], step.now, step.timeout) {
      var before := st[step.name];
      ShrunkOk(step.name, before, step.after.value, ClosedTabs(CdpOf(step.browsers, before), before));
      ShrinkKeeps(st, step.name, step.after.value);
    }
  }

  lemma LoseKeeps(s: Scene, name: string, host: string)
    requires Ownership.Ok(s.world.st)
    ensures Ownership.Ok(Lost(s, name, host).st)
  {
    if name in s.world.st {
      var before := s.world.st[name];
      FieldsKeep(s.world.st, name, before.lastActive, true, before.pending);
    }
  }

  lemma StepKeeps(s: Scene, step: Step)
    requires Ownership.Ok(s.world.st) && StepEnabled(s, step)
    ensures Ownership.Ok(AfterStep(s, step).world.st)
  {
    match step
    case Act(action) => NextKeeps(s.world, action);
    case Tend(_) =>
    case Clean(_, _, _, _, _, _) => CleanKeeps(s, step);
    case Lose(name, host) => LoseKeeps(s, name, host);
  }

  /**
    In any interleaving with the turns of cleanup and of lost browsers the state
    stays well-formed, and a session that was used between the list of a round
    of cleanup and its turn is left alone.
   */
  lemma {:induction false} MixedRunOk(run: seq<Scene>, steps: seq<Step>, n: nat)
    requires IsMixedRun(run, steps) && n <= |steps|
    ensures Ownership.Ok(run[n].world.st)
    ensures n < |steps| && steps[n].Clean? && Spares(run[n].world.st, steps[n]) ==> run[n + 1] == run[n]
  {
    if n > 0 {
      MixedRunOk(run, steps, n - 1);
      StepKeeps(run[n - 1], steps[n - 1]);
    }
    if n < |steps| && steps[n].Clean? {
      CleanKeeps(run[n], steps[n]);
    }
  }

  lemma StepTends(s: Scene, step: Step)
    requires StepEnabled(s, step)
    ensures var after := AfterStep(s, step);
            Tended(s.console, after.console) && Tended(s.dialogs.tasks, after.dialogs.tasks)
  {
    if step.Tend? {
      ChangeTends(s, step.change);
    } else if step.Lose? {
      SessionTended(s.console, step.name);
      SessionTended(s.dialogs.tasks, step.name);
    }
  }

  /** Every task that was ever registered is still registered in its place, or cancelled. */
  lemma {:induction false} NoTaskLeaks(run: seq<Scene>, steps: seq<Step>, m: nat, n: nat)
    requires IsMixedRun(run, steps) && m <= n <= |steps|
    ensures Tended(run[m].console, run[n].console) && Tended(run[m].dialogs.tasks, run[n].dialogs.tasks)
    decreases n - m
  {
    if m < n {
      NoTaskLeaks(run, steps, m, n - 1);
      StepTends(run[n - 1], steps[n - 1]);
      TendedTwice(run[m].console, run[n - 1].console, run[n].console);
      TendedTwice(run[m].dialogs.tasks, run[n - 1].dialogs.tasks, run[n].dialogs.tasks);
    }
  }

  // ----- a session in use -----

  /** The clock does not run back: if the step uses the session, it is not before `t`. */
  ghost predicate NotBefore(s: Scene, step: Step, name: string, t: nat) {
    match step
    case Act(action) => UsedAt(s.world, action, name).Some? ==> UsedAt(s.world, action, name).value >= t
    case Clean(n, _, _, _, later, _) => n == name ==> later >= t
    case _ => true
  }

  ghost predicate ClockGoesOn(run: seq<Scene>, steps: seq<Step>, m: nat, n: nat, name: string, t: nat)
    requires n <= |steps| && |run| == |steps| + 1
  {
    forall i {:trigger NotBefore(run[i], steps[i], name, t)} :: m <= i < n ==> NotBefore(run[i], steps[i], name, t)
  }

  /** If the session is there, it is known to have been used at `t` or later. */
  ghost predicate KnownUsed(s: Scene, name: string, t: nat) {
    name in s.world.st ==> s.world.st[name].lastActive >= t
  }

  lemma CleanKeepsUse(s: Scene, step: Step, name: string, t: nat)
    requires step.Clean? && StepEnabled(s, step) && NotBefore(s, step, name, t) && KnownUsed(s, name, t)
    ensures KnownUsed(AfterStep(s, step), name, t)
  {
  }

  lemma StepKeepsUse(s: Scene, step: Step, name: string, t: nat)
    requires UniqueOwners(s.world.st) && StepEnabled(s, step) && NotBefore(s, step, name, t) && KnownUsed(s, name, t)
    ensures KnownUsed(AfterStep(s, step), name, t)
  {
    match step
    case Act(action) =>
      if name in NextState(s.world.st, action) {
        UseIsRecorded(s.world, action, name);
      }
    case Tend(_) =>
    case Clean(_, _, _, _, _, _) => CleanKeepsUse(s, step, name, t);
    case Lose(_, _) =>
  }

  lemma UseStep(run: seq<Scene>, steps: seq<Step>, i: nat, name: string, t: nat)
    requires IsMixedRun(run, steps) && i < |steps|
    requires KnownUsed(run[i], name, t) && NotBefore(run[i], steps[i], name, t)
    ensures KnownUsed(run[i + 1], name, t)
  {
    MixedRunOk(run, steps, i);
    StepKeepsUse(run[i], steps[i], name, t);
  }

  lemma ClockWentOn(run: seq<Scene>, steps: seq<Step>, m: nat, n: nat, name: string, t: nat)
    requires m < n <= |steps| && |run| == |steps| + 1 && ClockGoesOn(run, steps, m, n, name, t)
    ensures ClockGoesOn(run, steps, m, n - 1, name, t) && NotBefore(run[n - 1], steps[n - 1], name, t)
  {
  }

  lemma {:induction false} UseIsKept(run: seq<Scene>, steps: seq<Step>, m: nat, n: nat, name: string, t: nat)
    requires IsMixedRun(run, steps) && m <= n <= |steps| && KnownUsed(run[m], name, t)
    requires ClockGoesOn(run, steps, m, n, name, t)
    ensures KnownUsed(run[n], name, t)
    decreases n - m
  {
    if m < n {
      ClockWentOn(run, steps, m, n, name, t);
      UseIsKept(run, steps, m, n - 1, name, t);
      UseStep(run, steps, n - 1, name, t);
    }
  }

  /**
    In any interleaving a session that some step used at instant `t` is left
    alone by every later turn of cleanup for which the timeout has not passed
    since `t`, as long as the clock does not run back.
   */
  lemma UsedIsLeftAlone(run: seq<Scene>, steps: seq<Step>, m: nat, n: nat, name: string, t: nat)
    requires IsMixedRun(run, steps) && m < n < |steps|
    requires steps[m].Act? && UsedAt(run[m].world, steps[m].action, name) == Some(t)
    requires ClockGoesOn(run, steps, m + 1, n, name, t)
    requires steps[n].Clean? && steps[n].name == name && steps[n].now <= t + steps[n].timeout
    ensures run[n + 1] == run[n]
  {
    MixedRunOk(run, steps, m);
    assert KnownUsed(run[m + 1], name, t) by {
      if name in run[m + 1].world.st {
        UseIsRecorded(run[m].world, steps[m].action, name);
      }
    }
    UseIsKept(run, steps, m + 1, n, name, t);
    TurnSpares(run[n], steps[n], t);
  }

  lemma TurnSpares(s: Scene, step: Step, t: nat)
    requires step.Clean? && StepEnabled(s, step) && KnownUsed(s, step.name, t) && step.now <= t + step.timeout
    ensures AfterStep(s, step) == s
  {
    PutSame(s.world.st, step.name);
    if step.name in s.world.st {
      var before := s.world.st[step.name];
      assert before == before.(lastActive := before.lastActive);
      UsedIsSpared(before, step.after, step.browsers, step.now, step.timeout, step.later, before.lastActive);
    }
  }

  // ----- a lost browser -----

  /** The session is bound to a browser again, closed, or removed by cleanup. */
  predicate Departs(step: Step, name: string) {
    || (step.Act? && (step.action.Rebind? || step.action.Close?) && step.action.name == name)
    || (step.Clean? && step.name == name && step.after.None?)
  }

  ghost predicate OnThis(s: Scene, name: string, host: string) {
    name in s.world.st && s.world.st[name].host == host
  }

  ghost predicate MarkedOn(s: Scene, name: string, host: string) {
    OnThis(s, name, host) && s.world.st[name].disconnected
  }

  lemma ActStays(w: World, a: Action, name: string, host: string)
    requires Enabled(w, a) && name in w.st && w.st[name].host == host && !Departs(Act(a), name)
    ensures name in NextState(w.st, a) && NextState(w.st, a)[name].host == host
    ensures w.st[name].disconnected ==> NextState(w.st, a)[name].disconnected
  {
  }

  lemma StepStays(s: Scene, step: Step, name: string, host: string)
    requires StepEnabled(s, step) && OnThis(s, name, host) && !Departs(step, name)
    ensures OnThis(AfterStep(s, step), name, host)
    ensures MarkedOn(s, name, host) ==> MarkedOn(AfterStep(s, step), name, host)
  {
    if step.Act? {
      ActStays(s.world, step.action, name, host);
    }
  }

  /** A session stays on its host, and marked once it is, for as long as nobody rebinds or removes it. */
  lemma {:induction false} StaysOnHost(run: seq<Scene>, steps: seq<Step>, m: nat, n: nat, name: string, host: string)
    requires IsMixedRun(run, steps) && m <= n <= |steps| && OnThis(run[m], name, host)
    requires forall i :: m <= i < n ==> !Departs(steps[i], name)
    ensures OnThis(run[n], name, host)
    ensures MarkedOn(run[m], name, host) ==> MarkedOn(run[n], name, host)
    decreases n - m
  {
    if m < n {
      StaysOnHost(run, steps, m, n - 1, name, host);
      StepStays(run[n - 1], steps[n - 1], name, host);
    }
  }

  /** The session's tasks registered in one scene are cancelled in the other. */
  ghost predicate TasksCancelled(s: Scene, after: Scene, name: string) {
    && (forall key :: key in s.console.tokens && key.0 == name ==> s.console.tokens[key] in after.console.cancelled)
    && forall key :: key in s.dialogs.tasks.tokens && key.0 == name ==>
         s.dialogs.tasks.tokens[key] in after.dialogs.tasks.cancelled
  }

  /** A session on the host is marked by its turn and left without tasks, and the turn touches no other. */
  lemma TurnMarks(s: Scene, name: string, host: string)
    requires OnThis(s, name, host)
    ensures var after := AfterStep(s, Lose(name, host));
            && MarkedOn(after, name, host) && TasksCancelled(s, after, name)
            && NoTaskOf(after.console, name) && NoTaskOf(after.dialogs.tasks, name) && name !in after.dialogs.policies
            && forall other :: other != name ==> Get(after.world.st, other) == Get(s.world.st, other)
  {
    SessionCancelled(s.console, name);
    SessionCancelled(s.dialogs.tasks, name);
  }

  /** One that has gone, or is on another host by then, is left as it is. */
  lemma TurnPasses(s: Scene, name: string, host: string)
    requires name !in s.world.st || s.world.st[name].host != host
    ensures AfterStep(s, Lose(name, host)) == s
  {
  }

  /** A task that an earlier scene registered is cancelled once all tasks of its session are. */
  lemma EarlierTaskEnds(a: Tasks, b: Tasks, c: Tasks, d: Tasks, name: string, key: Key)
    requires Tended(a, b) && Tended(c, d) && key in a.tokens && key.0 == name
    requires c == CancelSession(b, name)
    ensures a.tokens[key] in d.cancelled
  {
    SessionCancelled(b, name);
  }

  lemma EarlierTasksEnd(run: seq<Scene>, steps: seq<Step>, p: nat, i: nat, q: nat, name: string, host: string)
    requires IsMixedRun(run, steps) && p <= i < q <= |steps|
    requires steps[i] == Lose(name, host) && OnThis(run[i], name, host)
    ensures TasksCancelled(run[p], run[q], name)
  {
    var a, b, c, d := run[p], run[i], run[i + 1], run[q];
    NoTaskLeaks(run, steps, p, i);
    NoTaskLeaks(run, steps, i + 1, q);
    forall key | key in a.console.tokens && key.0 == name ensures a.console.tokens[key] in d.console.cancelled {
      EarlierTaskEnds(a.console, b.console, c.console, d.console, name, key);
    }
    forall key | key in a.dialogs.tasks.tokens && key.0 == name
      ensures a.dialogs.tasks.tokens[key] in d.dialogs.tasks.cancelled
    {
      EarlierTaskEnds(a.dialogs.tasks, b.dialogs.tasks, c.dialogs.tasks, d.dialogs.tasks, name, key);
    }
  }

  /** Every session that was on the host at `p` has had its turn before `q`. */
  ghost predicate DisconnectRound(run: seq<Scene>, steps: seq<Step>, p: nat, q: nat, host: string)
    requires IsMixedRun(run, steps) && p <= q <= |steps|
  {
    forall name :: OnThis(run[p], name, host) ==> exists i :: p <= i < q && steps[i] == Lose(name, host)
  }

  /**
    Whatever the other actors do during a round of a lost browser, each session
    that was on the host when the round began ends it marked, and every task it
    then had is cancelled, unless it has been bound again or removed.
   */
  lemma RoundMarks(run: seq<Scene>, steps: seq<Step>, p: nat, q: nat, name: string, host: string)
    requires IsMixedRun(run, steps) && p <= q <= |steps| && DisconnectRound(run, steps, p, q, host)
    requires OnThis(run[p], name, host)
    ensures || (exists i :: p <= i < q && Departs(steps[i], name))
            || (MarkedOn(run[q], name, host) && TasksCancelled(run[p], run[q], name))
  {
    if forall i :: p <= i < q ==> !Departs(steps[i], name) {
      var i :| p <= i < q && steps[i] == Lose(name, host);
      StaysOnHost(run, steps, p, i, name, host);
      TurnMarks(run[i], name, host);
      StaysOnHost(run, steps, i + 1, q, name, host);
      EarlierTasksEnd(run, steps, p, i, q, name, host);
    }
  }

  // ----- what leaves in a run -----

  /** The turn removed a session that was idle and could be closed whole. */
  ghost predicate RemovedBy(s: Scene, step: Step, name: string)
    requires name in s.world.st
  {
    || step == Act(Close(name))
    || (step.Clean? && step.name == name && step.after.None?
        && Finished(s.world.st[name], step.browsers, step.now, step.timeout))
  }

  lemma ActRemoves(w: World, a: Action, name: string)
    requires name in w.st && name !in NextState(w.st, a)
    ensures a == Close(name)
  {
  }

  lemma StepRemoves(s: Scene, step: Step, name: string)
    requires StepEnabled(s, step) && name in s.world.st && name !in AfterStep(s, step).world.st
    requires SessionOk(name, s.world.st[name])
    ensures RemovedBy(s, step, name)
  {
    if step.Act? {
      ActRemoves(s.world, step.action, name);
    } else if step.Clean? {
      GoneIsFinished(name, s.world.st[name], step.browsers, step.now, step.timeout, step.later);
    }
  }

  /**
    In any interleaving a session that is there at one time and not at another
    was closed by a client, or by cleanup at a turn at which it was idle and
    isolated, with all its tabs closed and its context disposed.
   */
  lemma {:induction false} GoneWasRemoved(run: seq<Scene>, steps: seq<Step>, m: nat, n: nat, name: string)
    requires IsMixedRun(run, steps) && m <= n <= |steps|
    requires name in run[m].world.st && name !in run[n].world.st
    ensures exists i :: m <= i < n && name in run[i].world.st && RemovedBy(run[i], steps[i], name)
    decreases n - m
  {
    if name in run[n - 1].world.st {
      MixedRunOk(run, steps, n - 1);
      StepRemoves(run[n - 1], steps[n - 1], name);
    } else {
      GoneWasRemoved(run, steps, m, n - 1, name);
    }
  }

  /** The step is one by which a tab leaves its session. */
  ghost predicate TakesTab(s: Scene, step: Step, name: string, id: string)
    requires Owns(s.world.st, name, id)
  {
    || (step.Act? && step.action.Remove? && step.action.targetId == id)
    || (step.Act? && (step.action.Rebind? || step.action.Close?) && step.action.name == name)
    || (step.Clean? && step.name == name && LetGo(CdpOf(step.browsers, s.world.st[name]), s.world.st[name].tabs[id]))
  }

  lemma ActTakes(w: World, a: Action, name: string, id: string)
    requires Enabled(w, a) && Owns(w.st, name, id) && !Owns(NextState(w.st, a), name, id)
    ensures (a.Remove? && a.targetId == id) || ((a.Rebind? || a.Close?) && a.name == name)
  {
  }

  lemma StepTakes(s: Scene, step: Step, name: string, id: string)
    requires StepEnabled(s, step) && Owns(s.world.st, name, id) && !Owns(AfterStep(s, step).world.st, name, id)
    ensures TakesTab(s, step, name, id)
  {
    if step.Act? {
      ActTakes(s.world, step.action, name, id);
    } else if step.Clean? {
      LeftIsLetGo(s.world.st[name], step.after, step.browsers, step.now, step.timeout, step.later, id);
    }
  }

  /**
    In any interleaving a tab that a session had and no longer has was destroyed,
    or lost in a rebinding, or closed with its session by a client, or taken by a
    turn of cleanup at which its command succeeded.
   */
  lemma {:induction false} LeftWasTaken(run: seq<Scene>, steps: seq<Step>, m: nat, n: nat, name: string, id: string)
    requires IsMixedRun(run, steps) && m <= n <= |steps|
    requires Owns(run[m].world.st, name, id) && !Owns(run[n].world.st, name, id)
    ensures exists i :: m <= i < n && Owns(run[i].world.st, name, id) && TakesTab(run[i], steps[i], name, id)
    decreases n - m
  {
    if Owns(run[n - 1].world.st, name, id) {
      StepTakes(run[n - 1], steps[n - 1], name, id);
    } else {
      LeftWasTaken(run, steps, m, n - 1, name, id);
    }
  }
}
