/**
  The debounced writer of state.json. The daemon's state is known by a version
  that every change increases; a snapshot or a file holds a version when it
  contains every change up to it. The background task is the only writer.
 */
module Writer {
  import opened Common

  /** The capacity of the signal channel. */
  const CAPACITY: nat := 32

  /** Where the background task is: waiting for a signal, letting signals settle, or writing a snapshot. */
  datatype Phase = Waiting | Draining | Writing(snapshot: nat)

  datatype Writer = Writer(version: nat, requested: nat, disk: nat, queued: nat, phase: Phase,
                           lastError: Option<string>, disabled: bool)

  datatype Action =
    | Change                        // some actor changes the state
    | Request                       // and asks for it to be persisted
    | Receive                       // the writer takes a signal
    | Settle                        // 500 ms passed without one
    | Finish(error: Option<string>) // the write ends
    | Disable                       // the state file found at startup must not be overwritten

  function Start(disabled: bool): Writer {
    Writer(0, 0, 0, 0, Waiting, None, disabled)
  }

  predicate Enabled(w: Writer, a: Action) {
    match a
    case Receive => w.queued > 0 && !w.phase.Writing?
    case Settle => w.phase.Draining?
    case Finish(_) => w.phase.Writing?
    case _ => true
  }

  /** A signal is dropped when the channel is full. */
  function Requested(w: Writer): Writer {
    w.(requested := w.version, queued := if w.queued < CAPACITY then w.queued + 1 else w.queued)
  }

  /** A disabled writer returns before it takes a snapshot, and records nothing. */
  function Settled(w: Writer): Writer {
    w.(phase := if w.disabled then Waiting else Writing(w.version))
  }

  function Finished(w: Writer, error: Option<string>): Writer
    requires w.phase.Writing?
  {
    w.(phase := Waiting, lastError := error, disk := if error.None? then w.phase.snapshot else w.disk)
  }

  function Next(w: Writer, a: Action): Writer
    requires Enabled(w, a)
  {
    match a
    case Change => w.(version := w.version + 1)
    case Request => Requested(w)
    case Receive => w.(queued := w.queued - 1, phase := Draining)
    case Settle => Settled(w)
    case Finish(error) => Finished(w, error)
    case Disable => w.(disabled := true)
  }

  /** The shared fields, updated by the daemon's actors and by the writer. */
  class PersistState {
    var version: nat
    var queued: nat
    var phase: Phase
    var disk: nat
    var lastError: Option<string>
    var disabled: bool
    ghost var requested: nat

    ghost function View(): Writer
      reads this
    {
      Writer(version, requested, disk, queued, phase, lastError, disabled)
    }

    constructor (disabled: bool)
      ensures View() == Start(disabled)
    {
      version, queued, phase, disk := 0, 0, Waiting, 0;
      lastError, this.disabled, requested := None, disabled, 0;
    }

    method RequestPersist()
      modifies this`queued, this`requested
      ensures View() == Next(old(View()), Request)
    {
      if queued < CAPACITY {
        queued := queued + 1;
      }
      requested := version;
    }

    method ReceiveSignal()
      requires Enabled(View(), Receive)
      modifies this`queued, this`phase
      ensures View() == Next(old(View()), Receive)
    {
      queued := queued - 1;
      phase := Draining;
    }

    /** `do_persist` up to the write: the error it returns when persistence is disabled, or the snapshot. */
    method BeginPersist() returns (snapshot: Option<nat>)
      requires Enabled(View(), Settle)
      modifies this`phase
      ensures View() == Next(old(View()), Settle)
      ensures snapshot == if disabled then None else Some(version)
    {
      if disabled {
        phase := Waiting;
        return None;
      }
      phase := Writing(version);
      snapshot := Some(version);
    }

    method RecordRuntimePersistResult(error: Option<string>)
      requires Enabled(View(), Finish(error))
      modifies this`phase, this`lastError, this`disk
      ensures View() == Next(old(View()), Finish(error))
    {
      match error {
        case None =>
          disk := phase.snapshot;
          lastError := None;
        case Some(_) =>
          lastError := error;
      }
      phase := Waiting;
    }
  }

  // ----- every run -----

  ghost predicate IsRun(run: seq<Writer>, actions: seq<Action>) {
    && |run| == |actions| + 1
    && run[0] == Start(run[0].disabled)
    && forall i :: 0 <= i < |actions| ==> Enabled(run[i], actions[i]) && run[i + 1] == Next(run[i], actions[i])
  }

  /** The latest request is on disk, or something is still going to bring it there, or the failure can be seen. */
  predicate NotLost(w: Writer) {
    || w.requested <= w.disk
    || w.queued > 0
    || w.phase.Draining?
    || (w.phase.Writing? && w.phase.snapshot >= w.requested)
    || w.lastError.Some?
    || w.disabled
  }

  predicate Inv(w: Writer) {
    && w.requested <= w.version && w.disk <= w.version && w.queued <= CAPACITY
    && NotLost(w)
    && match w.phase
       case Writing(s) => w.disk <= s <= w.version && (w.requested <= s || w.queued > 0)
       case _ => true
  }

  lemma NextKeeps(w: Writer, a: Action)
    requires Inv(w) && Enabled(w, a)
    ensures Inv(Next(w, a)) && w.disk <= Next(w, a).disk
  {
  }

  /**
    In no run is a requested change silently lost, although signals are dropped
    when the channel is full, and what is on disk never gets older.
   */
  lemma {:induction false} NothingLost(run: seq<Writer>, actions: seq<Action>, n: nat)
    requires IsRun(run, actions) && n <= |actions|
    ensures Inv(run[n]) && NotLost(run[n])
    ensures forall m :: 0 <= m <= n ==> run[m].disk <= run[n].disk
  {
    if n > 0 {
      NothingLost(run, actions, n - 1);
      NextKeeps(run[n - 1], actions[n - 1]);
    }
  }

  // ----- the writer left to itself -----

  /** What the writer does next when nobody else acts and writes succeed. */
  function TaskAction(w: Writer): Option<Action> {
    if w.phase.Writing? then Some(Finish(None))
    else if w.queued > 0 then Some(Receive)
    else if w.phase.Draining? then Some(Settle)
    else None
  }

  function StepsLeft(w: Writer): nat {
    3 * w.queued + match w.phase case Waiting => 0 case Writing(_) => 1 case Draining => 2
  }

  /** The state in which the writer comes to rest. */
  function AtRest(w: Writer): (end: Writer)
    ensures end.phase.Waiting? && end.queued == 0
    decreases StepsLeft(w)
  {
    match TaskAction(w)
    case None => w
    case Some(a) => AtRest(Next(w, a))
  }

  /** Whenever the writer rests in a run, enabled and with no error recorded, the latest request is on disk. */
  lemma RestIsFlushed(run: seq<Writer>, actions: seq<Action>, n: nat)
    requires IsRun(run, actions) && n <= |actions|
    requires run[n].phase.Waiting? && run[n].queued == 0 && !run[n].disabled && run[n].lastError.None?
    ensures run[n].requested <= run[n].disk
  {
    NothingLost(run, actions, n);
  }

  /** A task with a write or a signal ahead of it comes to rest with the latest request on disk and no error. */
  lemma {:induction false} TaskFlushes(w: Writer)
    requires Inv(w) && !w.disabled
    requires w.queued > 0 || !w.phase.Waiting?
    ensures var end := AtRest(w);
            end.requested == w.requested <= end.disk && end.lastError.None? && !end.disabled
    decreases StepsLeft(w)
  {
    var after := Next(w, TaskAction(w).value);
    NextKeeps(w, TaskAction(w).value);
    if after.queued > 0 || !after.phase.Waiting? {
      TaskFlushes(after);
    }
  }

  /** A failed write is retried by the next request: if writes now succeed, everything up to it reaches the disk. */
  lemma NextRequestRetries(w: Writer)
    requires Inv(w) && !w.disabled
    ensures var end := AtRest(Requested(w));
            end.disk >= w.version && end.lastError.None?
  {
    NextKeeps(w, Request);
    TaskFlushes(Requested(w));
  }

  // ----- what single steps do -----

  /** A request signals only while fewer than 32 signals wait; either way it asks for what there is now. */
  lemma RequestDoes(w: Writer)
    ensures var after := Next(w, Request);
            && after.queued == (if w.queued < 32 then w.queued + 1 else w.queued)
            && after == w.(requested := w.version, queued := after.queued)
  {
  }

  /** Settling takes a snapshot of what there is now, unless persistence is disabled. */
  lemma SettleDoes(w: Writer)
    requires w.phase.Draining?
    ensures Next(w, Settle) == if w.disabled then w.(phase := Waiting) else w.(phase := Writing(w.version))
  {
  }

  /** A write that works puts its snapshot on disk and clears the error, and one that fails only records its error. */
  lemma FinishDoes(w: Writer, error: Option<string>)
    requires w.phase.Writing?
    ensures Next(w, Finish(error)) ==
            match error
            case None => w.(phase := Waiting, disk := w.phase.snapshot, lastError := None)
            case Some(_) => w.(phase := Waiting, lastError := error)
  {
  }

  /** In no run does a disabled writer begin to write, so the file stays as it is and no error is recorded. */
  lemma {:induction false} DisabledWritesNothing(run: seq<Writer>, actions: seq<Action>, m: nat, n: nat)
    requires IsRun(run, actions) && m <= n <= |actions|
    requires run[m].disabled && !run[m].phase.Writing?
    ensures run[n].disabled && !run[n].phase.Writing?
    ensures run[n].disk == run[m].disk && run[n].lastError == run[m].lastError
    decreases n - m
  {
    if m < n {
      DisabledWritesNothing(run, actions, m, n - 1);
    }
  }
}
