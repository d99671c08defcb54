/**
  The mouse helpers of the actions: a click and a drag as ordered dispatches,
  each of which the browser may refuse. Coordinates are real numbers, so a point
  is always finite.
 */
module Mouse {
  import opened Common

  datatype Point = Point(x: real, y: real)

  datatype Kind = Moved | Pressed | Released

  datatype Button = NoButton | Left

  /** One `Input.dispatchMouseEvent` command. */
  datatype Event = Event(kind: Kind, at: Point, button: Button, buttons: int, clicks: Option<int>)

  datatype Completion = NotStarted | Unknown

  /** A failure names the dispatch that the browser refused, by its position in the session's log. */
  datatype CleanupFailure = CleanupFailure(resource: string, cause: nat)

  datatype Error = Error(operation: string, cause: nat, completion: Completion, cleanup: seq<CleanupFailure>)

  datatype Reply = Done | Failed(error: Error)

  class CdpSession {
    /** Every command sent, refused or not. */
    var log: seq<Event>
    /** Which dispatches the browser refuses. */
    const refuses: nat -> bool

    method Send(e: Event) returns (ok: bool)
      modifies this`log
      ensures log == old(log) + [e]
      ensures ok == !refuses(|old(log)|)
    {
      ok := !refuses(|log|);
      log := log + [e];
    }
  }

  function Move(at: Point, buttons: int): Event {
    Event(Moved, at, if buttons % 2 == 1 then Left else NoButton, buttons, None)
  }

  function Press(at: Point, clicks: int): Event {
    Event(Pressed, at, Left, 1, Some(clicks))
  }

  function Release(at: Point): Event {
    Event(Released, at, Left, 0, Some(1))
  }

  method MouseMove(session: CdpSession, point: Point, buttons: int, started: bool) returns (r: Reply)
    modifies session`log
    ensures session.log == old(session.log) + [Move(point, buttons)]
    ensures r == if session.refuses(|old(session.log)|)
                 then Failed(MoveError(|old(session.log)|, started)) else Done
  {
    var button := if buttons % 2 == 1 then Left else NoButton;
    var cause := |session.log|;
    var ok := session.Send(Event(Moved, point, button, buttons, None));
    if ok {
      return Done;
    }
    var completion := if started then Unknown else NotStarted;
    r := Failed(Error("dispatch mouse move", cause, completion, []));
  }

  function MoveError(cause: nat, started: bool): Error {
    Error("dispatch mouse move", cause, if started then Unknown else NotStarted, [])
  }

  method ReleaseMouse(session: CdpSession, point: Point, operation: string) returns (r: Reply)
    modifies session`log
    ensures session.log == old(session.log) + [Release(point)]
    ensures r == if session.refuses(|old(session.log)|)
                 then Failed(Error(operation, |old(session.log)|, Unknown, [])) else Done
  {
    var cause := |session.log|;
    var ok := session.Send(Event(Released, point, Left, 0, Some(1)));
    r := if ok then Done else Failed(Error(operation, cause, Unknown, []));
  }

  /** Releases the button after a failure, which stays the error reported. */
  method ReleaseAfterPrimaryFailure(session: CdpSession, point: Point, primary: Error) returns (r: Reply)
    modifies session`log
    ensures session.log == old(session.log) + [Release(point)]
    ensures r == Failed(WithRelease(primary, session.refuses, |old(session.log)|))
  {
    var released := ReleaseMouse(session, point, "release mouse after failed press or drag");
    match released
    case Done => r := Failed(primary);
    case Failed(cleanup) =>
      r := Failed(primary.(cleanup := primary.cleanup + [CleanupFailure("mouse button", cleanup.cause)]));
  }

  /** The primary error, with a cleanup failure if the release at `position` was refused too. */
  function WithRelease(primary: Error, refuses: nat -> bool, position: nat): Error {
    if refuses(position) then primary.(cleanup := primary.cleanup + [CleanupFailure("mouse button", position)])
    else primary
  }

  // ----- which dispatch fails first -----

  /** No dispatch at positions `from` up to `upto` is refused. */
  ghost predicate Clear(refuses: nat -> bool, from: nat, upto: nat) {
    forall k: nat :: from <= k < upto ==> !refuses(k)
  }

  /** The first refused dispatch among positions `from` up to `upto`. */
  function FirstRefused(refuses: nat -> bool, from: nat, upto: nat): (f: Option<nat>)
    requires from <= upto
    ensures f.None? ==> Clear(refuses, from, upto)
    ensures f.Some? ==> from <= f.value < upto && refuses(f.value) && Clear(refuses, from, f.value)
    decreases upto - from
  {
    if from == upto then None else if refuses(from) then Some(from) else FirstRefused(refuses, from + 1, upto)
  }

  lemma {:induction false} FirstRefusedAt(refuses: nat -> bool, from: nat, f: nat, upto: nat)
    requires from <= f < upto && refuses(f)
    requires Clear(refuses, from, f)
    ensures FirstRefused(refuses, from, upto) == Some(f)
    decreases f - from
  {
    if from < f {
      FirstRefusedAt(refuses, from + 1, f, upto);
    }
  }

  lemma {:induction false} NoneRefused(refuses: nat -> bool, from: nat, upto: nat)
    requires from <= upto && Clear(refuses, from, upto)
    ensures FirstRefused(refuses, from, upto).None?
    decreases upto - from
  {
    if from < upto {
      NoneRefused(refuses, from + 1, upto);
    }
  }

  // ----- click -----

  /** A move, then `c` clicks: click `i` is a press that counts `i` and its release. */
  function Clicks(point: Point, c: nat): (s: seq<Event>)
    ensures |s| == 1 + 2 * c
  {
    if c == 0 then [Move(point, 0)] else Clicks(point, c - 1) + [Press(point, c)] + [Release(point)]
  }

  function ClickCount(count: int): nat {
    if count > 0 then count else 0
  }

  /** The error when dispatch `k` is the first refused: the move, or the press or the release of click `c`. */
  function ClickError(refuses: nat -> bool, base: nat, k: nat, started: bool): Error {
    var c := (k + 1) / 2;
    if k == 0 then MoveError(base, started)
    else if k == 2 * c - 1
    then WithRelease(Error("dispatch mouse press", base + k, Unknown, []), refuses, base + k + 1)
    else Error("dispatch mouse release", base + k, Unknown, [])
  }

  /**
    A click sends the move and the clicks through the one that meets the first
    refusal, which is the error reported. A refused press is still followed by its release.
   */
  ghost predicate Clicked(refuses: nat -> bool, before: seq<Event>, point: Point, count: int, started: bool,
                          log: seq<Event>, r: Reply) {
    var base := |before|;
    match FirstRefused(refuses, base, base + 1 + 2 * ClickCount(count))
    case None => r == Done && log == before + Clicks(point, ClickCount(count))
    case Some(f) =>
      && r == Failed(ClickError(refuses, base, f - base, started))
      && log == before + Clicks(point, (f - base + 1) / 2)
  }

  /** The refusal of the press or of the release of click `c`. */
  lemma ClickStops(refuses: nat -> bool, before: seq<Event>, point: Point, count: int, started: bool, c: nat, r: Reply)
    requires 0 < c <= ClickCount(count) && Clear(refuses, |before|, |before| + 2 * c - 1)
    requires var n := |before| + 2 * c - 1;
             && r == PairReply(refuses, n)
             && r.Failed?
    ensures Clicked(refuses, before, point, count, started, before + Clicks(point, c), r)
  {
    var base, upto := |before|, |before| + 1 + 2 * ClickCount(count);
    if refuses(base + 2 * c - 1) {
      FirstRefusedAt(refuses, base, base + 2 * c - 1, upto);
      assert (2 * c - 1 + 1) / 2 == c;
    } else {
      FirstRefusedAt(refuses, base, base + 2 * c, upto);
      assert (2 * c + 1) / 2 == c;
    }
  }

  lemma MoveStops(refuses: nat -> bool, before: seq<Event>, point: Point, count: int, started: bool)
    requires refuses(|before|)
    ensures Clicked(refuses, before, point, count, started, before + Clicks(point, 0),
                    Failed(MoveError(|before|, started)))
  {
    FirstRefusedAt(refuses, |before|, |before|, |before| + 1 + 2 * ClickCount(count));
  }

  /** The outcome of a press at position `n` and its release. */
  function PairReply(refuses: nat -> bool, n: nat): Reply {
    if refuses(n) then Failed(WithRelease(Error("dispatch mouse press", n, Unknown, []), refuses, n + 1))
    else if refuses(n + 1) then Failed(Error("dispatch mouse release", n + 1, Unknown, []))
    else Done
  }

  /** One turn of the click loop. */
  method PressAndRelease(session: CdpSession, point: Point, clickCount: int) returns (r: Reply)
    modifies session`log
    ensures session.log == old(session.log) + [Press(point, clickCount)] + [Release(point)]
    ensures r == PairReply(session.refuses, |old(session.log)|)
  {
    var cause := |session.log|;
    var pressed := session.Send(Event(Pressed, point, Left, 1, Some(clickCount)));
    if !pressed {
      r := ReleaseAfterPrimaryFailure(session, point, Error("dispatch mouse press", cause, Unknown, []));
      return;
    }
    r := ReleaseMouse(session, point, "dispatch mouse release");
  }

  method MouseClick(session: CdpSession, point: Point, count: int, started: bool) returns (r: Reply)
    modifies session`log
    ensures Clicked(session.refuses, old(session.log), point, count, started, session.log, r)
  {
    ghost var before, base := session.log, |session.log|;
    r := MouseMove(session, point, 0, started);
    if r.Failed? {
      MoveStops(session.refuses, before, point, count, started);
      return;
    }
    var clickCount := 1;
    while clickCount <= count
      invariant 1 <= clickCount <= ClickCount(count) + 1
      invariant session.log == before + Clicks(point, clickCount - 1)
      invariant Clear(session.refuses, base, base + 2 * clickCount - 1)
      decreases count - clickCount
    {
      r := PressAndRelease(session, point, clickCount);
      NextClick(before, point, clickCount);
      if r.Failed? {
        ClickStops(session.refuses, before, point, count, started, clickCount, r);
        return;
      }
      clickCount := clickCount + 1;
    }
    NoneRefused(session.refuses, base, base + 1 + 2 * ClickCount(count));
    r := Done;
  }

  lemma NextClick(l: seq<Event>, point: Point, c: nat)
    requires c > 0
    ensures l + Clicks(point, c - 1) + [Press(point, c)] + [Release(point)] == l + Clicks(point, c)
  {
  }

  // ----- drag -----

  /** The point `step` tenths of the way. */
  function Along(source: Point, target: Point, step: int): Point {
    Between(source, target, step as real / 10.0)
  }

  function Between(source: Point, target: Point, progress: real): Point {
    var dx, dy := target.x - source.x, target.y - source.y;
    Point(source.x + dx * progress, source.y + dy * progress)
  }

  const DRAG_LENGTH: nat := 13

  /** Dispatch `k` of a drag: move, press, ten held moves, release. */
  function DragEvent(source: Point, target: Point, k: nat): Event {
    if k == 0 then Move(source, 0)
    else if k == 1 then Press(source, 1)
    else if k < 12 then Move(Along(source, target, k - 1), 1)
    else Release(target)
  }

  function DragScript(source: Point, target: Point, n: nat): (s: seq<Event>)
    ensures |s| == n
  {
    if n == 0 then [] else DragScript(source, target, n - 1) + [DragEvent(source, target, n - 1)]
  }

  /** What a drag sends when the first refused dispatch is the `k`-th: the button is released once it went down. */
  function DragLog(source: Point, target: Point, k: nat): seq<Event> {
    DragScript(source, target, k + 1)
    + (if k == 0 || k == 12 then [] else if k == 1 then [Release(source)] else [Release(target)])
  }

  function DragError(refuses: nat -> bool, base: nat, k: nat): Error {
    if k == 0 then MoveError(base, true)
    else if k == 1 then WithRelease(Error("dispatch drag press", base + 1, Unknown, []), refuses, base + 2)
    else if k < 12 then WithRelease(MoveError(base + k, true), refuses, base + k + 1)
    else Error("dispatch drag release", base + k, Unknown, [])
  }

  ghost predicate Dragged(refuses: nat -> bool, before: seq<Event>, source: Point, target: Point,
                          log: seq<Event>, r: Reply) {
    var base := |before|;
    match FirstRefused(refuses, base, base + DRAG_LENGTH)
    case None => r == Done && log == before + DragScript(source, target, DRAG_LENGTH)
    case Some(f) =>
      && r == Failed(DragError(refuses, base, f - base))
      && log == before + DragLog(source, target, f - base)
  }

  /** The refusal of dispatch `k`, with the release that follows it once the button went down. */
  lemma DragStops(refuses: nat -> bool, before: seq<Event>, source: Point, target: Point, k: nat, log: seq<Event>)
    requires k < DRAG_LENGTH && Clear(refuses, |before|, |before| + k) && refuses(|before| + k)
    requires var sent := before + DragScript(source, target, k + 1);
             log == if k == 0 || k == 12 then sent else sent + [Release(if k == 1 then source else target)]
    ensures Dragged(refuses, before, source, target, log, Failed(DragError(refuses, |before|, k)))
  {
    FirstRefusedAt(refuses, |before|, |before| + k, |before| + DRAG_LENGTH);
  }

  /** The ten held moves, up to the first that is refused; `next` is the step after the last one tried. */
  method DragMovement(session: CdpSession, source: Point, target: Point, ghost before: seq<Event>)
    returns (movement: Reply, ghost next: nat)
    requires session.log == before + DragScript(source, target, 2)
    requires Clear(session.refuses, |before|, |before| + 2)
    modifies session`log
    ensures 2 <= next <= 11 && session.log == before + DragScript(source, target, next + 1)
    ensures Clear(session.refuses, |before|, |before| + next)
    ensures movement == if session.refuses(|before| + next) then Failed(MoveError(|before| + next, true)) else Done
    ensures movement.Done? ==> next == 11
  {
    var step := 1;
    movement, next := Done, 1;
    while step <= 10 && movement.Done?
      invariant 1 <= step <= 11 && next == step
      invariant session.log == before + DragScript(source, target, step + 1)
      invariant Clear(session.refuses, |before|, |before| + step)
      invariant movement == if session.refuses(|before| + step) then Failed(MoveError(|before| + step, true)) else Done
      invariant movement.Failed? ==> 2 <= step
      decreases 11 - step
    {
      HeldMove(source, target, step);
      NextDragEvent(before, source, target, step + 1);
      movement := MouseMove(session, Along(source, target, step), 1, true);
      step := step + 1;
      next := step;
    }
  }

  /** The rest of a drag, once the button is down. */
  method DragHeldDown(session: CdpSession, source: Point, target: Point, ghost before: seq<Event>) returns (r: Reply)
    requires session.log == before + DragScript(source, target, 2)
    requires Clear(session.refuses, |before|, |before| + 2)
    modifies session`log
    ensures Dragged(session.refuses, before, source, target, session.log, r)
  {
    var movement, step := DragMovement(session, source, target, before);
    if movement.Failed? {
      r := ReleaseAfterPrimaryFailure(session, target, movement.error);
      DragStops(session.refuses, before, source, target, step, session.log);
      return;
    }
    r := ReleaseMouse(session, target, "dispatch drag release");
    NextDragEvent(before, source, target, 12);
    if r.Failed? {
      DragStops(session.refuses, before, source, target, 12, session.log);
    } else {
      NoneRefused(session.refuses, |before|, |before| + DRAG_LENGTH);
    }
  }

  method MouseDrag(session: CdpSession, source: Point, target: Point) returns (r: Reply)
    modifies session`log
    ensures Dragged(session.refuses, old(session.log), source, target, session.log, r)
  {
    ghost var before := session.log;
    r := MouseMove(session, source, 0, true);
    NextDragEvent(before, source, target, 0);
    if r.Failed? {
      DragStops(session.refuses, before, source, target, 0, session.log);
      return;
    }
    var cause := |session.log|;
    var pressed := session.Send(Event(Pressed, source, Left, 1, Some(1)));
    NextDragEvent(before, source, target, 1);
    if !pressed {
      r := ReleaseAfterPrimaryFailure(session, source, Error("dispatch drag press", cause, Unknown, []));
      DragStops(session.refuses, before, source, target, 1, session.log);
      return;
    }
    r := DragHeldDown(session, source, target, before);
  }

  lemma HeldMove(source: Point, target: Point, step: nat)
    requires 1 <= step <= 10
    ensures DragEvent(source, target, step + 1) == Move(Along(source, target, step), 1)
  {
  }

  lemma NextDragEvent(l: seq<Event>, source: Point, target: Point, k: nat)
    ensures l + DragScript(source, target, k) + [DragEvent(source, target, k)] == l + DragScript(source, target, k + 1)
    ensures k == 0 ==> l + DragScript(source, target, k) == l
  {
    assert DragScript(source, target, k) + [DragEvent(source, target, k)] == DragScript(source, target, k + 1);
  }

  // ----- the press and release protocol -----

  /**
    The button after one more event. It must be up for a press, down for a
    release, and a move must say truly whether it is held; None if the rule is broken.
   */
  function NextHeld(down: Option<bool>, e: Event): Option<bool> {
    match down
    case None => None
    case Some(held) =>
      match e.kind
      case Pressed => if held then None else Some(true)
      case Released => if held then Some(false) else None
      case Moved => if e.button.Left? == held && (e.buttons == 1) == held then down else None
  }

  /** The button after a list of events that begins with it up. */
  function Held(events: seq<Event>): Option<bool> {
    if events == [] then Some(false) else NextHeld(Held(events[..|events| - 1]), events[|events| - 1])
  }

  lemma HeldSnoc(events: seq<Event>, e: Event)
    ensures Held(events + [e]) == NextHeld(Held(events), e)
  {
    assert (events + [e])[..|events|] == events;
  }

  lemma {:induction false} ClicksHeld(point: Point, c: nat)
    ensures Held(Clicks(point, c)) == Some(false)
  {
    if c == 0 {
      HeldSnoc([], Move(point, 0));
      assert Clicks(point, 0) == [] + [Move(point, 0)];
    } else {
      ClicksHeld(point, c - 1);
      HeldSnoc(Clicks(point, c - 1), Press(point, c));
      HeldSnoc(Clicks(point, c - 1) + [Press(point, c)], Release(point));
    }
  }

  lemma {:induction false} DragHeld(source: Point, target: Point, n: nat)
    requires 0 < n <= DRAG_LENGTH
    ensures Held(DragScript(source, target, n)) == Some(2 <= n <= 12)
  {
    var before := DragScript(source, target, n - 1);
    assert DragScript(source, target, n) == before + [DragEvent(source, target, n - 1)];
    HeldSnoc(before, DragEvent(source, target, n - 1));
    if n > 1 {
      DragHeld(source, target, n - 1);
    }
  }

  /** However a click ends, what it sent is a move and whole pairs, and the button is up. */
  lemma ClickReleases(refuses: nat -> bool, before: seq<Event>, point: Point, count: int, started: bool,
                      log: seq<Event>, r: Reply)
    requires Clicked(refuses, before, point, count, started, log, r)
    ensures before <= log && Held(log[|before|..]) == Some(false)
    ensures r.Done? <==> Clear(refuses, |before|, |before| + 1 + 2 * ClickCount(count))
  {
    var c := match FirstRefused(refuses, |before|, |before| + 1 + 2 * ClickCount(count))
             case None => ClickCount(count)
             case Some(f) => (f - |before| + 1) / 2;
    assert log[|before|..] == Clicks(point, c);
    ClicksHeld(point, c);
  }

  lemma {:induction false} DragLogHeld(source: Point, target: Point, k: nat)
    requires k < DRAG_LENGTH
    ensures Held(DragLog(source, target, k)) == Some(false)
  {
    DragHeld(source, target, k + 1);
    var sent := DragScript(source, target, k + 1);
    if k == 0 || k == 12 {
      assert DragLog(source, target, k) == sent;
    } else {
      var release := Release(if k == 1 then source else target);
      assert DragLog(source, target, k) == sent + [release];
      HeldSnoc(sent, release);
    }
  }

  /** The ten held moves of a drag end on the target itself. */
  lemma DragReachesTarget(source: Point, target: Point)
    ensures DragEvent(source, target, 11) == Move(target, 1)
  {
    assert Along(source, target, 10) == target;
  }

  lemma {:induction false} ScriptAt(source: Point, target: Point, n: nat, k: nat)
    requires k < n
    ensures DragScript(source, target, n)[k] == DragEvent(source, target, k)
  {
    if k < n - 1 {
      ScriptAt(source, target, n - 1, k);
    }
  }

  /**
    However a drag ends, its one press was released exactly once and the button
    is up; a drag that succeeds made its last held move to the target itself.
   */
  lemma DragReleases(refuses: nat -> bool, before: seq<Event>, source: Point, target: Point, log: seq<Event>, r: Reply)
    requires Dragged(refuses, before, source, target, log, r)
    ensures before <= log && Held(log[|before|..]) == Some(false)
    ensures r.Done? <==> Clear(refuses, |before|, |before| + DRAG_LENGTH)
    ensures r.Done? ==> |log| == |before| + DRAG_LENGTH && log[|before| + 11] == Move(target, 1)
  {
    match FirstRefused(refuses, |before|, |before| + DRAG_LENGTH)
    case None =>
      DragReachesTarget(source, target);
      ScriptAt(source, target, DRAG_LENGTH, 11);
      assert log[|before|..] == DragScript(source, target, DRAG_LENGTH);
      DragHeld(source, target, DRAG_LENGTH);
    case Some(f) =>
      assert log[|before|..] == DragLog(source, target, f - |before|);
      DragLogHeld(source, target, f - |before|);
  }

  // ----- the dispatches one by one -----

  lemma {:induction false} ClickEvents(point: Point, c: nat, k: nat)
    requires 1 <= k <= c
    ensures Clicks(point, c)[0] == Event(Moved, point, NoButton, 0, None)
    ensures Clicks(point, c)[2 * k - 1] == Event(Pressed, point, Left, 1, Some(k))
    ensures Clicks(point, c)[2 * k] == Event(Released, point, Left, 0, Some(1))
    decreases c
  {
    if c > 1 {
      ClickEvents(point, c - 1, if k < c then k else c - 1);
    }
  }

  /** What a click of `count` sends: a move, then for each `k` a press that counts `k` and its release. */
  lemma ClickSends(refuses: nat -> bool, before: seq<Event>, point: Point, count: int, started: bool,
                   log: seq<Event>, r: Reply, k: nat)
    requires Clicked(refuses, before, point, count, started, log, r)
    ensures before < log && log[|before|] == Event(Moved, point, NoButton, 0, None)
    ensures 1 <= k && |before| + 2 * k < |log| ==>
              && log[|before| + 2 * k - 1] == Event(Pressed, point, Left, 1, Some(k))
              && log[|before| + 2 * k] == Event(Released, point, Left, 0, Some(1))
  {
    var sent := log[|before|..];
    var c: nat := (|log| - |before| - 1) / 2;
    assert sent == Clicks(point, c) && log == before + sent;
    if 1 <= k <= c {
      ClickEvents(point, c, k);
    } else if c > 0 {
      ClickEvents(point, c, 1);
    }
  }

  /** Where a click stops, and what it answers, for the first dispatch that is refused. */
  lemma ClickStopsAt(refuses: nat -> bool, before: seq<Event>, point: Point, count: int, started: bool,
                     log: seq<Event>, r: Reply, f: nat)
    requires Clicked(refuses, before, point, count, started, log, r)
    requires |before| <= f < |before| + 1 + 2 * (if count > 0 then count else 0)
    requires refuses(f) && forall k: nat :: |before| <= k < f ==> !refuses(k)
    ensures var n := f - |before|;
            if n == 0 then
              && |log| == f + 1
              && r == Failed(Error("dispatch mouse move", f, if started then Unknown else NotStarted, []))
            else if n % 2 == 1 then
              && |log| == f + 2
              && r == Failed(Error("dispatch mouse press", f, Unknown,
                                   if refuses(f + 1) then [CleanupFailure("mouse button", f + 1)] else []))
            else
              && |log| == f + 1
              && r == Failed(Error("dispatch mouse release", f, Unknown, []))
  {
    FirstRefusedAt(refuses, |before|, f, |before| + 1 + 2 * ClickCount(count));
  }

  /** The dispatches of a drag around its held moves: to the source, down there, and up at the target. */
  lemma DragEnds(source: Point, target: Point, n: nat)
    requires n == 13
    ensures DragScript(source, target, n)[0] == Event(Moved, source, NoButton, 0, None)
    ensures DragScript(source, target, n)[1] == Event(Pressed, source, Left, 1, Some(1))
    ensures DragScript(source, target, n)[12] == Event(Released, target, Left, 0, Some(1))
  {
    ScriptAt(source, target, n, 0);
    ScriptAt(source, target, n, 1);
    ScriptAt(source, target, n, 12);
  }

  /** Its ten held moves go by tenths of the way. */
  lemma DragMoves(source: Point, target: Point, n: nat, step: nat, progress: real)
    requires n == 13 && 1 <= step <= 10 && progress == step as real / 10.0
    ensures DragScript(source, target, n)[step + 1] ==
            Event(Moved, Point(source.x + (target.x - source.x) * progress,
                               source.y + (target.y - source.y) * progress), Left, 1, None)
  {
    ScriptAt(source, target, n, step + 1);
    HeldMove(source, target, step);
    AlongIs(source, target, step, progress);
  }

  lemma AlongIs(source: Point, target: Point, step: int, progress: real)
    requires progress == step as real / 10.0
    ensures Along(source, target, step) == Point(source.x + (target.x - source.x) * progress,
                                                 source.y + (target.y - source.y) * progress)
  {
    assert Along(source, target, step) == Between(source, target, progress);
    BetweenIs(source, target, progress, target.x - source.x, target.y - source.y);
  }

  lemma BetweenIs(source: Point, target: Point, progress: real, dx: real, dy: real)
    requires dx == target.x - source.x && dy == target.y - source.y
    ensures Between(source, target, progress) == Point(source.x + dx * progress, source.y + dy * progress)
  {
  }

  lemma {:induction false} ScriptPrefix(source: Point, target: Point, n: nat, m: nat)
    requires n <= m
    ensures DragScript(source, target, n) == DragScript(source, target, m)[..n]
    decreases m - n
  {
    if n < m {
      ScriptPrefix(source, target, n, m - 1);
    }
  }

  /** Where a drag stops, and what it answers, for the first dispatch that is refused. */
  lemma DragStopsAt(refuses: nat -> bool, before: seq<Event>, source: Point, target: Point,
                    log: seq<Event>, r: Reply, f: nat)
    requires Dragged(refuses, before, source, target, log, r)
    requires |before| <= f < |before| + 13
    requires refuses(f) && forall k: nat :: |before| <= k < f ==> !refuses(k)
    ensures var n := f - |before|;
            var cleanup := if refuses(f + 1) then [CleanupFailure("mouse button", f + 1)] else [];
            var sent := before + DragScript(source, target, 13)[..n + 1];
            if n == 0 then
              log == sent && r == Failed(Error("dispatch mouse move", f, Unknown, []))
            else if n == 1 then
              && log == sent + [Event(Released, source, Left, 0, Some(1))]
              && r == Failed(Error("dispatch drag press", f, Unknown, cleanup))
            else if n < 12 then
              && log == sent + [Event(Released, target, Left, 0, Some(1))]
              && r == Failed(Error("dispatch mouse move", f, Unknown, cleanup))
            else
              log == sent && r == Failed(Error("dispatch drag release", f, Unknown, []))
  {
    FirstRefusedAt(refuses, |before|, f, |before| + DRAG_LENGTH);
    ScriptPrefix(source, target, f - |before| + 1, 13);
  }
}
