/**
  The background tasks that follow a tab's console and its dialogs. Each has a
  cancellation token under its session and target; a removed token must be a
  cancelled one, or its task would run on with nobody to stop it.
 */
module Subscriptions {
  /** A session and a target. */
  type Key = (string, string)

  type Token = nat

  datatype Policy = Manual | Accept | Dismiss

  datatype Dialog = Dialog(kind: string, message: string)

  /** The registered tokens, and those cancelled so far. */
  datatype Tasks = Tasks(tokens: map<Key, Token>, cancelled: set<Token>)

  function CancelKey(t: Tasks, key: Key): Tasks {
    if key in t.tokens then Tasks(t.tokens - {key}, t.cancelled + {t.tokens[key]}) else t
  }

  /** A new task under the key; the one there was is cancelled. */
  function Track(t: Tasks, key: Key, token: Token): Tasks {
    var free := CancelKey(t, key);
    free.(tokens := free.tokens[key := token])
  }

  /** The keys of a session's tasks. */
  function KeysOf(t: Tasks, session: string): set<Key> {
    set key | key in t.tokens && key.0 == session
  }

  /** All tasks of a session are removed and cancelled. */
  function CancelSession(t: Tasks, session: string): Tasks {
    Tasks(t.tokens - KeysOf(t, session), t.cancelled + set key | key in KeysOf(t, session) :: t.tokens[key])
  }

  datatype Dialogs = Dialogs(pending: map<Key, Dialog>, policies: map<string, Policy>, tasks: Tasks)

  function CancelDialog(d: Dialogs, key: Key): Dialogs {
    d.(tasks := CancelKey(d.tasks, key), pending := d.pending - {key})
  }

  /** Pending dialogs go only with a token; one whose task is gone already stays. */
  function CancelDialogs(d: Dialogs, session: string): Dialogs {
    Dialogs(d.pending - KeysOf(d.tasks, session), d.policies - {session}, CancelSession(d.tasks, session))
  }

  /** A dialog is recorded for its tab, whether or not a task follows the tab. */
  function SetDialog(d: Dialogs, key: Key, dialog: Dialog): Dialogs {
    d.(pending := d.pending[key := dialog])
  }

  class TaskRegistry {
    var tokens: map<Key, Token>
    var cancelled: set<Token>

    ghost function View(): Tasks
      reads this
    {
      Tasks(tokens, cancelled)
    }

    constructor ()
      ensures View() == Tasks(map[], {})
    {
      tokens, cancelled := map[], {};
    }

    method Cancel(key: Key)
      modifies this
      ensures View() == CancelKey(old(View()), key)
    {
      if key in tokens {
        var token := tokens[key];
        tokens := tokens - {key};
        cancelled := cancelled + {token};
      }
    }

    /** Collects the session's keys and cancels them one by one. */
    method CancelAll(session: string) returns (keys: set<Key>)
      modifies this
      ensures keys == KeysOf(old(View()), session)
      ensures View() == CancelSession(old(View()), session)
    {
      keys := set key | key in tokens && key.0 == session;
      var left := keys;
      while left != {}
        invariant left <= keys
        invariant tokens == old(tokens) - (keys - left)
        invariant cancelled == old(cancelled) + set key | key in keys - left :: old(tokens)[key]
      {
        var key :| key in left;
        ghost var before := keys - left;
        Cancel(key);
        left := left - {key};
        assert keys - left == before + {key};
      }
      assert keys - left == keys;
    }
  }

  class DialogState {
    const tasks: TaskRegistry
    var pending: map<Key, Dialog>
    var policies: map<string, Policy>

    ghost function View(): Dialogs
      reads this, tasks
    {
      Dialogs(pending, policies, tasks.View())
    }

    constructor ()
      ensures View() == Dialogs(map[], map[], Tasks(map[], {})) && fresh(tasks)
    {
      tasks := new TaskRegistry();
      pending, policies := map[], map[];
    }

    /** Ends the task of one tab, and forgets its pending dialog. */
    method CancelSubscription(session: string, targetId: string)
      modifies this`pending, tasks
      ensures View() == CancelDialog(old(View()), (session, targetId))
    {
      tasks.Cancel((session, targetId));
      pending := pending - {(session, targetId)};
    }

    method SetPending(session: string, targetId: string, dialog: Dialog)
      modifies this`pending
      ensures View() == SetDialog(old(View()), (session, targetId), dialog)
    {
      pending := pending[(session, targetId) := dialog];
    }

    method CancelAllForSession(session: string)
      modifies this, tasks
      ensures View() == CancelDialogs(old(View()), session)
    {
      var keys := tasks.CancelAll(session);
      pending := pending - keys;
      policies := policies - {session};
    }
  }

  // ----- what cancelling keeps -----

  /** Nothing of the session is registered any more, what was registered is cancelled, and the rest is as it was. */
  lemma SessionCancelled(t: Tasks, session: string)
    ensures var after := CancelSession(t, session);
            && (forall key :: key in after.tokens ==> key.0 != session)
            && (forall key :: key in t.tokens && key.0 == session ==> t.tokens[key] in after.cancelled)
            && forall key: Key :: key.0 != session ==>
                 && (key in after.tokens <==> key in t.tokens)
                 && (key in t.tokens ==> after.tokens[key] == t.tokens[key])
  {
    forall key | key in t.tokens && key.0 == session ensures t.tokens[key] in CancelSession(t, session).cancelled {
      assert key in KeysOf(t, session);
    }
  }

  /** No token is dropped without being cancelled. */
  ghost predicate NoneLeaks(before: Tasks, after: Tasks) {
    forall key :: key in before.tokens ==>
      (key in after.tokens && after.tokens[key] == before.tokens[key]) || before.tokens[key] in after.cancelled
  }

  lemma CancelSessionLeaksNone(t: Tasks, session: string)
    ensures NoneLeaks(t, CancelSession(t, session))
  {
    SessionCancelled(t, session);
  }

  /**
    `cancel_all_for_session` forgets every pending dialog of the session exactly
    when each of them still has a task.
   */
  lemma PendingForgotten(d: Dialogs, session: string)
    ensures (forall key :: key in CancelDialogs(d, session).pending ==> key.0 != session)
            <==> forall key :: key in d.pending && key.0 == session ==> key in d.tasks.tokens
  {
    var after := CancelDialogs(d, session).pending;
    assert forall key :: key in after <==> key in d.pending && key !in KeysOf(d.tasks, session);
    if forall key :: key in after ==> key.0 != session {
      forall key | key in d.pending && key.0 == session ensures key in d.tasks.tokens {
        assert key !in after;
      }
    }
  }

  /**
    A task that was cancelled while it answered a dialog records the dialog when
    the answer fails. The end of the session then leaves the dialog pending.
   */
  lemma LateDialogStays(d: Dialogs, key: Key, dialog: Dialog)
    ensures var late := SetDialog(CancelDialog(d, key), key, dialog);
            key in CancelDialogs(late, key.0).pending && CancelDialogs(late, key.0).pending[key] == dialog
  {
    var late := SetDialog(CancelDialog(d, key), key, dialog);
    assert key !in late.tasks.tokens;
    assert key !in KeysOf(late.tasks, key.0);
  }

  /** One tab with one task, answering one dialog: the dialog outlives the task and the session. */
  lemma LateDialogOfOneTab()
    ensures var key: Key := ("default", "T1");
            var open := Dialogs(map[], map["default" := Accept], Tasks(map[key := 1], {}));
            var late := SetDialog(CancelDialog(open, key), key, Dialog("alert", "message"));
            var ended := CancelDialogs(late, "default");
            ended.pending == map[key := Dialog("alert", "message")] && ended.tasks == Tasks(map[], {1})
  {
    var key: Key := ("default", "T1");
    var open := Dialogs(map[], map["default" := Accept], Tasks(map[key := 1], {}));
    var late := SetDialog(CancelDialog(open, key), key, Dialog("alert", "message"));
    LateDialogStays(open, key, Dialog("alert", "message"));
    assert late.tasks.tokens == map[] && late.tasks.cancelled == {1};
    assert KeysOf(late.tasks, "default") == {};
    assert CancelDialogs(late, "default").tasks.tokens == map[];
    assert CancelDialogs(late, "default").tasks.cancelled == {1};
  }

  /** What the end of a session leaves, key by key: none of its tasks, its policy gone, and all else as it was. */
  lemma SessionEnds(d: Dialogs, session: string)
    ensures var after := CancelDialogs(d, session);
            && session !in after.policies
            && (forall s :: s != session ==> (s in after.policies <==> s in d.policies))
            && (forall s :: s in after.policies ==> after.policies[s] == d.policies[s])
            && (forall key :: key in after.tasks.tokens <==> key in d.tasks.tokens && key.0 != session)
            && (forall key :: key in after.tasks.tokens ==> after.tasks.tokens[key] == d.tasks.tokens[key])
            && (forall key :: key in after.pending <==>
                  key in d.pending && !(key.0 == session && key in d.tasks.tokens))
            && (forall key :: key in after.pending ==> after.pending[key] == d.pending[key])
            && (forall t :: t in after.tasks.cancelled <==>
                  || t in d.tasks.cancelled
                  || exists key :: key in d.tasks.tokens && key.0 == session && d.tasks.tokens[key] == t)
  {
    var keys := KeysOf(d.tasks, session);
    forall t ensures t in CancelDialogs(d, session).tasks.cancelled <==>
                       || t in d.tasks.cancelled
                       || exists key :: key in d.tasks.tokens && key.0 == session && d.tasks.tokens[key] == t
    {
      if key :| key in d.tasks.tokens && key.0 == session && d.tasks.tokens[key] == t {
        assert key in keys;
      }
    }
  }

  /** The end of a tab's task: its token is cancelled and goes, its pending dialog goes, and nothing else changes. */
  lemma TabEnds(d: Dialogs, key: Key)
    ensures var after := CancelDialog(d, key);
            && after.pending == d.pending - {key} && after.policies == d.policies
            && after.tasks.tokens == d.tasks.tokens - {key}
            && after.tasks.cancelled
               == d.tasks.cancelled + (if key in d.tasks.tokens then {d.tasks.tokens[key]} else {})
  {
  }
}
