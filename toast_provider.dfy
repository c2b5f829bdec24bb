/** The toast queue of `hooks/ToastProvider.tsx`. The provider owns a list of
    toasts, newest first. Dismissal has two phases: the toast is first marked
    `isDeleting` (its exit animation starts) and a 300 ms timer is scheduled
    that later filters every toast with that id out of the list. Each
    rendered toast without `meta.userDismissed` also runs a 3000 ms timer that
    starts this dismissal. Timers are modelled as explicit "timer fires"
    methods; the random toast ids are supplied by the caller. */
module ToastProvider {
  import opened Wrappers
  import opened React
  import opened ToastContext

  /** Length of the exit animation between marking and removal. */
  const EXIT_ANIM_MS: nat := 300
  /** Delay after which a rendered toast dismisses itself. */
  const AUTO_DISMISS_MS: nat := 3000
  /** Duration given to the progress bar of a toast with `showProgress`. */
  const PROGRESS_BAR_SECONDS: nat := 3

  /** One toast of the marking phase: marked when it carries the id. */
  function MarkIfId(t: Toast, id: string): Toast {
    if t.id == id then t.(isDeleting := true) else t
  }

  /** The marking phase: the toasts with id `id` get `isDeleting = true`. */
  function MarkDeleting(toasts: seq<Toast>, id: string): (r: seq<Toast>)
    ensures |r| == |toasts|
    ensures forall i :: 0 <= i < |r| ==> r[i].id == toasts[i].id && r[i].Kind() == toasts[i].Kind()
    ensures forall i :: 0 <= i < |r| ==> r[i].isDeleting == (toasts[i].isDeleting || toasts[i].id == id)
    ensures forall i :: 0 <= i < |r| ==> r[i].(isDeleting := toasts[i].isDeleting) == toasts[i]
    ensures forall i :: 0 <= i < |r| && toasts[i].id != id ==> r[i] == toasts[i]
  {
    seq(|toasts|, i requires 0 <= i < |toasts| => MarkIfId(toasts[i], id))
  }

  /** The removal phase: every toast with id `id` leaves the list. */
  function RemoveId(toasts: seq<Toast>, id: string): (r: seq<Toast>)
    ensures forall t :: t in r <==> t in toasts && t.id != id
    ensures |r| <= |toasts|
  {
    if |toasts| == 0 then []
    else if toasts[0].id == id then RemoveId(toasts[1..], id)
    else [toasts[0]] + RemoveId(toasts[1..], id)
  }

  /** What removal leaves of the first toast of a list. */
  function KeptHead(t: Toast, id: string): seq<Toast> {
    if t.id == id then [] else [t]
  }

  lemma RemoveIdCons(t: Toast, rest: seq<Toast>, id: string)
    ensures RemoveId([t] + rest, id) == KeptHead(t, id) + RemoveId(rest, id)
  {
    assert ([t] + rest)[0] == t && ([t] + rest)[1..] == rest;
  }

  /** Removal works piece by piece: it keeps the relative order of the toasts
      that stay. */
  lemma {:induction false} RemoveIdDistributes(a: seq<Toast>, b: seq<Toast>, id: string)
    ensures RemoveId(a + b, id) == RemoveId(a, id) + RemoveId(b, id)
  {
    if |a| > 0 {
      var h := KeptHead(a[0], id);
      assert a == [a[0]] + a[1..];
      assert a + b == [a[0]] + (a[1..] + b);
      RemoveIdCons(a[0], a[1..] + b, id);
      RemoveIdCons(a[0], a[1..], id);
      RemoveIdDistributes(a[1..], b, id);
      assert h + (RemoveId(a[1..], id) + RemoveId(b, id)) == (h + RemoveId(a[1..], id)) + RemoveId(b, id);
    } else {
      assert a + b == b;
    }
  }

  /** Removing an id nobody carries changes nothing. */
  lemma {:induction false} RemoveIdAbsent(toasts: seq<Toast>, id: string)
    requires forall i :: 0 <= i < |toasts| ==> toasts[i].id != id
    ensures RemoveId(toasts, id) == toasts
  {
    if |toasts| > 0 {
      RemoveIdAbsent(toasts[1..], id);
    }
  }

  /** A second removal of the same id is harmless. */
  lemma RemoveIdIdempotent(toasts: seq<Toast>, id: string)
    ensures RemoveId(RemoveId(toasts, id), id) == RemoveId(toasts, id)
  {
    var r := RemoveId(toasts, id);
    forall i | 0 <= i < |r| ensures r[i].id != id {
      assert r[i] in r;
    }
    RemoveIdAbsent(r, id);
  }

  /** Marking twice is marking once. */
  lemma MarkDeletingIdempotent(toasts: seq<Toast>, id: string)
    ensures MarkDeleting(MarkDeleting(toasts, id), id) == MarkDeleting(toasts, id)
  {
    var m := MarkDeleting(toasts, id);
    var mm := MarkDeleting(m, id);
    forall i | 0 <= i < |m| ensures mm[i] == m[i] {
      assert mm[i].(isDeleting := m[i].isDeleting) == m[i];
    }
  }

  /** The delay of the auto-dismiss timer a rendered toast starts, if any. */
  function AutoDismissDelay(t: Toast): (d: Option<nat>)
    ensures d.Some? <==> !UserDismissed(t)
    ensures d.Some? ==> d.value == AUTO_DISMISS_MS
  {
    if UserDismissed(t) then None else Some(AUTO_DISMISS_MS)
  }

  /** The duration of the progress bar a rendered toast shows, if any. */
  function ProgressBarSeconds(t: Toast): (s: Option<nat>)
    ensures s.Some? <==> ShowsProgress(t)
    ensures s.Some? ==> s.value * 1000 == AUTO_DISMISS_MS
  {
    if ShowsProgress(t) then Some(PROGRESS_BAR_SECONDS) else None
  }

  /** Where a click on a rendered toast lands. */
  datatype ClickTarget = ToastBody | CloseButton | ActionButton(index: nat)

  /** A handler that a click runs. */
  datatype Handler = RunDismiss | RunAction(callback: Callback)

  /** The handlers one click runs, innermost first. The outer element of every
      toast dismisses it; the close button of a message toast dismisses it as
      well before the click bubbles up, and an action button runs its action.
      The close button of an announcement has no handler of its own. */
  function ClickHandlers(t: Toast, target: ClickTarget): (hs: seq<Handler>)
    ensures |hs| > 0 && hs[|hs| - 1] == RunDismiss
    ensures target == ToastBody ==> hs == [RunDismiss]
    ensures target == CloseButton ==>
              (|hs| == 2 <==> t.MessageToast?) && |hs| <= 2 && forall j :: 0 <= j < |hs| ==> hs[j] == RunDismiss
    ensures target.ActionButton? ==>
              |hs| <= 2 &&
              (|hs| == 2 <==> t.MessageToast? && t.actions.Some? && target.index < |t.actions.value|)
    ensures target.ActionButton? && |hs| == 2 ==>
              t.MessageToast? && t.actions.Some? && target.index < |t.actions.value| &&
              hs[0] == RunAction(t.actions.value[target.index].onClick)
  {
    match target
    case ToastBody => [RunDismiss]
    case CloseButton => if t.MessageToast? then [RunDismiss, RunDismiss] else [RunDismiss]
    case ActionButton(k) =>
      if t.MessageToast? && t.actions.Some? && k < |t.actions.value|
      then [RunAction(t.actions.value[k].onClick), RunDismiss]
      else [RunDismiss]
  }

  function CountDismissals(hs: seq<Handler>): nat {
    if |hs| == 0 then 0 else (if hs[0] == RunDismiss then 1 else 0) + CountDismissals(hs[1..])
  }

  function ActionsRun(hs: seq<Handler>): seq<Callback> {
    if |hs| == 0 then [] else (if hs[0].RunAction? then [hs[0].callback] else []) + ActionsRun(hs[1..])
  }

  function Repeat(id: string, k: nat): (r: seq<string>)
    ensures |r| == k && forall i :: 0 <= i < k ==> r[i] == id
  {
    if k == 0 then [] else [id] + Repeat(id, k - 1)
  }

  /** The message toast that `success` / `error` / `info` build. */
  function MessageOf(id: string, text: string, style: ToastStyle): (t: Toast)
    ensures t.Kind() == MessageKind && t.id == id && t.text == text && t.style == style
    ensures !t.isDeleting && t.meta.None? && t.actions.None?
  {
    MessageToast(id, None, false, text, style, None)
  }

  predicate HasAutoDismissTimer(toasts: seq<Toast>, id: string) {
    exists i :: 0 <= i < |toasts| && toasts[i].id == id && !UserDismissed(toasts[i])
  }

  class ToastQueue {
    /** The `toasts` state, newest first. */
    var toasts: seq<Toast>
    /** The ids whose 300 ms removal timer is scheduled, oldest first; one
        entry per dismissal, so an id may appear more than once. */
    var pendingRemovals: seq<string>

    /** Every listed toast whose removal is scheduled has been marked. Push
        keeps it only for an id that is not awaiting removal. */
    ghost predicate MarkedBeforeRemoval()
      reads this
    {
      forall i :: 0 <= i < |toasts| && toasts[i].id in pendingRemovals ==> toasts[i].isDeleting
    }

    constructor ()
      ensures toasts == [] && pendingRemovals == []
      ensures MarkedBeforeRemoval()
    {
      toasts := [];
      pendingRemovals := [];
    }

    /** `push`: the new toast goes in front; nothing is deduplicated. */
    method Push(t: Toast)
      modifies this
      ensures toasts == [t] + old(toasts) && pendingRemovals == old(pendingRemovals)
      ensures old(MarkedBeforeRemoval()) && (t.id !in pendingRemovals || t.isDeleting) ==> MarkedBeforeRemoval()
    {
      toasts := [t] + toasts;
    }

    /** `clear`: empties the list at once, without exit animation. Removal
        timers already scheduled stay scheduled. */
    method Clear()
      modifies this
      ensures toasts == [] && pendingRemovals == old(pendingRemovals)
      ensures MarkedBeforeRemoval()
    {
      toasts := [];
    }

    /** `handleDeleteToast`: marks the toasts with this id and schedules their removal. */
    method Dismiss(id: string)
      modifies this
      ensures toasts == MarkDeleting(old(toasts), id)
      ensures pendingRemovals == old(pendingRemovals) + [id]
      ensures old(MarkedBeforeRemoval()) ==> MarkedBeforeRemoval()
    {
      toasts := MarkDeleting(toasts, id);
      pendingRemovals := pendingRemovals + [id];
    }

    /** The oldest scheduled removal timer fires and filters its id out; with
        no timer scheduled nothing happens. Under the invariant every toast
        it removes had been marked. */
    method RemovalTimerFires() returns (fired: Option<string>)
      modifies this
      ensures old(pendingRemovals) == [] ==> fired.None? && toasts == old(toasts) && pendingRemovals == []
      ensures old(pendingRemovals) != [] ==>
                fired == Some(old(pendingRemovals)[0]) &&
                toasts == RemoveId(old(toasts), fired.value) &&
                pendingRemovals == old(pendingRemovals)[1..]
      ensures old(MarkedBeforeRemoval()) && fired.Some? ==>
                forall i :: 0 <= i < |old(toasts)| && old(toasts)[i].id == fired.value ==> old(toasts)[i].isDeleting
      ensures old(MarkedBeforeRemoval()) ==> MarkedBeforeRemoval()
    {
      if pendingRemovals == [] {
        fired := None;
      } else {
        var id := pendingRemovals[0];
        fired := Some(id);
        ghost var before := toasts;
        ghost var pendingBefore := pendingRemovals;
        toasts := RemoveId(toasts, id);
        pendingRemovals := pendingRemovals[1..];
        forall i | 0 <= i < |toasts| && toasts[i].id in pendingRemovals
          ensures toasts[i].isDeleting || !old(MarkedBeforeRemoval())
        {
          assert toasts[i] in before;
          var j :| 0 <= j < |before| && before[j] == toasts[i];
          assert before[j].id in pendingBefore;
        }
      }
    }

    /** `success`, `error` and `info` (and the `warning` style, which has no
        helper of its own) push a fresh message toast; `id` stands for the
        random string the source draws. */
    method PushMessage(id: string, text: string, style: ToastStyle)
      modifies this
      ensures toasts == [MessageOf(id, text, style)] + old(toasts)
      ensures pendingRemovals == old(pendingRemovals)
      ensures old(MarkedBeforeRemoval()) && id !in pendingRemovals ==> MarkedBeforeRemoval()
    {
      Push(MessageOf(id, text, style));
    }

    method Success(id: string, text: string)
      modifies this
      ensures toasts == [MessageOf(id, text, ToastStyle.Success)] + old(toasts)
      ensures pendingRemovals == old(pendingRemovals)
    {
      PushMessage(id, text, ToastStyle.Success);
    }

    method Error(id: string, text: string)
      modifies this
      ensures toasts == [MessageOf(id, text, ToastStyle.Error)] + old(toasts)
      ensures pendingRemovals == old(pendingRemovals)
    {
      PushMessage(id, text, ToastStyle.Error);
    }

    method Info(id: string, text: string)
      modifies this
      ensures toasts == [MessageOf(id, text, ToastStyle.Info)] + old(toasts)
      ensures pendingRemovals == old(pendingRemovals)
    {
      PushMessage(id, text, ToastStyle.Info);
    }

    /** The 3000 ms timer of the rendered toast with this id fires. Such a
        timer exists only while a toast with the id is listed without
        `userDismissed` (unmounting clears it); otherwise nothing happens. */
    method AutoDismissTimerFires(id: string)
      modifies this
      ensures HasAutoDismissTimer(old(toasts), id) ==>
                toasts == MarkDeleting(old(toasts), id) && pendingRemovals == old(pendingRemovals) + [id]
      ensures !HasAutoDismissTimer(old(toasts), id) ==>
                toasts == old(toasts) && pendingRemovals == old(pendingRemovals)
      ensures old(MarkedBeforeRemoval()) ==> MarkedBeforeRemoval()
    {
      if HasAutoDismissTimer(toasts, id) {
        Dismiss(id);
      }
    }

    /** A click on the rendered toast at position `i`: its handlers run in
        order, every dismissal handler dismissing that toast's id. */
    method Click(i: nat, target: ClickTarget) returns (actions: seq<Callback>)
      requires i < |toasts|
      modifies this
      ensures toasts == MarkDeleting(old(toasts), old(toasts)[i].id)
      ensures pendingRemovals ==
                old(pendingRemovals) + Repeat(old(toasts)[i].id, CountDismissals(ClickHandlers(old(toasts)[i], target)))
      ensures actions == ActionsRun(ClickHandlers(old(toasts)[i], target))
      ensures old(MarkedBeforeRemoval()) ==> MarkedBeforeRemoval()
    {
      var id := toasts[i].id;
      var hs := ClickHandlers(toasts[i], target);
      assert Repeat(id, 1) == [id] && Repeat(id, 2) == [id, id];
      if hs == [RunDismiss, RunDismiss] {
        assert CountDismissals(hs) == 2 by {
          assert hs[1..] == [RunDismiss] && [RunDismiss][1..] == [];
          assert CountDismissals([RunDismiss]) == 1;
        }
        assert ActionsRun(hs) == [] by {
          assert hs[1..] == [RunDismiss] && [RunDismiss][1..] == [];
          assert ActionsRun([RunDismiss]) == [];
        }
        actions := [];
        Dismiss(id);
        MarkDeletingIdempotent(old(toasts), id);
        Dismiss(id);
      } else if |hs| == 2 {
        assert hs[0].RunAction? && hs[1] == RunDismiss;
        assert CountDismissals(hs) == 1 && ActionsRun(hs) == [hs[0].callback] by {
          assert hs[1..] == [RunDismiss] && [RunDismiss][1..] == [];
          assert CountDismissals([RunDismiss]) == 1 && ActionsRun([RunDismiss]) == [];
        }
        actions := [hs[0].callback];
        Dismiss(id);
      } else {
        assert hs == [RunDismiss];
        assert CountDismissals(hs) == 1 && ActionsRun(hs) == [] by { assert hs[1..] == []; }
        actions := [];
        Dismiss(id);
      }
    }
  }

  lemma {:induction false} CountAppend(a: seq<Handler>, b: seq<Handler>)
    ensures CountDismissals(a + b) == CountDismissals(a) + CountDismissals(b)
  {
    if |a| > 0 {
      assert (a + b)[1..] == a[1..] + b;
      CountAppend(a[1..], b);
    } else {
      assert a + b == b;
    }
  }

  lemma LastDismissCounts(hs: seq<Handler>)
    requires |hs| > 0 && hs[|hs| - 1] == RunDismiss
    ensures CountDismissals(hs) > 0
  {
    assert hs == hs[..|hs| - 1] + [hs[|hs| - 1]];
    CountAppend(hs[..|hs| - 1], [hs[|hs| - 1]]);
  }

  /** Any click on a toast dismisses it, whether or not it dismisses itself
      on a timer. */
  lemma ClickAlwaysDismisses(t: Toast, target: ClickTarget)
    ensures CountDismissals(ClickHandlers(t, target)) >= 1
  {
    LastDismissCounts(ClickHandlers(t, target));
  }

  /** The toast context is `null` outside a provider: calls through an absent
      handle do nothing. */
  method PushVia(handle: ToastQueue?, t: Toast)
    modifies handle
    ensures handle != null ==> handle.toasts == [t] + old(handle.toasts) &&
                               handle.pendingRemovals == old(handle.pendingRemovals)
  {
    if handle != null {
      handle.Push(t);
    }
  }

  /** An auto-dismissed toast is marked at the 3000 ms timer and gone after
      the 300 ms removal timer. */
  method AutoDismissScenario()
  {
    var q := new ToastQueue();
    var entry := MessageToast("1", None, false, "Saved", ToastStyle.Success, None);
    q.Push(entry);
    assert q.toasts == [entry];
    q.AutoDismissTimerFires("1");
    assert q.toasts[0].isDeleting;
    var fired := q.RemovalTimerFires();
    assert q.toasts == [];
  }
}
