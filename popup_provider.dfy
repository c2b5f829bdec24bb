/** The popup host of `hooks/PopupProvider.tsx`: at most one active popup,
    a flag saying whether a press on the backdrop dismisses it, and a stored
    one-shot callback that `dismiss` clears before invoking. */
module PopupProvider {
  import opened Wrappers
  import opened React
  import opened JsSet

  /** Where a mouse press lands while a popup is rendered. */
  datatype PressTarget = Backdrop | Content

  class PopupHost {
    /** The `popup` state. */
    var popup: Option<Node>
    /** The `bgDismiss` state. */
    var bgDismiss: bool
    /** `onDismissRef.current`. */
    var onDismissRef: Option<Callback>
    /** The callbacks invoked so far, oldest first: the host's effect on the
        outside world. */
    var invoked: seq<Callback>

    /** The number of `show` calls so far. */
    ghost var shows: nat
    /** For each invoked callback, the `show` call that stored it. */
    ghost var invokedFor: seq<nat>

    /** No popup means the default policy and no callback; a stored callback
        belongs to the latest `show` and has not run yet; and no `show` has
        had its callback run twice. */
    ghost predicate Valid()
      reads this
    {
      && (popup.None? ==> bgDismiss && onDismissRef.None?)
      && |invokedFor| == |invoked|
      && Distinct(invokedFor)
      && (forall k :: 0 <= k < |invokedFor| ==> 1 <= invokedFor[k] <= shows)
      && (onDismissRef.Some? ==> 1 <= shows && shows !in invokedFor)
    }

    constructor ()
      ensures Valid()
      ensures popup.None? && bgDismiss && onDismissRef.None? && invoked == []
    {
      popup := None;
      bgDismiss := true;
      onDismissRef := None;
      invoked := [];
      shows := 0;
      invokedFor := [];
    }

    /** `show(node, backgroundDismiss = true, onDismiss?)`: replaces whatever
        is active, without invoking the previous callback. */
    method Show(node: Node, backgroundDismiss: bool := true, onDismiss: Option<Callback> := None)
      requires Valid()
      modifies this
      ensures Valid()
      ensures popup == Some(node) && bgDismiss == backgroundDismiss && onDismissRef == onDismiss
      ensures invoked == old(invoked)
      ensures shows == old(shows) + 1
    {
      popup := Some(node);
      bgDismiss := backgroundDismiss;
      onDismissRef := onDismiss;
      shows := shows + 1;
    }

    /** `dismiss()`: resets the state, clears the stored callback and only
        then invokes it, so it runs at most once. */
    method Dismiss() returns (called: Option<Callback>)
      requires Valid()
      modifies this
      ensures Valid()
      ensures popup.None? && bgDismiss && onDismissRef.None?
      ensures called == old(onDismissRef)
      ensures invoked == old(invoked) + (if called.Some? then [called.value] else [])
      ensures shows == old(shows)
    {
      popup := None;
      bgDismiss := true;
      var callback := onDismissRef;
      onDismissRef := None;
      if callback.Some? {
        invoked := invoked + [callback.value];
        invokedFor := invokedFor + [shows];
      }
      called := callback;
    }

    /** A mouse press. The backdrop exists only while a popup is active; a
        press on it dismisses only when `bgDismiss` allows; a press on the
        content stops propagating and never reaches the backdrop. */
    method MouseDown(target: PressTarget) returns (called: Option<Callback>)
      requires Valid()
      modifies this
      ensures Valid()
      ensures old(popup).Some? && target == Backdrop && old(bgDismiss) ==>
                popup.None? && bgDismiss && onDismissRef.None? && called == old(onDismissRef) &&
                invoked == old(invoked) + (if called.Some? then [called.value] else [])
      ensures !(old(popup).Some? && target == Backdrop && old(bgDismiss)) ==>
                called.None? && popup == old(popup) && bgDismiss == old(bgDismiss) &&
                onDismissRef == old(onDismissRef) && invoked == old(invoked)
    {
      called := None;
      if popup.Some? && target == Backdrop && bgDismiss {
        called := Dismiss();
      }
    }
  }

  /** A backdrop press with the callback stored runs it; a second `dismiss`
      calls nothing. */
  method BackdropScenario(content: Node, cb: Callback)
  {
    var host := new PopupHost();
    host.Show(content, true, Some(cb));
    var first := host.MouseDown(Backdrop);
    assert first == Some(cb) && host.popup.None? && host.invoked == [cb];
    var second := host.Dismiss();
    assert second.None? && host.invoked == [cb];
  }

  /** A popup shown without background dismissal survives backdrop presses;
      replacing a popup drops the earlier callback uncalled. */
  method NoBackgroundDismissScenario(a: Node, b: Node, cbA: Callback, cbB: Callback)
  {
    var host := new PopupHost();
    host.Show(a, true, Some(cbA));
    host.Show(b, false, Some(cbB));
    var pressed := host.MouseDown(Backdrop);
    assert pressed.None? && host.popup == Some(b);
    var called := host.Dismiss();
    assert called == Some(cbB) && host.invoked == [cbB];
  }
}
