/** The gallery page of `routes/gallery/index.tsx`: the selection of photos
    (a `Set` of frame ids, copied and changed on every update), the
    confirmation dialogs and their messages, and the long-press gate of a
    grid item. The backend mutations are represented by their outcome. */
module Gallery {
  import opened Wrappers
  import opened JsNumber
  import opened JsSet

  // ------------------------------------------------------------- messages

  /** `N photo` or `N photos`: plural exactly when the count exceeds one. */
  function PhotoCount(count: nat): string {
    NatToString(count) + " photo" + (if count > 1 then "s" else "")
  }

  /** The count can be read back from the phrase, and the noun is plural
      exactly when the count is above one. */
  lemma {:induction false} PhotoCountShape(count: nat)
    ensures var p := PhotoCount(count);
            var digits := |NatToString(count)|;
            && |p| == digits + (if count > 1 then 7 else 6)
            && ParseNat(p[..digits]) == Some(count)
            && p[digits..digits + 6] == " photo"
            && ((p[|p| - 1] == 's') <==> count > 1)
  {
    var p := PhotoCount(count);
    var d := NatToString(count);
    assert p[..|d|] == d;
    assert p[|d|..|d| + 6] == " photo";
    ParseNatOfNatToString(count);
  }

  const BATCH_DELETE_PREFIX: string := "Are you sure you want to delete "
  const UPLOAD_PREFIX: string := "Do you want to upload "

  /** A message made of a prefix, the photo count and a question mark
      names the count right after the prefix and says "photos" exactly
      when the count is above one. */
  lemma {:induction false} CountMessageShape(prefix: string, count: nat)
    ensures var m := prefix + PhotoCount(count) + "?";
            var digits := |NatToString(count)|;
            && prefix <= m
            && ParseNat(m[|prefix|..|prefix| + digits]) == Some(count)
            && ((m[|m| - 2..] == "s?") <==> count > 1)
  {
    PhotoCountShape(count);
    var p := PhotoCount(count);
    var digits := |NatToString(count)|;
    var m := prefix + p + "?";
    assert m[|prefix|..|prefix| + digits] == p[..digits];
    assert m[|m| - 2..] == [p[|p| - 1], '?'];
  }

  /** The message of the batch-delete dialog: it starts with the question,
      names the number of photos right after it, and ends in "photos?"
      exactly when more than one is selected. */
  function BatchDeleteMessage(count: nat): (m: string)
    ensures BATCH_DELETE_PREFIX <= m
    ensures |m| >= |BATCH_DELETE_PREFIX| + |NatToString(count)| + 2
    ensures ParseNat(m[|BATCH_DELETE_PREFIX|..|BATCH_DELETE_PREFIX| + |NatToString(count)|]) == Some(count)
    ensures (m[|m| - 2..] == "s?") <==> count > 1
  {
    CountMessageShape(BATCH_DELETE_PREFIX, count);
    BATCH_DELETE_PREFIX + PhotoCount(count) + "?"
  }

  /** The message of the upload dialog, of the same shape. */
  function UploadMessage(count: nat): (m: string)
    ensures UPLOAD_PREFIX <= m
    ensures |m| >= |UPLOAD_PREFIX| + |NatToString(count)| + 2
    ensures ParseNat(m[|UPLOAD_PREFIX|..|UPLOAD_PREFIX| + |NatToString(count)|]) == Some(count)
    ensures (m[|m| - 2..] == "s?") <==> count > 1
  {
    CountMessageShape(UPLOAD_PREFIX, count);
    UPLOAD_PREFIX + PhotoCount(count) + "?"
  }

  /** A confirmation dialog as the page shows it. */
  datatype ConfirmDialog = ConfirmDialog(
    title: string,
    message: string,
    positiveText: string,
    negativeText: string,
    destructive: bool)

  /** `handleFileChange`: a dialog only when at least one file was chosen
      (`files` may be missing). */
  function UploadConfirmation(fileCount: Option<nat>): (d: Option<ConfirmDialog>)
    ensures d.Some? <==> fileCount.Some? && fileCount.value > 0
    ensures d.Some? ==> d.value.message == UploadMessage(fileCount.value) && !d.value.destructive
  {
    if fileCount.Some? && fileCount.value > 0 then
      Some(ConfirmDialog("Upload Photos", UploadMessage(fileCount.value), "Upload", "Cancel", false))
    else None
  }

  // ------------------------------------------------------------ selection

  /** What a settled mutation asks of the page's collaborators. */
  datatype Effect =
    | InvalidateFrames
    | DismissPopup
    | ToastSuccess(text: string)
    | ToastError(text: string)

  /** The member set after toggling `id`. */
  function Toggled(s: seq<int>, id: int): (r: seq<int>)
    requires Distinct(s)
    ensures Distinct(r)
    ensures id in r <==> id !in s
    ensures forall y :: y != id ==> (y in r <==> y in s)
  {
    if id in s then Delete(s, id) else Add(s, id)
  }

  /** Toggling twice gives back the same members; when the id was not
      selected it gives back the very same insertion order. */
  lemma ToggleTwice(s: seq<int>, id: int)
    requires Distinct(s)
    ensures forall y :: y in Toggled(Toggled(s, id), id) <==> y in s
    ensures id !in s ==> Toggled(Toggled(s, id), id) == s
  {
    if id !in s {
      DeleteAfterAppend(s, id);
    }
  }

  /** The page holding the selection. */
  class GalleryPage {
    /** `selectedIds`, in insertion order. */
    var selectedIds: seq<int>

    ghost predicate Valid()
      reads this
    {
      Distinct(selectedIds)
    }

    constructor ()
      ensures Valid() && selectedIds == [] && !IsSelecting()
    {
      selectedIds := [];
    }

    /** Selection mode: `selectedIds.size > 0`. */
    predicate IsSelecting()
      reads this
    {
      |selectedIds| > 0
    }

    /** `toggleSelection`: adds the id if absent, removes it if present, and
        no other id changes. */
    method ToggleSelection(id: int)
      requires Valid()
      modifies this
      ensures Valid()
      ensures selectedIds == Toggled(old(selectedIds), id)
      ensures id in selectedIds <==> id !in old(selectedIds)
      ensures forall y :: y != id ==> (y in selectedIds <==> y in old(selectedIds))
    {
      selectedIds := Toggled(selectedIds, id);
    }

    /** `handleLongPress`: adds the id; adding it again changes nothing. */
    method HandleLongPress(id: int)
      requires Valid()
      modifies this
      ensures Valid()
      ensures selectedIds == Add(old(selectedIds), id)
      ensures id in selectedIds && IsSelecting()
      ensures forall y :: y != id ==> (y in selectedIds <==> y in old(selectedIds))
      ensures id in old(selectedIds) ==> selectedIds == old(selectedIds)
    {
      selectedIds := Add(selectedIds, id);
    }

    /** `cancelSelection`: leaves selection mode. */
    method CancelSelection()
      modifies this
      ensures Valid() && selectedIds == [] && !IsSelecting()
    {
      selectedIds := [];
    }

    /** `handleImageClick`: while selecting, toggles the clicked id and
        opens nothing; otherwise asks for the photo popup of that frame
        and leaves the selection alone. */
    method HandleImageClick(id: int) returns (photoPopup: Option<int>)
      requires Valid()
      modifies this
      ensures Valid()
      ensures old(IsSelecting()) ==> photoPopup.None? && selectedIds == Toggled(old(selectedIds), id)
      ensures !old(IsSelecting()) ==> photoPopup == Some(id) && selectedIds == old(selectedIds)
    {
      if IsSelecting() {
        ToggleSelection(id);
        photoPopup := None;
      } else {
        photoPopup := Some(id);
      }
    }

    /** `handleBatchDelete`: the dialog names the number of selected photos
        and, when confirmed, sends exactly the selected ids in insertion
        order. */
    method HandleBatchDelete() returns (dialog: ConfirmDialog, ids: seq<int>)
      ensures dialog.message == BatchDeleteMessage(|selectedIds|) && dialog.destructive
      ensures ids == selectedIds
    {
      dialog := ConfirmDialog("Delete Photos", BatchDeleteMessage(|selectedIds|), "Delete", "Cancel", true);
      ids := selectedIds;
    }

    /** The batch delete settled: on success the frames are refetched, the
        dialog closes, a success toast shows and the selection is cleared;
        on failure only an error toast shows. */
    method BatchDeleteSettled(success: bool) returns (effects: seq<Effect>)
      requires Valid()
      modifies this
      ensures Valid()
      ensures success ==> effects == [InvalidateFrames, DismissPopup, ToastSuccess("Photos deleted")] &&
                          selectedIds == [] && !IsSelecting()
      ensures !success ==> effects == [ToastError("Failed to delete photos")] && selectedIds == old(selectedIds)
    {
      if success {
        effects := [InvalidateFrames, DismissPopup, ToastSuccess("Photos deleted")];
        CancelSelection();
      } else {
        effects := [ToastError("Failed to delete photos")];
      }
    }
  }

  /** Two quick clicks on an unselected photo while selecting select and
      deselect it again. */
  method ToggleScenario(first: int, other: int)
    requires first != other
  {
    var page := new GalleryPage();
    page.HandleLongPress(first);
    var popup := page.HandleImageClick(other);
    assert popup.None? && other in page.selectedIds;
    popup := page.HandleImageClick(other);
    ToggleTwice([first], other);
    assert page.selectedIds == [first];
    page.CancelSelection();
    popup := page.HandleImageClick(first);
    assert popup == Some(first);
  }

  // ------------------------------------------------------------ grid item

  /** `PhotoGridItem`'s long-press gate. Each press start schedules a 500 ms
      timeout and keeps only the newest in `longPressTimer`; releasing
      clears that one. Timeouts fire oldest first. */
  class PhotoGridItem {
    /** `longPressTriggered.current`. */
    var triggered: bool
    /** Timeouts scheduled and neither cleared nor fired. */
    var pendingTimers: nat
    /** The timeout in `longPressTimer` is still pending. */
    var refPending: bool

    ghost predicate Valid()
      reads this
    {
      refPending ==> pendingTimers >= 1
    }

    constructor ()
      ensures Valid() && !triggered && pendingTimers == 0 && !refPending
    {
      triggered := false;
      pendingTimers := 0;
      refPending := false;
    }

    /** `handleTouchStart` (touch start or mouse down). */
    method PressStart()
      requires Valid()
      modifies this
      ensures Valid()
      ensures !triggered && pendingTimers == old(pendingTimers) + 1 && refPending
    {
      triggered := false;
      pendingTimers := pendingTimers + 1;
      refPending := true;
    }

    /** `handleTouchEnd` (touch end, mouse up or mouse leave): clears the
        newest timeout if it has not fired. */
    method PressEnd()
      requires Valid()
      modifies this
      ensures Valid()
      ensures old(refPending) ==> pendingTimers == old(pendingTimers) - 1
      ensures !old(refPending) ==> pendingTimers == old(pendingTimers)
      ensures !refPending && triggered == old(triggered)
    {
      if refPending {
        pendingTimers := pendingTimers - 1;
        refPending := false;
      }
    }

    /** The oldest pending timeout fires (after 500 ms): it marks the press
        as long and calls `onLongPress`; nothing happens without one. */
    method LongPressTimerFires() returns (longPress: bool)
      requires Valid()
      modifies this
      ensures Valid()
      ensures longPress <==> old(pendingTimers) > 0
      ensures longPress ==> triggered && pendingTimers == old(pendingTimers) - 1
      ensures longPress ==> refPending == (old(refPending) && pendingTimers > 0)
      ensures !longPress ==> triggered == old(triggered) && pendingTimers == 0 && refPending == old(refPending)
    {
      longPress := pendingTimers > 0;
      if longPress {
        triggered := true;
        pendingTimers := pendingTimers - 1;
        if pendingTimers == 0 {
          refPending := false;
        }
      }
    }

    /** `handleClick`: `onClick` runs unless the long press fired. */
    method Click() returns (clicked: bool)
      ensures clicked <==> !triggered
    {
      clicked := !triggered;
    }
  }

  /** A press released before 500 ms ends in a click; a press held past
      500 ms calls `onLongPress` and swallows the following click. */
  method PressScenario()
  {
    var item := new PhotoGridItem();
    item.PressStart();
    item.PressEnd();
    var longPress := item.LongPressTimerFires();
    var clicked := item.Click();
    assert !longPress && clicked;
    item.PressStart();
    longPress := item.LongPressTimerFires();
    item.PressEnd();
    clicked := item.Click();
    assert longPress && !clicked;
    item.PressStart();
    item.PressEnd();
    clicked := item.Click();
    assert clicked;
  }
}
