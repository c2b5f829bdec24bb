/** The toast data types of `hooks/ToastContext.tsx`: a tagged union of three
    kinds of toast, each carrying an id, optional metadata flags and the
    `isDeleting` flag that drives the exit animation. */
module ToastContext {
  import opened Wrappers
  import opened React

  /** The visual style of a message toast. */
  datatype ToastStyle = Success | Error | Warning | Info

  /** A labelled button inside a message toast. */
  datatype ToastAction = ToastAction(text: string, onClick: Callback)

  /** Optional behaviour flags; each one may be absent. */
  datatype ToastMeta = ToastMeta(userDismissed: Option<bool>, showProgress: Option<bool>, showConfetti: Option<bool>)

  /** The discriminant `t` of a toast. */
  datatype ToastKind = MessageKind | AnnouncementKind | CustomKind

  /** `ToastType`: every kind shares `id`, `meta` and `isDeleting`; only a
      message toast has a style. */
  datatype Toast =
    | MessageToast(id: string, meta: Option<ToastMeta>, isDeleting: bool,
                   text: string, style: ToastStyle, actions: Option<seq<ToastAction>>)
    | AnnouncementToast(id: string, meta: Option<ToastMeta>, isDeleting: bool,
                        title: string, body: Node, icon: Option<Node>)
    | CustomToast(id: string, meta: Option<ToastMeta>, isDeleting: bool, node: Node)
  {
    /** The discriminant: it names the kind and so the fields present. */
    function Kind(): (k: ToastKind)
      ensures k == MessageKind <==> this.MessageToast?
      ensures k == AnnouncementKind <==> this.AnnouncementToast?
      ensures k == CustomKind <==> this.CustomToast?
    {
      match this
      case MessageToast(_, _, _, _, _, _) => MessageKind
      case AnnouncementToast(_, _, _, _, _, _) => AnnouncementKind
      case CustomToast(_, _, _, _) => CustomKind
    }
  }

  /** How an optional `boolean` flag is read (`meta?.flag` tested for
      truth): an absent flag behaves as false. */
  function IsSet(flag: Option<bool>): (b: bool)
    ensures b <==> flag == Some(true)
    ensures flag.None? ==> !b
  {
    match flag
    case None => false
    case Some(v) => v
  }

  /** `meta?.userDismissed`: absent metadata behaves as no flag set. */
  predicate UserDismissed(t: Toast) {
    t.meta.Some? && IsSet(t.meta.value.userDismissed)
  }

  /** `meta?.showProgress`. */
  predicate ShowsProgress(t: Toast) {
    t.meta.Some? && IsSet(t.meta.value.showProgress)
  }
}
