/** Small value wrappers shared by the whole model. */
module Wrappers {

  /** An optional value: JavaScript's `undefined` / `null` versus a present value. */
  datatype Option<+T> = None | Some(value: T)
}

/** The opaque values React hands around: renderable nodes and zero-argument callbacks.
    The model never looks inside them; it only stores, compares and forwards them. */
module React {

  /** A renderable `ReactNode`, identified by a key chosen by the caller. */
  datatype Node = Node(key: nat)

  /** A zero-argument callback `() => void`, identified by a key chosen by the caller. */
  datatype Callback = Callback(key: nat)
}
