/** The optional value used for "the first match, if any" and for the
    nullable slots of a get-images reply. */
module Wrappers {

  /** `None` plays the part of JavaScript's `undefined`/`null`. */
  datatype Option<+T> = None | Some(value: T)
}
