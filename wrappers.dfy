/** The optional value used throughout the model for JavaScript's `undefined`
    (an unmatched capture group, a missing map entry, a search that found nothing). */
module Wrappers {
  datatype Option<T> = None | Some(value: T)
}
