/** Small helper datatypes shared by the other modules. */
module Wrappers {

  /** A value that may be absent: a DOM lookup that found nothing, a search that failed. */
  datatype Option<+T> = None | Some(value: T)
}
