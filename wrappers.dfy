/** The optional value used throughout the model for "the query found nothing". */
module Wrappers {
  datatype Option<+T> = None | Some(value: T)
}
