/** The optional value used for results that may be missing: a page whose
    text could not be extracted, a heading matcher that found nothing, a
    response that did not parse. */
module Wrappers {
  datatype Option<+T> = None | Some(value: T)
}
