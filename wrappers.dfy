/** The optional value used wherever the scraper may find nothing: a missing
    element, a failed fetch, a link without a product segment (JavaScript's
    `undefined` and `null`). */
module Wrappers {

  datatype Option<+T> = None | Some(value: T) {

    /** The value, or `default` when there is none. */
    function GetOr(default: T): T {
      match this
      case Some(v) => v
      case None => default
    }
  }
}
