/** The optional values that the importer's `Get`/`GetTexture` queries and the
    `std::optional` fields of the baked records stand for. */
module Wrappers {

  datatype Option<+T> = None | Some(value: T) {

    /** The carried value, or `default` when there is none. */
    function GetOr(default: T): T {
      match this
      case Some(v) => v
      case None => default
    }
  }
}
