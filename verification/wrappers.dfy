/** A result that may be missing: a failed computation or an unreadable input. */
module Wrappers {

  /** `Some(value)` on success; `None` for an overflow or a character that is no symbol. */
  datatype Option<+T> = None | Some(value: T)
}
