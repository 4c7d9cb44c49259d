/** The optional value that the modelled code returns from its lookups and parsers. */
module Wrappers {
  datatype Option<+T> = None | Some(value: T)
}
