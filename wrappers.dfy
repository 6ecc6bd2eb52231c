/** The optional values of the service's records: `Optional[...]` fields. */
module Wrappers {
  datatype Option<+T> = None | Some(value: T)
}
