/** The option type standing for the source's nullable results (`T | null`, optional fields). */
module Wrappers {

  datatype Option<+T> = None | Some(value: T)
}
