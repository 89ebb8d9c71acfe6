/** An optional value: used for fields a stored object may lack and for lookups that may miss. */
module Wrappers {

  datatype Option<+T> = None | Some(value: T)
}
