/** A minimal optional-value type, used for values the program may not have yet
    (no weather reading so far) and for parses that can fail. */
module Wrappers {

  datatype Option<+T> = None | Some(value: T)
}
