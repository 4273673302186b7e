/** The nullable references of the engine (a token that may be null, a
    string that may be null) become Option values. */
module Wrappers {

  datatype Option<+T> = None | Some(value: T)

}
