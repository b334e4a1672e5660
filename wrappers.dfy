/** The nullable values of the Java source (a `String`, `Integer` or `Long`
    that may be `null`) are written as `Option`. */
module Wrappers {

  datatype Option<+T> = None | Some(value: T)
}
