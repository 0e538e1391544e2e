/** The optional value the engine's Go code expresses with a nil pointer or a
    failed lookup. */
module Wrappers {

  datatype Option<T> = None | Some(value: T)
}
