/** The option type shared by all modules. */
module Wrappers {
  datatype Option<+T> = None | Some(value: T)

  /** The value, if there is one, as a sequence. */
  function Emitted<T>(o: Option<T>): seq<T> {
    if o.Some? then [o.value] else []
  }
}
