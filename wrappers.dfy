/** Small result types shared by the other modules. */
module Wrappers {

  datatype Option<+T> = None | Some(value: T) {
    function GetOr(default: T): T {
      match this
      case Some(v) => v
      case None => default
    }
  }

  /** The outcome of an accessor that panics in the library: either a value
      or the panic, carrying the panic's message. */
  datatype Outcome<+T> = Ok(value: T) | Panic(message: string)
}
