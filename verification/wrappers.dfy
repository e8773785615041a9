/** Failure-carrying datatypes shared by every module of the model.
    - Option<T> stands for Python's `None`-or-value returns and for dictionary keys
      that may be absent;
    - Result<T, E> stands for a call that either returns or raises. */
module Wrappers {

  datatype Option<+T> = None | Some(value: T) {

    /** The value in Some, or `default` for None (Python's `d.get(key, default)`). */
    function GetOr(default: T): T {
      match this
      case Some(v) => v
      case None => default
    }
  }

  datatype Result<+T, +E> = Success(value: T) | Failure(error: E)
}

/** The exceptions the modelled Python scripts raise or catch, by kind. */
module Exceptions {

  datatype Exception =
    | ClientError          // botocore ClientError / ecs ClientException from a remote call
    | IndexError           // subscript past the end of a list
    | KeyError             // missing dictionary key
    | NameError            // a module-level name that was never bound
    | TypeError            // subscript of the wrong kind of value
    | ValueError(message: string)
    | CommandFailed(status: string)  // the generic Exception the probes raise on a bad status
    | SystemExit           // a bare `exit()`: the script stops, by its own choice
    | RuntimeError(what: string)     // C++ std::runtime_error
}
