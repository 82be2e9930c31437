/** Failure-compatible values standing for what the Python scripts return or raise. */
module Results {

  datatype Option<+T> = None | Some(value: T)

  /** The Python exceptions the modelled code can raise, with the message it gives where it gives one. */
  datatype PyError =
    | OSError          // os.rename / os.listdir on a path that is not there
    | IOError(message: string)
    | IndexError       // indexing an empty or too short list
    | NameError(name: string)
    | AttributeError   // an attribute looked up on None or on a non-dict
    | ValueError       // str.split with an empty separator

  /** The outcome of one operation: its value, or the exception that ended it. */
  datatype Result<+T> = Success(value: T) | Failure(error: PyError)
}
