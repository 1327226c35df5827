/** Failure-compatible wrappers for the Python exceptions and `None`
    returns of the tagger, shared by every other module. */
module Outcomes {

  /** Python's `None` versus a present value. */
  datatype Option<+T> = None | Some(value: T)

  /** The exceptions the modelled code can raise; paths are carried as
      the strings the Python code builds with `os.path.join`. */
  datatype Error =
    | FileNotFound(path: string)      // os.listdir / os.link on a missing directory
    | NotADirectory(path: string)     // a path component is a plain file
    | FileExists(path: string)        // os.link onto an existing destination
    | ValueError(message: string)     // list.remove of an absent element
    | IOError(message: string)        // explicit `raise IOError(...)`
    | IndexError                      // `xs[1]` on a one-element list
    | TypeError                       // `fetchone()[0]` when fetchone() is None
    | IntegrityError                  // a duplicate primary key in SQLite
    | AttributeError(name: string)    // a missing module attribute

  /** The outcome of a Python call that either returns or raises. */
  datatype Result<+T> = Ok(value: T) | Err(error: Error) {

    predicate IsFailure() {
      Err?
    }

    function PropagateFailure<U>(): Result<U>
      requires Err?
    {
      Err(error)
    }

    function Extract(): T
      requires Ok?
    {
      value
    }
  }
}
