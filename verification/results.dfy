/** Failure-compatible wrappers used to model the source's exceptions and `None` results. */
module Results {

  /** A value that may be absent (Python's `None`). */
  datatype Option<T> = None | Some(value: T)

  /** A computed value, or the exception the source raises instead. */
  datatype Result<T, E> = Ok(value: T) | Err(error: E)

  /** A statement that completes, or the exception it raises. */
  datatype Outcome<E> = Pass | Fail(error: E)

  /** The exceptions the modelled operations raise. */
  datatype Exception =
    | InvalidRank(rank: int)           // `get_subfront` with a rank past the last subfront
    | IndexOutOfRange(rank: int)       // Python list indexing with a too negative rank
    | NotEnoughLeaders(available: nat) // `Random.sample` asked for 2 of fewer leaders
    | TypeError                        // a float list index, or a call missing an argument
    | MissingAttribute(name: string)   // reading an attribute the object does not have
}
