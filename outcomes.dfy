/** The result type every fallible operation of the filesystem accessor returns.
    The source's result carries a formatted message; only its kind is kept here. */
module Outcomes {

  /** The error categories: an empty relative path, a path the prefix check rejects,
      a failing storage operation, and a listing of something that is not a directory. */
  datatype ErrorKind = InvalidPath | PathEscape | IOError | NotADirectory

  datatype Result<T> = Success(value: T) | Error(kind: ErrorKind)
}
