/** Small shared vocabulary: optional values, results with an error side, and paths. */
module Common {

  /** A value that may be missing; stands for Python's `None`. */
  datatype Option<+T> = None | Some(value: T)

  /** The outcome of an operation that may raise: `Failure` carries what was raised. */
  datatype Result<+T, +E> = Success(value: T) | Failure(error: E)

  /** File-system paths and other texts are plain character sequences. */
  type Path = string

  /** Concatenation is associative; stated once so that long traces can be regrouped. */
  lemma AppendAssoc<T>(a: seq<T>, b: seq<T>, c: seq<T>)
    ensures (a + b) + c == a + (b + c)
  {
  }
}
