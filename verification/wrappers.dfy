/** Small shared vocabulary: optional values, results, and Python's list indexing. */
module Wrappers {

  /** An optional value; a grid cell holds `None` when it is empty. */
  datatype Option<T> = None | Some(value: T)

  /** The outcome of a computation that can raise an error. */
  datatype Result<T, E> = Ok(value: T) | Err(error: E)

  /** The position Python's `xs[i]` reads on a list of length `n`: a negative
      index counts from the end, so every `i` in `[-n, n)` is accepted. */
  function PyIndex(i: int, n: nat): (k: nat)
    requires 0 <= i + n && i < n
    ensures k < n
    ensures (k - i) % n == 0
  {
    if i < 0 then i + n else i
  }
}
