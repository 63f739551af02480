/** Outcomes of the operations that can fail. Each error names the Python
    exception the original code raises in that situation, except that load
    reports a merges key that is not a pair, which the original accepts. */
module Results {

  datatype Option<T> = None | Some(value: T)

  datatype Error =
    | InvalidInput    // ValueError: empty training text, non-positive vocabulary size
    | NotImplemented  // NotImplementedError from the abstract tokenizer
    | UnboundLocal    // UnboundLocalError from fit's final summary after zero merges
    | ModelNotFound   // FileNotFoundError from load
    | MalformedModel  // KeyError from load for a missing field, or a key that is not a pair

  datatype Result<T> = Success(value: T) | Failure(error: Error)
}
