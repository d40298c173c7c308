/** Error outcomes that stand for the exceptions thrown by Graph.cs. */
module Outcomes {

  /** The failures an operation of the graph can signal. */
  datatype Error =
    | DuplicateKey        // ArgumentException from AddVertex: the key is already a vertex
    | UnknownVertex       // ArgumentException: a vertex the operation needs is absent
    | EdgeNotFound        // ArgumentException: the source has no edge to the target
    | MissingTargetKey    // KeyNotFoundException from the dictionary indexer in RemoveVertex
    | CollectionModified  // InvalidOperationException: RemoveVertex changed the list it enumerates

  /** The result of an operation that returns nothing on success (a void method). */
  datatype Outcome = Pass | Fail(error: Error)

  /** The result of an operation that returns a value on success. */
  datatype Result<T> = Ok(value: T) | Err(error: Error)

  datatype Option<T> = None | Some(value: T)
}
