/** Small result types shared by the pipeline modules. */
module Results {

  /** A value that may be absent (Java's `null`). */
  datatype Option<+T> = None | Some(value: T)

  /** What a collaborator call gives back: a value, or the message of the exception it threw. */
  datatype Reply<+T> = Ok(value: T) | Fail(message: string)
}
