/** Value wrappers shared by the whole model: Java's nullable references and the
    exceptions the services throw. */
module Outcomes {

  /** An optional value; `None` stands for Java's `null`. */
  datatype Option<+T> = None | Some(value: T)

  /** The four kinds of failure that reach the global exception handler: the
      three exception classes of the `exception` package, and any other
      exception (a store failure the service does not translate). */
  datatype ServiceError =
    | ResourceNotFound(message: string)
    | InvalidData(message: string)
    | DataIntegrity(message: string)
    | Unexpected(message: string)

  /** What a service operation returns: its value, or the exception it throws. */
  datatype Result<+T> = Ok(value: T) | Err(error: ServiceError)
}
