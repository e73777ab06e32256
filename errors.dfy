/** Failures of the cipher engine. The source signals every failure by
    throwing; the model returns it as a value. Message texts are not
    modelled, only which kind of exception is raised. */
module Errors {

  /** EnigmaFailure: the project's own EnigmaException.
      IndexOutOfRange: a Java runtime index exception (String.charAt,
      array or list access out of bounds), which the program does not catch.
      NullReference: a method called on a field that is still null. */
  datatype Error = EnigmaFailure | IndexOutOfRange | NullReference

  /** A value or the failure that replaced it. */
  datatype Result<T> = Ok(value: T) | Err(error: Error)

  /** The outcome of an operation that returns nothing (a Java void method). */
  datatype Outcome = Pass | Fail(error: Error)

  /** An optional value: None stands for a Java null reference. */
  datatype Option<T> = None | Some(value: T)
}
