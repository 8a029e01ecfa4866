/** Failure-carrying results shared by the statement and query models.
    The Java code signals failures with exceptions; here every operation that
    can throw returns its failure as a value instead. */
module Outcomes {

  /** A Java reference that may be null: `None` stands for `null`. */
  datatype Option<+T> = None | Some(value: T)

  /** The exceptions the modelled code raises or lets through. */
  datatype Error =
    | ParameterNotFound(name: string)   // IllegalArgumentException from getColumnIndexesBy
    | StatementClosed                   // SQLException: the prepared statement was closed
    | ExecutionFailed(reason: string)   // SQLException raised by the driver while executing
    | NoSuchField(field: string)        // NoSuchFieldException from Class.getField
    | FieldTypeMismatch(field: string)  // IllegalArgumentException from Field.set
    | Runtime(cause: Error)             // the RuntimeException Query wraps every failure in

  /** A value, or the exception that prevented computing it. */
  datatype Result<+T> = Success(value: T) | Failure(error: Error)

  /** Completion of a call that returns nothing: normally, or with an exception. */
  datatype Outcome = Pass | Fail(error: Error)
}
