/** Optional values and success-or-error results shared by the model. */
module Wrappers {

  /** A value that may be absent; stands for a Java reference that may be null. */
  datatype Option<+T> = None | Some(value: T)

  /** The exceptions the modelled code throws on bad arguments. */
  datatype Error = IllegalArgument

  /** Either a value or the exception that replaced it. */
  datatype Result<+R> = Success(value: R) | Failure(error: Error)
}
