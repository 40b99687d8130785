/** Option, Result and Outcome: the values a model returns where the Python code
    returns None, raises, or exits the process. */
module Wrappers {

  datatype Option<+T> = None | Some(value: T)

  datatype Result<+R, +E> = Success(value: R) | Failure(error: E)

  datatype Outcome<+E> = Pass | Fail(error: E)
}
