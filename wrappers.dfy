/** Failure-carrying values shared by the whole model. */
module Wrappers {

  datatype Option<+T> = None | Some(value: T) {
    function GetOr(default: T): T {
      match this
      case Some(v) => v
      case None => default
    }
  }

  /** The two ways the modelled JavaScript code fails at run time. */
  datatype Failure =
    | SyntaxError  // the rewritten condition text is not a JavaScript expression
    | TypeError    // a property of `undefined` is read
    | ReferenceError // an undeclared global variable is read

  datatype Result<+T> = Ok(value: T) | Err(error: Failure)
}
