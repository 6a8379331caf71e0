/** Failure-carrying result types shared by every module of the model. */
module Wrappers {

  /** An optional value: `undefined` / `null` in TypeScript becomes None. */
  datatype Option<+T> = None | Some(value: T) {
    function GetOr(default: T): T {
      match this
      case Some(v) => v
      case None => default
    }
  }

  /** The outcome of an operation that the TypeScript code can abort with a thrown error. */
  datatype Result<+T> = Ok(value: T) | Err(message: string)
}
