/** Types shared by the session manager and the user service: identifiers,
    the error taxonomy and the failure-carrying wrappers. */
module Common {

  /** Database identifiers (generated keys, never negative). */
  type UserId = nat
  type LoginAttemptId = nat
  type SessionId = nat

  /** Points in time, abstracted to an ordered integer clock. */
  type Time = int

  datatype Option<+T> = None | Some(value: T)

  /** The errors the modelled operations can report. `UserNotFound` is what a
      direct lookup by id gives for a missing user; `StorageFailure` is what a
      failed step of account creation (an `Outcome` passed in as a parameter)
      reports. */
  datatype Error = UserNotFound | StorageFailure

  datatype Result<+T> = Ok(value: T) | Err(error: Error) {
    function ToOption(): Option<T> {
      match this
      case Ok(v) => Some(v)
      case Err(_) => None
    }
  }

  /** The outcome of a step that returns no value. */
  datatype Outcome = Pass | Fail(error: Error)

  function Min(a: int, b: int): int {
    if a <= b then a else b
  }
}
