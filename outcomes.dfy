/** Outcomes shared by both services: optional values, the error kinds the
    services return instead of throwing, and the HTTP status each carries. */
module Outcomes {

  datatype Option<T> = None | Some(value: T)

  /** The distinct failures the services return, one per message they build. */
  datatype Failure =
    | RoleDisabled      // the protected "USER" role was named in add/remove
    | RoleNotFound      // no role with the requested value
    | UserNotFound      // no user with the requested id or link
    | ReviewNotFound    // no review with the requested id

  datatype Status = BadRequest | NotFound

  /** The HTTP status each failure is wrapped in. */
  function StatusOf(f: Failure): Status
  {
    match f
    case RoleDisabled => BadRequest
    case _ => NotFound
  }

  datatype Result<T> = Ok(value: T) | Err(error: Failure)
}
