/** Outcomes of the hive-section service operations.

    The service signals failure by throwing one of two exception types; the
    model returns them as values instead, so every operation is total. */
module Results {

  /** An optional value, used for look-ups that may find nothing. */
  datatype Option<+T> = None | Some(value: T)

  /** Why a request conflicts with the current store. */
  datatype ConflictReason =
    /** Another section already uses the requested code (thrown with the message "code"). */
    | DuplicateCode
    /** A purge was requested for a section that is not soft-deleted (thrown without a message). */
    | NotSoftDeleted

  /** The typed errors the service raises to its caller. */
  datatype ServiceError =
    /** No section with the requested id exists. */
    | NotFound
    | Conflict(reason: ConflictReason)

  /** Either the value an operation produced or the error it raised. */
  datatype Result<+T> = Ok(value: T) | Err(error: ServiceError)
}
