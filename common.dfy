/**
 * Identifiers, record-store errors and the exceptions the two services throw.
 */
module Common {

  /** Record identifiers are generated by the record store; here they are naturals. */
  type Id = nat

  /** Failures reported by the record store. A known request error carries the store's error code. */
  datatype StoreError =
    | KnownRequestError(code: string)
    | UnknownRequestError(message: string)

  /** The store's error code for a violated unique constraint. */
  const UniqueConstraintFailed: string := "P2002"

  predicate IsUniqueViolation(e: StoreError) {
    e.KnownRequestError? && e.code == UniqueConstraintFailed
  }

  /**
   * What a service call throws: an HTTP 403 with a message, or a store failure that the
   * service did not catch and that reaches the caller as it was raised.
   */
  datatype Exception =
    | Forbidden(message: string)
    | Rethrown(cause: StoreError)
}
