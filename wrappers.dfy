/** Small value types shared by the backend and the client model. */
module Wrappers {

  /** Rust's `Option` and Candid's `opt`: a value or nothing. */
  datatype Option<+T> = None | Some(value: T)

  /** How an awaited remote call settles: it resolves with a value, or it
      rejects with an error that carries nothing the client inspects. */
  datatype Remote<+T> = Resolved(value: T) | Rejected
}
