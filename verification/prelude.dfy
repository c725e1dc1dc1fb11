/** Small shared vocabulary: optional values and the outcome of one call to
    the hosted backend. */
module Prelude {

  /** An optional value, standing for TypeScript's `T | null | undefined`. */
  datatype Option<+T> = None | Some(value: T) {
    /** The value, or `default` when there is none (TypeScript's `x ?? d`). */
    function GetOr(default: T): T {
      match this
      case Some(v) => v
      case None => default
    }
  }

  /** What one backend call answered: success, or an error carrying the
      backend's message. Which calls fail is a parameter of every operation
      that issues one, since the backend itself is not modelled. */
  datatype Reply = Ok | Failed(message: string)

  /** The result that the friend actions hand back to their caller:
      `{ error: null }` or `{ error: new Error(message) }`. */
  datatype ActionError = NoError | Error(message: string)

  /** The message of the guard failure shared by the friend actions. */
  const NotLoggedIn: string := "Not logged in"

  /** JavaScript truthiness of an optional identifier: `!user?.id` holds
      both for a missing value and for the empty string. */
  predicate Present(id: Option<string>) {
    id.Some? && id.value != ""
  }
}
