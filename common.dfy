/**
 * Values shared by every route and component: identifiers, optional values,
 * the shape of a field read from a JSON request body, and HTTP replies.
 */
module Common {

  /** Row identifiers (uuid strings assigned by the database). */
  type Id = string

  datatype Option<+T> = None | Some(value: T) {
    function GetOr(default: T): T {
      match this
      case Some(v) => v
      case None => default
    }
  }

  /**
   * A field of a JSON request body or a query string as the handlers see it:
   * absent (`undefined`), explicitly `null`, or a string.
   */
  datatype Field = Undefined | Null | Str(s: string)

  /** JavaScript truthiness of a field: a non-empty string. */
  predicate Truthy(f: Field) {
    f.Str? && f.s != ""
  }

  /** Truthiness of a nullable text column. */
  predicate Filled(o: Option<string>) {
    o.Some? && o.value != ""
  }

  /** An HTTP reply: a success status with its JSON body, or an error status with `{ error }`. */
  datatype Reply<+T> = Ok(status: nat, body: T) | Fail(status: nat, error: string)
}
