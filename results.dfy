/** Small wrapper types shared by the whole model. */
module Results {

  /** An optional value: a nullable column or an optional payload field. */
  datatype Option<+T> = None | Some(value: T) {
    function GetOr(default: T): T {
      match this
      case Some(v) => v
      case None => default
    }
  }

  /** A payload field that may be left out, sent as null, or sent with a value.
      Plain optional types collapse the first two cases; an update payload
      parsed with "exclude unset" keeps them apart. */
  datatype Patch<+T> = Unset | Null | SetTo(value: T)

  /** What a route handler answers: a value, or one of the two domain errors
      (HTTP 404 and HTTP 409). */
  datatype Outcome<+T> = Ok(value: T) | NotFound | Conflict
}
