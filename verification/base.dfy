/** Shared vocabulary of the hoax service model: optional values, the error
    taxonomy the routers turn into HTTP statuses, and the result of a request. */
module Base {

  /** A value that may be missing: a JSON `null`/`undefined`, an absent header,
      or a row `findOne` did not find. */
  datatype Option<+T> = None | Some(value: T)

  /** One entry of a `validationErrors` body: the field and its first failing message. */
  datatype FieldError = FieldError(field: string, message: string)

  /** The exceptions the services and routers raise, each with the status the
      error handler gives it. */
  datatype ApiError =
    | AuthenticationFailure(message: string)   // 401, AuthenticationException
    | Forbidden(message: string)               // 403, ForbiddenException
    | NotFound(message: string)                // 404, NotFoundException and UserNotFoundException
    | InvalidToken                             // 400, InvalidTokenException
    | EmailFailure                             // 502, EmailException
    | Validation(errors: seq<FieldError>)      // 400, ValidationException
    | NullReference                            // a TypeError from dereferencing a row that was not found
    | QueryFailure                             // a database error, e.g. a `NaN` id written into the SQL as `= NaN`

  /** The outcome of one service call or route. */
  datatype Result<+T> = Ok(value: T) | Err(error: ApiError)

  function Min(a: int, b: int): int { if a <= b then a else b }

  /** `Math.ceil(n / d)` for a non-negative count and a positive page size:
      the number of pages of size `d` needed to hold `n` items. */
  function CeilDiv(n: nat, d: nat): (q: nat)
    requires d > 0
    ensures q * d >= n
    ensures q == 0 || (q - 1) * d < n
  {
    (n + d - 1) / d
  }

  /** JavaScript truthiness of an optional string: present and not empty. */
  predicate Truthy(s: Option<string>)
  {
    s.Some? && s.value != ""
  }

  /** JavaScript truthiness of an optional number: present and not zero
      (`None` also stands for `NaN` and `undefined`). */
  predicate TruthyNumber(n: Option<int>)
  {
    n.Some? && n.value != 0
  }
}
