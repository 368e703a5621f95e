/**
 * The result envelope `Result<T>`: each of its four static factories is a
 * variant here, and its get-only properties are member functions that give
 * what the private constructor stores for that factory.
 */
module Results {
  import opened Wrappers

  /** `ResultType`. */
  datatype ResultType = Success | ValidationError | NotFound | Conflict

  /** Property name -> messages, as `IDictionary<string, string[]>`. */
  type ErrorMap = map<string, seq<string>>

  const ValidationFailedMessage: string := "Validation failed."

  datatype Result<T> =
    | Success(value: T)
    | ValidationError(errors: ErrorMap)
    | NotFound(error: string)
    | Conflict(error: string)
  {
    /** `Type`. */
    function Type(): (t: ResultType)
      ensures Success? <==> t == ResultType.Success
      ensures ValidationError? <==> t == ResultType.ValidationError
      ensures NotFound? <==> t == ResultType.NotFound
      ensures Conflict? <==> t == ResultType.Conflict
    {
      match this
      case Success(_) => ResultType.Success
      case ValidationError(_) => ResultType.ValidationError
      case NotFound(_) => ResultType.NotFound
      case Conflict(_) => ResultType.Conflict
    }

    /** `IsSuccess`. */
    predicate IsSuccess()
      ensures IsSuccess() <==> Type() == ResultType.Success
    {
      Success?
    }

    /** `Value`: the wrapped value for `Success`, `default` (null) otherwise. */
    function Value(): (v: Option<T>)
      ensures v.Some? <==> Type() == ResultType.Success
      ensures Success? ==> v == Some(value)
    {
      if Success? then Some(value) else None
    }

    /** `Error`: null for `Success`, the given message for `NotFound` and `Conflict`,
        "Validation failed." for `ValidationError`. */
    function Error(): (e: Option<string>)
      ensures e.None? <==> Type() == ResultType.Success
      ensures (NotFound? || Conflict?) ==> e == Some(error)
      ensures ValidationError? ==> e == Some(ValidationFailedMessage)
    {
      match this
      case Success(_) => None
      case ValidationError(_) => Some(ValidationFailedMessage)
      case NotFound(e) => Some(e)
      case Conflict(e) => Some(e)
    }

    /** `ValidationErrors`: the given map for `ValidationError`, null otherwise. */
    function ValidationErrors(): (m: Option<ErrorMap>)
      ensures m.Some? <==> Type() == ResultType.ValidationError
      ensures ValidationError? ==> m == Some(errors)
    {
      if ValidationError? then Some(errors) else None
    }
  }
}
