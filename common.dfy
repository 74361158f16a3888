/** Shared result types of the event-registration backend.

    The backend signals failures with exceptions; here every operation returns
    a `Result` whose failure side names the kind of error. */
module Common {

  /** Python's `Optional[T]`: `None` or a value. */
  datatype Option<T> = None | Some(value: T)

  /** The error kinds of the domain.
      - NotFound: `EntityNotFoundError` (a referenced user or event is absent).
      - AlreadyExists: `EntityAlreadyExistsError` (duplicate id at creation).
      - Invalid: `ValidationError`, or a field validator rejecting its input.
      - AlreadyAssociated, CapacityFull, NotAssociated: the backend raises a single
        class, `BusinessRuleViolationError`, for all three and tells them apart only
        by the message text; the model keeps them as distinct constructors. */
  datatype Error =
    | NotFound
    | AlreadyExists
    | Invalid
    | AlreadyAssociated
    | CapacityFull
    | NotAssociated

  /** Either the value an operation returns or the error it raises. */
  datatype Result<T> = Success(value: T) | Failure(error: Error)
}
