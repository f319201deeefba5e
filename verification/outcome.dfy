/** Outcomes of the modelled requests: an optional value, the error kinds
    the views turn into HTTP responses, and a failure-compatible result. */
module Outcome {

  datatype Option<+T> = None | Some(value: T)

  /** Why a serializer rejected its input; every reason is an HTTP 400. */
  datatype Reason =
    | Missing          // a required field was not supplied
    | Blank            // an empty string in a field that does not allow one
    | Required         // the username validator's own emptiness check
    | TooLong          // longer than the field's max_length
    | BadFormat        // the username does not match the allowed pattern
    | ReservedName     // the username "me" at signup
    | EmailRegistered  // the email is in use and the username is free
    | EmailMismatch    // the username is in use with another email
    | UsernameTaken
    | EmailTaken
    | SlugTaken
    | BadChoice        // a role outside the role choices
    | BadCode          // the confirmation did not go through
    | BelowMin         // below a MinValueValidator's limit
    | AboveMax         // above a MaxValueValidator's limit
    | DuplicateReview  // the author already reviewed this title
    | UnknownSlug      // a slug-related field names no row

  datatype Failure =
    | Denied                  // a permission class or the authenticator refused
    | NotFound                // get_object_or_404 found nothing
    | Invalid(reason: Reason) // a ValidationError
    | Conflict                // a database uniqueness constraint raised
    | DeliveryFailed          // send_mail raised
    | Crashed                 // an exception nothing catches

  datatype Result<+T> = Ok(value: T) | Fail(failure: Failure) {

    predicate IsFailure() {
      Fail?
    }

    function PropagateFailure<U>(): Result<U>
      requires Fail?
    {
      Fail(failure)
    }

    function Extract(): T
      requires Ok?
    {
      value
    }
  }
}
