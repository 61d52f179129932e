/**
 * The backend's error classes and its final error-handling middleware, which
 * turns whatever a handler passed to `next` into one status and one message.
 */
module ErrorHandling {
  import opened Wrappers

  /**
   * What a handler can throw or pass to `next`: an instance of one of the
   * three error classes, any other `Error` (a `TypeError`, a database or
   * token-library error, `new Error(...)`), or a thrown value that is not an
   * `Error` at all.
   */
  datatype Thrown =
    | HttpError(message: string, status: Option<int>)
    | InputError(message: string)
    | SqliteError(message: string, code: Option<string>)
    | OtherError(message: string)
    | NotAnError

  /** The `TypeError` raised by calling a string method on a value that is not a string. */
  const TypeError: Thrown := OtherError("TypeError")

  /** The JSON reply `res.status(status).json({ message })`. */
  datatype Response = Response(status: int, message: string)

  /** `new HttpError(message, status?)`: the status is recorded only when one is given. */
  function NewHttpError(message: string, status: Option<int>): (e: Thrown)
    ensures e.HttpError? && e.message == message
    ensures e.status.Some? <==> status.Some?
    ensures status.Some? ==> e.status == status
  {
    if status.Some? then HttpError(message, status) else HttpError(message, None)
  }

  /** `new InputError(message)`. */
  function NewInputError(message: string): (e: Thrown)
    ensures e.InputError? && e.message == message
  {
    InputError(message)
  }

  /** `new SqliteError(message, code?)`: the code is recorded only when one is given. */
  function NewSqliteError(message: string, code: Option<string>): (e: Thrown)
    ensures e.SqliteError? && e.message == message && e.code == code
  {
    SqliteError(message, code)
  }

  const GenericErrorMessage := "Error Occured"
  const UnknownIssueMessage := "Unknown internal issue"

  /**
   * `errorHandler`: the `instanceof` tests are tried in order (HttpError,
   * InputError, SqliteError, Error) and exactly one reply is produced.
   */
  function ErrorHandler(err: Thrown): (r: Response)
    // An HttpError answers with its own status, 500 when it has none, and its own message.
    ensures err.HttpError? ==> r.message == err.message
    ensures err.HttpError? && err.status.Some? ==> r.status == err.status.value
    ensures err.HttpError? && err.status.None? ==> r.status == 500
    // Input and database validation errors are client errors that show their message.
    ensures err.InputError? || err.SqliteError? ==> r == Response(400, err.message)
    // Any other error is a server error whose own message never reaches the client.
    ensures err.OtherError? ==> r == Response(500, GenericErrorMessage)
    ensures err.NotAnError? ==> r == Response(500, UnknownIssueMessage)
  {
    match err
    case HttpError(message, status) => Response(if status.Some? then status.value else 500, message)
    case InputError(message) => Response(400, message)
    case SqliteError(message, _) => Response(400, message)
    case OtherError(_) => Response(500, GenericErrorMessage)
    case NotAnError => Response(500, UnknownIssueMessage)
  }

  /** Two plain errors get the same reply whatever their messages: nothing internal leaks. */
  lemma {:induction false} OtherErrorsIndistinguishable(m1: string, m2: string)
    ensures ErrorHandler(OtherError(m1)) == ErrorHandler(OtherError(m2))
  {
  }

  /** The reply's message is the error's own exactly for the three error classes, or coincides with the generic text. */
  lemma {:induction false} MessageExposedOnlyForKnownClasses(err: Thrown)
    requires !(err.HttpError? || err.InputError? || err.SqliteError?)
    ensures ErrorHandler(err).message in {GenericErrorMessage, UnknownIssueMessage}
    ensures ErrorHandler(err).status == 500
  {
  }

  /** An HttpError built without a status is answered with 500 and its message. */
  lemma {:induction false} HttpErrorWithoutStatus(message: string)
    ensures ErrorHandler(NewHttpError(message, None)) == Response(500, message)
  {
  }
}
