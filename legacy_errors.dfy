/**
 * The first revision's error middleware: `isHttpError` is a structural test
 * on the thrown value rather than an `instanceof` test.
 */
module LegacyErrorHandling {
  import opened Wrappers
  import opened Js

  /**
   * A thrown value: an `Error` instance (its `message` and, when it has an
   * own `status` property, that property's value) or any other JavaScript
   * value.
   */
  datatype Thrown =
    | ErrorInstance(message: string, status: Option<Value>)
    | NonError(v: Value)

  datatype Response = Response(status: int, message: string)

  /** `new HttpError(message, status?)`: `this.status = status` runs even when no status is given. */
  function NewHttpError(message: string, status: Option<int>): (e: Thrown)
    ensures e.ErrorInstance? && e.message == message && e.status.Some?
    ensures status.None? ==> e.status == Some(Undefined)
    ensures status.Some? ==> e.status == Some(Num(status.value))
  {
    ErrorInstance(message, Some(if status.Some? then Num(status.value) else Undefined))
  }

  /** `new Error(message)`: an error with no `status` property. */
  function NewError(message: string): (e: Thrown)
    ensures e.ErrorInstance? && e.status.None?
  {
    ErrorInstance(message, None)
  }

  /**
   * `isHttpError`: a non-null object with a string `message` and, if it has a
   * `status` at all, a numeric one.
   */
  predicate IsHttpError(t: Thrown) {
    match t
    case ErrorInstance(_, status) => status.None? || status.value.Num?
    case NonError(v) =>
      v.Obj? && Get(v.props, "message").Str?
      && (HasKey(v.props, "status") ==> Get(v.props, "status").Num?)
  }

  /** The status a structurally recognised error carries: `err.status ?? 500`. */
  function StatusOf(t: Thrown): int {
    match t
    case ErrorInstance(_, status) => if status.Some? && status.value.Num? then status.value.n else 500
    case NonError(v) => if v.Obj? && Get(v.props, "status").Num? then Get(v.props, "status").n else 500
  }

  /** The message a structurally recognised error carries. */
  function MessageOf(t: Thrown): string {
    match t
    case ErrorInstance(message, _) => message
    case NonError(v) => if v.Obj? && Get(v.props, "message").Str? then Get(v.props, "message").s else ""
  }

  /** `errorHandler`: one reply for every thrown value. */
  function ErrorHandler(t: Thrown): (r: Response)
    ensures IsHttpError(t) ==> r == Response(StatusOf(t), MessageOf(t))
    ensures !IsHttpError(t) && t.ErrorInstance? ==> r == Response(500, "Error Occured")
    ensures !IsHttpError(t) && t.NonError? ==> r == Response(500, "Unknown internal issue")
  {
    if IsHttpError(t) then Response(StatusOf(t), MessageOf(t))
    else if t.ErrorInstance? then Response(500, "Error Occured")
    else Response(500, "Unknown internal issue")
  }

  /** A plain `Error` passes the structural test, so its own message reaches the client with 500. */
  lemma {:induction false} PlainErrorMessageExposed(message: string)
    ensures IsHttpError(NewError(message))
    ensures ErrorHandler(NewError(message)) == Response(500, message)
  {
  }

  /**
   * `new HttpError(message)` carries `status: undefined`, fails the
   * structural test and is answered with the generic text, its message lost.
   */
  lemma {:induction false} HttpErrorWithoutStatusLosesMessage(message: string)
    ensures !IsHttpError(NewHttpError(message, None))
    ensures ErrorHandler(NewHttpError(message, None)) == Response(500, "Error Occured")
  {
  }

  /** An HttpError with a numeric status is answered with that status and its message. */
  lemma {:induction false} HttpErrorWithStatus(message: string, status: int)
    ensures ErrorHandler(NewHttpError(message, Some(status))) == Response(status, message)
  {
  }

  /** `null` and non-object values are unknown issues. */
  lemma {:induction false} NonObjectsAreUnknown(v: Value)
    requires !v.Obj?
    ensures ErrorHandler(NonError(v)) == Response(500, "Unknown internal issue")
  {
  }

  /**
   * Any thrown object literal with a string `message` and a numeric `status`
   * is answered with that status and message.
   */
  lemma {:induction false} ObjectLiteralWithStatus(message: string, status: int)
    ensures var t := NonError(Obj([("message", Str(message)), ("status", Num(status))]));
            ErrorHandler(t) == Response(status, message)
  {
    var props := [("message", Str(message)), ("status", Num(status))];
    assert Keys(props) == ["message", "status"];
    assert Get(props, "message") == Str(message);
    assert Get(props, "status") == Num(status) by {
      assert Get(props[1..], "status") == Num(status);
    }
  }
}
