/**
 * How the signup and login forms turn a failed request into a message for
 * the user.
 */
module ErrorMessages {
  import opened Wrappers
  import opened Text
  import opened Js

  /** A server reply that came back with an error status. */
  datatype Reply = Reply(status: int, data: Value)

  /**
   * What a failed request rejects with: an HTTP-client error, with the reply
   * when one arrived, or anything else.
   */
  datatype Failure = ClientError(response: Option<Reply>) | OtherFailure

  const SomethingWentWrong := "Something went wrong"
  const NetworkIssue := "Network issue. Please try again later"
  const EmailInUse := "The email is already in use. Do you want to log in instead?"
  const UsernameTaken := "Username already exists"
  const ErrorOccurred := "Error occurred"
  const UserDoesNotExist := "User Does Not Exist"
  const WrongCredentials := "Wrong username or password"

  /** `data && typeof data.message === 'string'`. */
  predicate HasStringMessage(data: Value) {
    Truthy(data) && data.Obj? && Get(data.props, "message").Str?
  }

  /** The message a reply body carries. */
  function MessageOf(data: Value): string
    requires HasStringMessage(data)
  {
    Get(data.props, "message").s
  }

  /**
   * `friendlyErrorMessage`: the lower-cased message is searched for `email`
   * first and `username` second.
   */
  function FriendlyErrorMessage(message: string): (r: string)
    ensures Contains(ToLower(message), "email") ==> r == EmailInUse
    ensures !Contains(ToLower(message), "email") && Contains(ToLower(message), "username") ==> r == UsernameTaken
    ensures !Contains(ToLower(message), "email") && !Contains(ToLower(message), "username") ==> r == ErrorOccurred
  {
    var msg := ToLower(message);
    if Contains(msg, "email") then EmailInUse
    else if Contains(msg, "username") then UsernameTaken
    else ErrorOccurred
  }

  /** Letter case in the server's message makes no difference. */
  lemma {:induction false} FriendlyIgnoresCase(message: string)
    ensures FriendlyErrorMessage(ToLower(message)) == FriendlyErrorMessage(message)
  {
    ToLowerIdempotent(message);
  }

  /**
   * A message that starts with "Email", such as the server's "Email already
   * in use", gets the address-in-use text whatever follows.
   */
  lemma {:induction false} FriendlyEmailPrefix(rest: string)
    ensures FriendlyErrorMessage("Email" + rest) == EmailInUse
  {
    var m := "Email" + rest;
    var low := ToLower(m);
    assert LowerChar('E') == 'e';
    assert low[..5] == "email" by {
      forall k | 0 <= k < 5 ensures low[k] == "email"[k] {
        assert low[k] == LowerChar(m[k]);
      }
    }
    assert OccursAt(low, "email", 0);
  }

  /** `getSignupErrorMessage`. */
  function SignupErrorMessage(err: Failure): (r: string)
    ensures err.OtherFailure? ==> r == SomethingWentWrong
    ensures err.ClientError? && err.response.None? ==> r == NetworkIssue
    ensures err.ClientError? && err.response.Some? && HasStringMessage(err.response.value.data) ==>
              r == FriendlyErrorMessage(MessageOf(err.response.value.data))
    ensures err.ClientError? && err.response.Some? && !HasStringMessage(err.response.value.data) ==>
              r == SomethingWentWrong
  {
    match err
    case OtherFailure => SomethingWentWrong
    case ClientError(None) => NetworkIssue
    case ClientError(Some(reply)) =>
      if HasStringMessage(reply.data) then FriendlyErrorMessage(MessageOf(reply.data)) else SomethingWentWrong
  }

  /** `getLoginErrorMessage`: the server's own message is never shown, only whether the status was 404. */
  function LoginErrorMessage(err: Failure): (r: string)
    ensures err.OtherFailure? ==> r == SomethingWentWrong
    ensures err.ClientError? && err.response.None? ==> r == NetworkIssue
    ensures err.ClientError? && err.response.Some? && HasStringMessage(err.response.value.data) ==>
              r == (if err.response.value.status == 404 then UserDoesNotExist else WrongCredentials)
    ensures err.ClientError? && err.response.Some? && !HasStringMessage(err.response.value.data) ==>
              r == SomethingWentWrong
  {
    match err
    case OtherFailure => SomethingWentWrong
    case ClientError(None) => NetworkIssue
    case ClientError(Some(reply)) =>
      if HasStringMessage(reply.data) then
        if reply.status == 404 then UserDoesNotExist else WrongCredentials
      else SomethingWentWrong
  }

  /** Both forms answer a failure that is not a client error, and a lost connection, in the same way. */
  lemma {:induction false} FormsAgreeWithoutReply(err: Failure)
    requires err.OtherFailure? || err.response.None?
    ensures SignupErrorMessage(err) == LoginErrorMessage(err)
  {
  }

  /** The login message depends on the reply's status only, never on the message text. */
  lemma {:induction false} LoginMessageIgnoresText(status: int, m1: string, m2: string)
    ensures LoginErrorMessage(ClientError(Some(Reply(status, Obj([("message", Str(m1))]))))) ==
            LoginErrorMessage(ClientError(Some(Reply(status, Obj([("message", Str(m2))])))))
  {
  }
}
