# mini-users-api in Dafny

A model of the core of mini-users-api, a small Express and SQLite user
service with a React front end, together with proofs about that model.

**The refresh-session state machine.**
- Login opens one row in the `sessions` table for the refresh token it
  issues.
- Refresh redeems that row once. It deletes the row, checks the delete
  count, and opens a fresh row.
- Logout deletes the row.
- These handlers are in `auth_controller.dfy`. The statements they run
  against the `users`, `user_auth` and `sessions` tables are in
  `auth_store.dfy`.
- Each handler and each statement is a pure function from the tables
  before to the tables after, plus the reply.
- A class (`AuthStore.Database`, `AuthController.AuthController`) holds
  the tables and runs the same steps in place. Each of its methods is
  proved against its function.

**The account handlers.** `users_controller.dfy` covers, in the same style:
- listing users;
- reading and patching one's profile;
- deleting the account;
- changing the password.

**The pure pieces around them.**
- The request validators (`validators.dfy`) and their first revision
  (`legacy_validators.dfy`).
- The input patterns (`patterns.dfy`). Each regular expression is written
  as a predicate that follows the expression's structure. A lemma beside it
  states which strings it accepts.
- The sign-up form's field checks (`field_validation.dfy`).
- The two error middlewares (`errors.dfy`, `legacy_errors.dfy`), which turn
  a thrown value into one status and one message.
- The form's error messages (`error_messages.dfy`).
- Token construction (`tokens.dfy`).
- The Basic-auth middleware (`basic_auth.dfy`). It relies on Node's
  lenient base64 decoder (`base64.dfy`).
- The browser script's HTML escaper and user-list check (`render.dfy`).

**The JavaScript built-ins used.** `text.dfy` and `js.dfy` hold:
- `trim`, `toLowerCase`, `split` and `includes`;
- JSON values with their own properties in key order;
- `Number`.

**What the model takes as parameters.** The clock (`nowMs`, milliseconds),
the random UUID (`freshId`), the bcrypt salt and the signed-in user
(`req.user.id`) are parameters.

**Tokens and password hashes.** A token is a record of its signing key,
its claims, and its issue and expiry times. A password hash records the
password it was made from.

**Which revision.** The repository holds two revisions of the server:
`src/` and `backend/src/`. The handlers follow `src/`, with three pieces
taken from `backend/src/`:
- `dbGetUsernameAndId`, which only `backend/src/database/usersQueries.ts`
  defines;
- the mapping of SQLite `UNIQUE` errors to `SqliteError`
  (backend/src/database/usersQueries.ts:20-33), so a duplicate sign-up is
  a 400 `Username already exists` or `Email already in use`;
- `allowedKeysCreds`, which only `backend/src/myTypes/types.ts:89` defines.

**The refresh claims.** These carry the user id under the name `userId`,
as `backend/src/utils/jwtToken.ts` writes it. The refresh handler reads
that claim. `src/controllers/authController.ts:207` reads `id` instead,
which the token module of this revision never sets. The model reads the
claim that is set.

**The signature of `generateJwtToken`.** The model takes
`generateJwtToken(id, username, sessionId?)`, the shape the controller
calls. `backend/src/utils/jwtToken.ts:17-21` takes a `UserPayload` object
as its second argument instead. Only that object's `username` is used.

## Model

| member | source | states |
|---|---|---|
| Text.Trim | src/utils/validators.ts:15-18 | the result is a contiguous piece of the input with no whitespace at either end, and is empty exactly when the input is all whitespace |
| Text.TrimIdempotent | src/utils/validators.ts:69 | trimming a trimmed string changes nothing |
| Text.ToLower | src/utils/validators.ts:18 | same length; each character lower-cased, others kept |
| Text.ToLowerIdempotent | frontend/src/utils/errorHandlers.ts:45 | lower-casing twice is lower-casing once |
| Text.Split | src/middleware/auth.ts:26 | `split` gives one more field than there are separators, no field holds the separator, and joining the fields gives the input back |
| Text.Field | src/middleware/auth.ts:20 | element k of `split` exists exactly when k is at most the separator count |
| Text.FirstField | src/utils/validators.ts:42 | the first field is everything before the first separator (the whole string without one) |
| Text.SecondField | src/middleware/auth.ts:26 | the second field runs from after the first separator to the next one |
| Js.Keys | src/utils/validators.ts:155 | `Object.keys` lists each own property's key in order |
| Js.Get | src/utils/validators.ts:192 | `obj[key]` is `undefined` when the object has no property with that key |
| Js.GetFirst | src/utils/validators.ts:192 | otherwise it is the value stored with the first property carrying that key |
| Js.Put | src/utils/validators.ts:195 | an assignment sets that key, keeps every other key's value, and keeps key order (a new key goes last) |
| Js.JsObject.Set | src/utils/validators.ts:195 | the object's properties become the `Put` of the old ones |
| Js.ParseNumber | src/utils/validators.ts:120 | `Number(s)` ignores surrounding whitespace: blank is 0, a run of decimal digits is its value, a `+` or `-` before such a run gives the value with that sign, and everything else, exactly, is `NaN` |
| Patterns.UsernameRegexMeaning | src/myTypes/types.ts:29 | `usrnameRegex` accepts exactly non-empty strings whose first and last characters are ASCII letters or digits and whose inner characters are in `[a-zA-Z0-9._-]` |
| Patterns.UsernameRegexSingle | src/myTypes/types.ts:29 | a single letter or digit matches |
| Patterns.EmailRegexOneAt | src/myTypes/types.ts:30 | an address `emailRegex` accepts holds exactly one `@` |
| Patterns.EmailDomainHasNoAt | src/myTypes/types.ts:30 | no `@` follows the one the pattern matches |
| Patterns.EmailAtIsFirst | src/myTypes/types.ts:30 | the matched `@` is the first one and is not at the start |
| Patterns.EmailRegexTopLevel | src/myTypes/types.ts:30 | an accepted address ends with `.` and at least two ASCII letters, after the `@` |
| Patterns.PasswordRegexMeaning | src/myTypes/types.ts:31-32 | `passwordRegex` accepts exactly strings of 8 or more characters, with no line terminator, that contain a lower-case letter, an upper-case letter, a digit and a listed special character |
| Patterns.PasswordRegexRejectsLineTerminator | src/myTypes/types.ts:31-32 | no password with a line terminator matches |
| Patterns.AllowedKeysAuthExtendsAllowedKeys | src/myTypes/types.ts:33-40 | `allowedKeysAuth` is `allowedKeys` plus `password`, and all entries are distinct |
| ErrorHandling.NewHttpError | backend/src/middleware/error.ts:6-11 | the status is recorded exactly when one is given |
| ErrorHandling.NewInputError | backend/src/middleware/error.ts:16-19 | an InputError carrying the message |
| ErrorHandling.NewSqliteError | backend/src/middleware/error.ts:25-31 | a SqliteError carrying the message and, when given, the code |
| ErrorHandling.ErrorHandler | backend/src/middleware/error.ts:46-65 | HttpError: its status (500 when unset) and its message; InputError and SqliteError: 400 with their message; any other Error: 500 `Error Occured`; a non-Error: 500 `Unknown internal issue` |
| ErrorHandling.OtherErrorsIndistinguishable | backend/src/middleware/error.ts:60-61 | two plain errors get the same reply whatever their messages |
| ErrorHandling.MessageExposedOnlyForKnownClasses | backend/src/middleware/error.ts:60-63 | an error outside the three classes is answered with 500 and one of the two generic texts |
| ErrorHandling.HttpErrorWithoutStatus | backend/src/middleware/error.ts:54-55 | an HttpError built without a status is answered with 500 and its own message |
| LegacyErrorHandling.NewHttpError | middleware/error.ts:6-10 | the `status` property is always set, to `undefined` when no status is given |
| LegacyErrorHandling.ErrorHandler | middleware/error.ts:23-36 | a value passing the structural test gets its status (500 when unset) and message; another Error gets 500 `Error Occured`; a non-Error gets 500 `Unknown internal issue` |
| LegacyErrorHandling.PlainErrorMessageExposed | middleware/error.ts:13-30 | a plain `Error` passes the structural test, so its message reaches the client with 500 |
| LegacyErrorHandling.HttpErrorWithoutStatusLosesMessage | middleware/error.ts:6-32 | `new HttpError(msg)` fails the structural test and is answered with 500 `Error Occured` |
| LegacyErrorHandling.HttpErrorWithStatus | middleware/error.ts:29-30 | an HttpError with a status is answered with that status and its message |
| LegacyErrorHandling.NonObjectsAreUnknown | middleware/error.ts:33-35 | null and non-objects give 500 `Unknown internal issue` |
| LegacyErrorHandling.ObjectLiteralWithStatus | middleware/error.ts:13-21 | any thrown object literal with a string `message` and a numeric `status` is answered with them |
| Validators.ValidateUserPassword | src/utils/validators.ts:170-177 | accepted exactly when the password, converted to a string, matches `passwordRegex`; otherwise an InputError |
| Validators.AcceptedPasswordIsTruthy | src/utils/validators.ts:54-58 | a password the pattern accepts is never falsy, so the "required" test never decides alone |
| Validators.CheckNewUser | src/utils/validators.ts:20-58 | every refusal is an InputError; an empty field gives `All fields must be filled` first |
| Validators.CheckNewUserMeaning | src/utils/validators.ts:14-61 | the trimmed fields are accepted exactly when they are valid field by field: username 3..30 and well-formed, names at most 20 and letters only, email split parts and lengths within bounds and matching the pattern, password matching its pattern |
| Validators.EmailFieldsOfMatch | src/utils/validators.ts:42 | for an address the pattern accepts, `split('@')` gives the non-empty parts before and after its one `@` |
| Validators.EmailSplitOkOfMatch | src/utils/validators.ts:42-52 | for such an address the split tests reduce to the three length bounds |
| Validators.Normalise | src/utils/validators.ts:15-18 | each field is trimmed; the email is also lower-cased, character by character, leaving no upper-case ASCII letter |
| Validators.TrimFieldsWritesBack | src/utils/validators.ts:15-18 | when all four fields are strings, each holds its normalised value afterwards, other keys keep their values, and no key is added except the four |
| Validators.ValidateUserInput | src/utils/validators.ts:14-61 | the body afterwards is the written-back body; the result is the checks on it, or a TypeError when a field is not a string |
| Validators.ValidateSingleField | src/utils/validators.ts:64-107 | `undefined` is refused and a non-string throws TypeError; a success returns the trimmed value of one of the four keys; per key: username 3..30 and well-formed, names at most 20 and letters only, email passes the split tests |
| Validators.SingleFieldIdempotent | src/utils/validators.ts:64-107 | a validated value validates again to itself |
| Validators.PatchEmailSkipsPattern | src/utils/validators.ts:91-103 | the patch check accepts `a@b`, an address with no top-level domain |
| Validators.SignupEmailRefusesNoDomain | src/utils/validators.ts:42-52 | the sign-up pattern refuses that same address |
| Validators.ValidateParamNumber | src/utils/validators.ts:110-127 | missing gives 10; a `.`, NaN or a negative value is refused with `Invalid Input: Expected A Number`; a success is the parsed non-negative value |
| Validators.ParamNumberDecimal | src/utils/validators.ts:120-126 | every natural number written in decimal is accepted as itself |
| Validators.ValidateUsernameString | src/utils/validators.ts:130-150 | accepted exactly when the trimmed value has 3..30 characters and matches the pattern; a success returns the trimmed value |
| Validators.UsernameChecksAgree | src/utils/validators.ts:130-150 | the route-parameter check agrees with the patch check on `username` |
| Validators.ValidateNewUserBody | src/utils/validators.ts:154-168 | accepted exactly when there are five keys, all sign-up fields; a success returns the body unchanged |
| Validators.NewUserBodyHasEveryField | src/utils/validators.ts:154-168 | an accepted body carries each sign-up field |
| Validators.ValidateLoginFields | src/utils/validators.ts:201-212 | a non-string username throws TypeError; accepted exactly when the trimmed username is 3..30 and well-formed and the password matches its pattern |
| Validators.ValidateLoginBody | src/utils/validators.ts:214-230 | accepted exactly when the body has two keys, both login fields, whose values pass the login field checks; a success returns the body as sent, and any other key count gives `Wrong number of fields` |
| Validators.LoginKeepsUntrimmedUsername | src/utils/validators.ts:201-230 | a padded username passes the check and is returned with its spaces |
| Validators.PatchFieldsKeepsKeys | src/utils/validators.ts:187-196 | an accepted patch keeps the keys and their order |
| Validators.PatchFieldsKeepsOthers | src/utils/validators.ts:187-196 | an accepted patch leaves every key it does not list unchanged |
| Validators.PatchFieldsWritesBack | src/utils/validators.ts:187-196 | after an accepted patch, each listed key holds the validated form of its original value |
| Validators.ValidateUserPatchBody | src/utils/validators.ts:180-199 | zero or more than four keys are refused untouched; otherwise the body and result are those of the field-by-field loop |
| LegacyValidators.ValidateUserInput | utils.ts:6-42 | accepted only when all three are strings |
| LegacyValidators.ValidateUserInputMeaning | utils.ts:6-42 | accepted exactly when the trimmed names are at most 20 letters and the trimmed address matches the pattern within the length bounds |
| LegacyValidators.AcceptedInputPassesPatchChecks | utils.ts:6-42 | whatever this revision accepts, the later patch check accepts field by field |
| LegacyValidators.ValidateParamNumber | utils.ts:45-59 | missing, a `.`, NaN and negative values give `undefined`; otherwise the parsed value |
| LegacyValidators.ParamNumberRevisionsAgree | utils.ts:45-59 | both revisions agree on a present parameter; only a missing one differs |
| LegacyValidators.ValidateUserBody | utils.ts:62-80 | accepted exactly with three keys among fname, lname and email; returns the object itself |
| LegacyValidators.ValidateUserPatchBody | utils.ts:83-101 | accepted exactly with one to three such keys; returns the object itself |
| LegacyValidators.BodyIsPatch | utils.ts:62-101 | every full body is an acceptable patch |
| LegacyValidators.UserBodyHasEveryField | utils.ts:62-80 | an accepted body carries each of the three fields |
| FieldValidation.ValidateUsername | frontend/src/utils/validation.ts:3-8 | `''` exactly when non-blank, the untrimmed input matches the pattern and it has at least 3 characters; otherwise one of three messages, `Username is required` when blank |
| FieldValidation.ShortUsernameGetsLengthMessage | frontend/src/utils/validation.ts:5-6 | a well-formed username of two characters gets the length message |
| FieldValidation.PaddedUsernameRefused | frontend/src/utils/validation.ts:5 | a leading space makes the pattern fail |
| FieldValidation.LongUsernamePasses | frontend/src/utils/validation.ts:3-8 | there is no upper length bound |
| FieldValidation.ValidateEmail | frontend/src/utils/validation.ts:10-14 | `''` exactly when non-blank and the untrimmed input matches the pattern; otherwise one of two messages |
| FieldValidation.ValidateEmailIsPattern | frontend/src/utils/validation.ts:10-14 | passing is exactly matching the pattern |
| FieldValidation.ValidateName | frontend/src/utils/validation.ts:16-20 | `''` exactly when non-blank and letters only; blank gives the label's "is required" message |
| FieldValidation.BlankNameDefaultLabel | frontend/src/utils/validation.ts:16-17 | with the default label, blank reads `Name is required` |
| FieldValidation.ValidatePassword | frontend/src/utils/validation.ts:22-37 | `''` exactly when at least 8 characters with an upper-case letter, a digit and a form special character; empty gives `Password is required` |
| FieldValidation.FormAcceptsPasswordServerRefuses | frontend/src/utils/validation.ts:22-37 | `ABCDEFG1!` passes the form but not the server's pattern, which also asks for a lower-case letter |
| ErrorMessages.FriendlyErrorMessage | frontend/src/utils/errorHandlers.ts:44-53 | `email` in the lower-cased message wins; then `username`; otherwise `Error occurred` |
| ErrorMessages.FriendlyIgnoresCase | frontend/src/utils/errorHandlers.ts:45 | letter case in the message makes no difference |
| ErrorMessages.FriendlyEmailPrefix | frontend/src/utils/errorHandlers.ts:44-53 | a message starting with `Email` gives the address-in-use text |
| ErrorMessages.SignupErrorMessage | frontend/src/utils/errorHandlers.ts:4-22 | a non-client error gives `Something went wrong`; no reply gives the network text; a string message goes through `friendlyErrorMessage`; otherwise the default |
| ErrorMessages.LoginErrorMessage | frontend/src/utils/errorHandlers.ts:24-42 | as for sign-up, except that a string message gives `User Does Not Exist` for 404 and `Wrong username or password` otherwise |
| ErrorMessages.FormsAgreeWithoutReply | frontend/src/utils/errorHandlers.ts:4-42 | both forms answer a non-client error and a lost connection alike |
| ErrorMessages.LoginMessageIgnoresText | frontend/src/utils/errorHandlers.ts:32-39 | the login message depends on the status only |
| PasswordHasher.HashUserPassword | src/auth/hash.ts:5-15 | the hash confirms the password it was made from |
| PasswordHasher.ConfirmOnlyOwnPassword | backend/src/auth/hash.ts:19-29 | a hash confirms its own password and no other |
| PasswordHasher.RehashStillConfirms | src/auth/hash.ts:5-15 | the salt makes no difference to confirmation |
| Tokens.Sign | backend/src/utils/jwtToken.ts:38-43 | the token carries the key and claims, and its lifetime is the one asked for |
| Tokens.Verify | src/controllers/authController.ts:202-205 | claims are returned exactly for a token signed with this key and not yet expired; otherwise a plain error |
| Tokens.SignVerify | src/controllers/authController.ts:153-156 | a token verifies with its own key until it expires, and never with another key |
| Tokens.GenerateJwtToken | backend/src/utils/jwtToken.ts:17-53 | fails with `Jwt Keys Not Loaded` exactly when a key is missing; a non-empty session id is kept, otherwise the fresh one is used; the access token is signed with the secret key and the refresh token with the refresh key |
| Tokens.IssuedPairAgrees | backend/src/utils/jwtToken.ts:25-46 | the refresh token's `userId` is the access token's `id`; both carry the username; the returned session id is the refresh token's; the access token carries no session id |
| Tokens.TokensNotInterchangeable | backend/src/utils/jwtToken.ts:38-43 | with distinct keys neither token of a pair verifies as the other |
| Tokens.Lifetimes | backend/src/utils/jwtToken.ts:38-43 | the access token lives one hour and the refresh token thirty days |
| AuthStore.AddNewUser | backend/src/database/usersQueries.ts:7-35 | a taken username gives `Username already exists`, then a taken email gives `Email already in use`; success returns the next id; the schema constraints are kept |
| AuthStore.UserByUsername | backend/src/database/usersQueries.ts:57-71 | the row with that username, `undefined` exactly when there is none |
| AuthStore.UserById | backend/src/database/usersQueries.ts:51-55 | the row with that id, `undefined` exactly when there is none |
| AuthStore.UserByIdFinds | backend/src/database/usersQueries.ts:51-55 | looking up a stored row's id finds that row |
| AuthStore.UsersPage | backend/src/database/usersQueries.ts:73-77 | the first `limit` rows, or all of them when there are fewer |
| AuthStore.UpdateUser | backend/src/database/usersQueries.ts:85-91 | a missing id returns 0 and changes nothing, whatever the new fields; for an existing id it fails, changing nothing, exactly when another user holds the username or email, and otherwise returns 1 with only that row changed; constraints kept |
| AuthStore.DeleteUser | backend/src/database/usersQueries.ts:79-83 | returns 1 when the user existed and 0 otherwise; the user's row, credential and sessions are gone; every other row stays; constraints kept |
| AuthStore.AddNewUserAuth | src/database/authQueries.ts:5-14 | succeeds exactly for an existing user without a credential, adding only that credential; otherwise nothing changes |
| AuthStore.UserPwdHash | src/database/authQueries.ts:28-35 | the stored hash, `undefined` exactly when the user has no credential |
| AuthStore.UpdateUserPwd | src/database/authQueries.ts:50-56 | returns 1 and changes only that user's hash and change time, or returns 0 and changes nothing |
| AuthStore.AddUserWithAuth | backend/src/database/usersQueries.ts:37-49 | the user's errors as for `dbAddNewUser`; success returns the new id; on a consistent database a failure changes nothing |
| AuthStore.AddUserWithAuthSucceeds | backend/src/database/usersQueries.ts:37-49 | on a consistent database a new user always gets its credential |
| AuthStore.AddSession | src/database/authQueries.ts:16-26 | succeeds exactly for a new session id of an existing user, returns 1 and appends exactly that row; otherwise nothing changes |
| AuthStore.SessionOf | src/database/authQueries.ts:37-42 | some row of that user, `undefined` exactly when there is none; expiry is not looked at |
| AuthStore.DeleteSession | src/database/authQueries.ts:44-48 | removes the rows with that id and returns how many went |
| AuthStore.DeleteSessionCount | src/database/authQueries.ts:44-48 | exactly one row goes when the id is present, none otherwise |
| AuthStore.DeleteSessionExact | src/database/authQueries.ts:44-48 | afterwards the id is gone and every other row remains |
| AuthStore.TwoSessionsForOneUser | backend/src/database/setup.ts:29-38 | a user may hold two sessions |
| AuthStore.SessionIdInsertedOnce | backend/src/database/setup.ts:32 | a session id can be inserted only once |
| AuthStore.Database.AddUserWithAuthStmt | backend/src/database/usersQueries.ts:37-49 | the tables and result are those of `AddUserWithAuth` |
| AuthStore.Database.GetUsernameAndId | backend/src/database/usersQueries.ts:57-65 | the row with that username when one is stored, `undefined` exactly when none is |
| AuthStore.Database.GetUserById | backend/src/database/usersQueries.ts:51-55 | the row with that id when one is stored, `undefined` exactly when none is |
| AuthStore.Database.UpdateUserStmt | backend/src/database/usersQueries.ts:85-91 | the tables and result are those of `UpdateUser` |
| AuthStore.Database.DeleteUserStmt | backend/src/database/usersQueries.ts:79-83 | the tables and result are those of `DeleteUser` |
| AuthStore.Database.GetUserPwdHash | src/database/authQueries.ts:28-35 | the stored hash of that user, `undefined` exactly when the user has no credential |
| AuthStore.Database.UpdateUserPwdStmt | src/database/authQueries.ts:50-56 | the tables and result are those of `UpdateUserPwd` |
| AuthStore.Database.AddSessionStmt | src/database/authQueries.ts:16-26 | the tables and result are those of `AddSession` |
| AuthStore.Database.GetSession | src/database/authQueries.ts:37-42 | a session row of that user, `undefined` exactly when the user has none |
| AuthStore.Database.DeleteSessionStmt | src/database/authQueries.ts:44-48 | the tables and result are those of `DeleteSession` |
| AuthController.CreateUserSpec | src/controllers/authController.ts:30-54 | success is a 201; on a consistent database a failure changes nothing |
| AuthController.CreateUserAddsOneUser | src/controllers/authController.ts:36-49 | a successful sign-up appends one user under the next id with the name in the reply, stores its credential, and opens no session |
| AuthController.LoginSpec | src/controllers/authController.ts:60-128 | a failed login changes nothing |
| AuthController.LoginSucceeds | src/controllers/authController.ts:60-128 | a well-formed login is answered 200 exactly when the named user has a stored hash that confirms the password, both keys are loaded, and the session row can be inserted: a non-empty fresh id not yet in the table and a refresh expiry other than 0 |
| AuthController.LoginFailuresIndistinguishable | src/controllers/authController.ts:72-89 | an unknown username, a missing hash and a wrong password give the same 401 `Invalid username or password`, and nothing else does |
| AuthController.IssueSession | src/controllers/authController.ts:90-122 | when token generation or the session insert fails, the tables are unchanged and the error goes to the generic handler |
| AuthController.IssueSessionOpensOne | src/controllers/authController.ts:90-122 | when it succeeds, the cookie holds a signed refresh token for the user, exactly one session row with that token's id and `exp` times 1000 is appended, and that expiry lies beyond the cookie's seven-day lifetime from now |
| AuthController.LoginOpensOneSession | src/controllers/authController.ts:96-123 | a successful login appends exactly one session row; its id and user are those of the refresh token in the cookie, and it expires at the token's `exp` times 1000 |
| AuthController.LoginLooksUpUntrimmedName | src/controllers/authController.ts:66-75 | a padded username is looked up as sent and fails with 401 |
| AuthController.LogoutSpec | src/controllers/authController.ts:135-178 | every logout failure is a plain error, so a 500 |
| AuthController.LogoutWithoutCookie | src/controllers/authController.ts:146-151 | without a cookie, logout succeeds and changes nothing |
| AuthController.LogoutDeletesOnlyItsSession | src/controllers/authController.ts:153-173 | with a valid token only that session's row goes and the cookie is cleared; deleting nothing is a 500 |
| AuthController.SecondLogoutFails | src/controllers/authController.ts:159-164 | a second logout with the same token is a 500 |
| AuthController.RefreshWithoutCookie | src/controllers/authController.ts:195-200 | without a cookie, refresh is a 401 and changes nothing |
| AuthController.RefreshRevoked | src/controllers/authController.ts:217-222 | a missing or mismatched row gives 403 and deletes nothing |
| AuthController.GoneSessionIsRevoked | src/controllers/authController.ts:217-222 | once a session id has no row, redeeming it gives 403 and changes nothing |
| AuthController.RefreshExpired | src/controllers/authController.ts:224-234 | an expired matching row is deleted with 401 `Session Expired`; retrying the same token gives 403 |
| AuthController.RefreshRotates | src/controllers/authController.ts:236-266 | success deletes exactly the redeemed row and appends one row for the fresh id expiring in seven days, named by the new refresh token; users and credentials are untouched; replaying the old token gives 403 |
| AuthController.RefreshSpec | src/controllers/authController.ts:184-271 | a success is a 200 that sets a seven-day cookie holding a refresh token for the fresh session id, whose row is then in the table; a failure that changed the tables is the expiry 401, a generic error or a database error |
| AuthController.RefreshSucceeds | src/controllers/authController.ts:184-271 | a verified refresh token whose session is the user's row and has not expired gets 200 and an access token for the token's user, when the access key is loaded and the fresh id is new |
| AuthController.NoIssueWithoutDeletion | src/controllers/authController.ts:236-240 | when the rotation delete removes nothing, no row is added and no token or cookie is issued |
| AuthController.LaterSessionOfUserRevoked | src/controllers/authController.ts:217-222 | a token for any session of a user other than their first row gets 403, though its row exists |
| AuthController.AuthController.CreateUser | src/controllers/authController.ts:30-54 | the database and reply are those of `CreateUserSpec` |
| AuthController.AuthController.Login | src/controllers/authController.ts:60-128 | the database and reply are those of `LoginSpec` |
| AuthController.AuthController.Logout | src/controllers/authController.ts:135-178 | the database and reply are those of `LogoutSpec` |
| AuthController.AuthController.Refresh | src/controllers/authController.ts:184-271 | the database and reply are those of `RefreshSpec` |
| UsersController.GetUsers | backend/src/controllers/usersController.ts:19-35 | succeeds exactly when the limit is valid, with a prefix of the users no longer than the limit (all of them when shorter); otherwise 400 |
| UsersController.DefaultLimitIsTen | backend/src/controllers/usersController.ts:26-30 | without a limit the first ten users are listed |
| UsersController.GetUserInfo | backend/src/controllers/usersController.ts:41-66 | 403 without a user; the user's own row exactly when it exists; 404 otherwise |
| UsersController.Merge | backend/src/controllers/usersController.ts:94 | each profile field is the patch's value when given, else the stored one; the id is kept |
| UsersController.ChangeUserInfoSpec | backend/src/controllers/usersController.ts:72-107 | success needs a signed-in user whose row exists; on a consistent database a failure changes nothing |
| UsersController.SaveProfile | backend/src/controllers/usersController.ts:96-100 | a failed save changes nothing |
| UsersController.ChangeUserInfoMerges | backend/src/controllers/usersController.ts:83-102 | success rewrites only the user's row: named fields hold their validated values, the others keep theirs, and everything else is untouched |
| UsersController.SavedRow | backend/src/database/usersQueries.ts:85-91 | after a save, the row's id finds the new row and nothing else changes |
| UsersController.MergedFieldNamed | backend/src/controllers/usersController.ts:83-94 | the merged row holds the validated value of each field the body names |
| UsersController.MergedFieldKept | backend/src/controllers/usersController.ts:94 | the merged row keeps every field the body does not name |
| UsersController.ProfileSaveFailsOnlyOnClash | backend/src/controllers/usersController.ts:96-100 | with the patch accepted and the row found, saving fails only on a username or email held by another user; the `Couldnt save users to db` branch is never taken |
| UsersController.DeleteUserSpec | backend/src/controllers/usersController.ts:113-138 | 401 without a user; success exactly when the user existed; a failure changes nothing |
| UsersController.DeleteUserCascades | backend/src/controllers/usersController.ts:126-133 | after deletion the user's row, credential and sessions are gone and everybody else's rows stay |
| UsersController.ChangePasswordSpec | backend/src/controllers/usersController.ts:144-201 | a failure changes nothing; with a body whose passwords differ, no signed-in user is a 401 'Not Authorized', and a signed-in user without a stored hash is a generic error answered with 500, the tables untouched |
| UsersController.PasswordBodyCheckedFirst | backend/src/controllers/usersController.ts:150-155 | a missing body is a 400 before anything else |
| UsersController.SamePasswordRefused | backend/src/controllers/usersController.ts:157-164 | equal passwords are refused before any lookup, with an HttpError without status, so 500 |
| UsersController.ChangePasswordOutcome | backend/src/controllers/usersController.ts:166-196 | the password changes exactly when the body is there, the passwords differ, a user is signed in, a hash is stored and the old password confirms; then only that credential changes and it confirms the new password and not the old; a wrong old password is a 400 |
| UsersController.UsersController.ChangeUserInfo | backend/src/controllers/usersController.ts:72-107 | the database and reply are those of `ChangeUserInfoSpec`; the body holds the written-back patch |
| UsersController.UsersController.DeleteUser | backend/src/controllers/usersController.ts:113-138 | the database and reply are those of `DeleteUserSpec` |
| UsersController.UsersController.ChangeUserPassword | backend/src/controllers/usersController.ts:144-201 | the database and reply are those of `ChangePasswordSpec` |
| Render.ReplaceChar | src/public/js/main.ts:93-98 | a string without the character comes back unchanged |
| Render.EscapeHtml | src/public/js/main.ts:92-99 | a string with none of the five special characters comes back unchanged |
| Render.EscapeHtmlChar | src/public/js/main.ts:92-99 | on one character the chain gives that character's entity |
| Render.EscapeHtmlIsEscapeEach | src/public/js/main.ts:92-99 | the chain of replacements is the same as escaping character by character |
| Render.EscapedHasNoMarkup | src/public/js/main.ts:92-99 | the output holds none of `<`, `>`, `"` and `'` |
| Render.EscapedLength | src/public/js/main.ts:92-99 | the output length is the input length plus 4 per `&`, 3 per `<` and `>`, and 5 per `"` and `'` |
| Render.EntityEscapedAgain | src/public/js/main.ts:94 | `&` is escaped first, so an entity already in the text is escaped again rather than kept |
| Render.UnescapeEscape | src/public/js/main.ts:92-99 | reading the entities back gives the original text |
| Render.UserOf | src/public/js/main.ts:76-87 | an element passes the test exactly when it describes a user, and the user's fields are the element's |
| Render.RowAccepted | src/public/js/main.ts:71-90 | a row as the server sends it, with any further columns, passes and describes that row |
| Render.UsersJsonAccepted | src/public/js/main.ts:71-90 | a page of users as the server sends it is accepted and read back as the same users |
| Render.IsUserShape | src/public/js/main.ts:76-87 | passes exactly the objects whose `id` is a number and whose `username`, `fname`, `lname` and `email` are strings; `null` and arrays fail |
| Render.IsUserArray | src/public/js/main.ts:71-90 | anything but an array fails, the empty array passes, and every element of a passing array is an object |
| Render.OneBadElementRejects | src/public/js/main.ts:71-90 | one element with a field missing or of the wrong type makes the whole list fail |
| Base64.SextetOf | src/middleware/auth.ts:21-24 | a character is skipped only when it is not a letter of the alphabet |
| Base64.Encode | src/middleware/auth.ts:21-24 | the encoder the decoder is held to: padded to a multiple of four characters, four per three bytes |
| Base64.BytesOf | src/middleware/auth.ts:21-24 | each group of four sextets gives three bytes; a leftover three give two, two give one, and one gives none |
| Base64.Decode | src/middleware/auth.ts:21-24 | the byte count follows from the letters kept, and is at most three quarters of the text plus two; a text starting with `=` decodes to nothing |
| Base64.DecodeEncode | src/middleware/auth.ts:21-24 | decoding an encoding gives the bytes back |
| Base64.DecodeStopsAtPad | src/middleware/auth.ts:21-24 | everything from the first `=` on is ignored |
| Base64.DecodeSkipsOthers | src/middleware/auth.ts:21-24 | a character outside both alphabets is skipped |
| Base64.UrlSafeAlphabet | src/middleware/auth.ts:21-24 | `-` and `_` decode like `+` and `/` |
| Base64.Utf8Decode | src/middleware/auth.ts:24 | one character per byte: an ASCII byte is itself, any other byte the replacement character |
| Base64.AsciiRoundTrip | src/middleware/auth.ts:21-24 | ASCII text survives encoding, decoding and reading back as UTF-8 |
| BasicAuth.BasicAuth | src/middleware/auth.ts:7-36 | a missing or empty header gets 401 `Authentication Required` with the challenge; every refusal is a 401 with the challenge; a one-word header throws |
| BasicAuth.OneWordHeaderIsServerError | src/middleware/auth.ts:20-24 | a header without a space throws a TypeError, answered with 500 |
| BasicAuth.FirstTwoFieldsAdmin | src/middleware/auth.ts:26-28 | the first two `:` fields are both `admin` exactly when the text starts with `admin:admin` followed by nothing or a further `:` |
| BasicAuth.AllowedExactly | src/middleware/auth.ts:20-31 | access is granted exactly when the second word decodes to such a text |
| BasicAuth.SchemeNotChecked | src/middleware/auth.ts:20 | any one-word scheme is treated like `Basic` |
| BasicAuth.CredentialsWord | src/middleware/auth.ts:20 | the credentials are the second space-separated word |
| BasicAuth.AdminTextAllowed | src/middleware/auth.ts:20-31 | the encoding of any such text, behind any scheme, is let through |
| BasicAuth.AdminAdminAllowed | src/middleware/auth.ts:28-31 | `Basic` and the encoding of `admin:admin` is let through |
| BasicAuth.WrongCredentialsDenied | src/middleware/auth.ts:33-35 | any other credentials get 401 `Invalid Credentials` with the challenge |
| BasicAuth.BasicAuthRfc | src/middleware/auth.ts:26-28 | every refusal is a 401 with the challenge |
| BasicAuth.RfcUserPassAdmin | src/middleware/auth.ts:26-28 | with the password taken as everything after the first `:`, both parts are `admin` exactly for `admin:admin` |
| BasicAuth.RfcAllowsOnlyAdminAdmin | src/middleware/auth.ts:26-28 | read as RFC 7617 defines it, access is granted only for `admin:admin` |
| BasicAuth.ExtraFieldAccepted | src/middleware/auth.ts:26-28 | `admin:admin:x` is let through as written and refused under RFC 7617 |

## Left out

- Password hashing: bcrypt's hash function, cost factor, 72-byte truncation and asynchrony are not modelled. A hash records its salt and its password.
- `confirmUserPassword` throwing `User Not Found` on an `undefined` hash (backend/src/auth/hash.ts:20-22) is not modelled. Both callers check for a missing hash first, so this branch is never reached.
- JWT signing, verification and decoding: the cryptography is not modelled. Malformed, forged and expired tokens all become the same plain error, as `jsonwebtoken` throws a plain `Error` for each.
- Login's "Couldnt get sessionId" branch (src/controllers/authController.ts:100-103) is kept in the model. It cannot fire there, because an issued refresh token always carries a session id and an expiry.
- Login's missing `return` after a failed session insert (src/controllers/authController.ts:113-115) is not modelled. The driver throws on a failed insert, so the insert never returns another count.
- UUIDs and the clock are parameters. Fresh ids are not assumed unique: an insert with an existing session id fails, as the primary key makes it.
- `Date` and ISO-8601 strings: expiry times are milliseconds since the epoch. The round trip through `toISOString` and `new Date` is exact at that resolution.
- Cookie attributes (`httpOnly`, `secure`, `sameSite`, `path`) are not modelled; only the cookie's value and its seven-day `maxAge` are.
- src/utils/jwtToken.ts is not part of this model. It is an older single-token wrapper whose return shape the controller does not use.
- `validatePwdPatchBody` comes from the backend's validators, which are not part of this model. Its outcome is a parameter: a password pair or nothing.
- The backend's own validators are not part of this model. Where the account handlers validate, src/utils/validators.ts stands in for them.
- The middleware that sets `req.user` is not modelled; the signed-in user's id is a parameter.
- `uploadUserAvatar` (backend/src/controllers/usersController.ts:207-239) is not modelled. It is file-system and multipart I/O.
- The columns `avatar_url`, `created_at` and `updated_at` are not modelled as fields. The user-list check sees them as a row's further columns.
- Requests run one after another. The row-count checks that guard against two concurrent refreshes are modelled sequentially: the second redemption is refused.
- Transactions: `dbAddUserWithAuth` runs two statements without one. The model keeps that order and never needs the second one to fail.
- PasswordRegexMeaning (Patterns.PasswordRegexMeaning, Patterns.PasswordRegex): a string here is a sequence of Unicode scalar values, but the non-`u` pattern's `.` and `{8,}` count UTF-16 code units. A character outside the Basic Multilingual Plane counts once here and twice in the source, so `Aa1!😀😀x` (7 characters, 9 code units) is refused here and accepted by the source.
- FieldValidation.ValidatePassword: `password.length >= 8` is counted in characters, not UTF-16 code units, so `A1!😀😀😀` passes the form in the source and fails it here.
- Validators.CheckNewUser: its length tests count characters, not UTF-16 code units. On input with characters outside the Basic Multilingual Plane, a different message can come first: for the username `a😀` the model gives the length message and the source gives `Username contains invalid characters`. Acceptance differs only through the password pattern above, since the other patterns admit ASCII only.
- Validators.ValidateSingleField: the email branch measures `local.length <= 64`, `domain.length <= 253` and `value.length <= 254` in characters, where the source counts UTF-16 code units. A character outside the Basic Multilingual Plane counts once here and twice in the source. So 33 copies of U+1F600 followed by `@x` (a local part of 33 characters, 66 code units) is accepted here and refused with `Invalid Email` by the source. The other branches admit ASCII only, so their outcome is the same. Validators.PatchFields, Validators.ValidateUserPatchBody and UsersController.ChangeUserInfoSpec inherit this difference.
- Validators.ValidateUsernameString: the 3..30 range test counts characters, not UTF-16 code units. Acceptance is unaffected, because the pattern admits ASCII only. The message can differ: for `a😀` the model gives `Invalid Username: Must Be Within The Allowed Range`, and the source, which counts 3 code units, gives `Invalid Username: Contains Disallowed Characters`.
- Js.ParseNumber: only decimal integers are modelled. Fractions, exponents, hexadecimal, `Infinity` and floating-point rounding of `Number()` are not.
- Validators.ValidateParamNumber: a limit written with an exponent, in hexadecimal or as `Infinity` (`1e3`, `0x10`, `Infinity`) is treated as `NaN` and refused. The source accepts each of them, since `Number` gives a number that is neither `NaN` nor negative.
- Text.ToLower: only ASCII letters are lower-cased. The source's `toLowerCase` maps every Unicode upper-case letter.
- FieldValidation.ValidateName: the Unicode letter property `\p{L}` is a parameter `isLetter` rather than a table.
- Base64.Utf8Decode: every non-ASCII byte becomes one replacement character. Valid multibyte sequences are not combined into one character. Access is decided only for the ASCII credentials `admin`, so the decision is unaffected.
- Render.Unescape: this is a single left-to-right pass over the five entities, not a chain of five `replace` calls with `&amp;` last. On escaped text the two agree.
- The DOM code of src/public/js/main.ts (`renderUsers`, `showUsers`, `setup`) is not modelled. It is browser I/O.
- Logging (`console.log`, `console.error`) is not modelled.
- Numbers are unbounded integers. The source's `number` cannot tell 2^53 from 2^53 + 1; the model ignores that limit.

## Findings

| source | as written | input that shows it | evidently intended | confidence | as-written member | corrected member |
|---|---|---|---|---|---|---|
| src/middleware/auth.ts:26-28 | only the first two `:`-separated fields of the decoded credentials are compared | `Basic ` followed by the base64 of `admin:admin:x` is let through | the password is everything after the first `:` (section 2 of RFC 7617), so `admin:x` is refused | medium; not executed | BasicAuth.ExtraFieldAccepted | BasicAuth.BasicAuthRfc |
