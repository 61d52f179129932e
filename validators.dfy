/**
 * The backend's request validators. Each either returns the accepted value
 * or throws an `InputError` carrying the message the client will see; a
 * string method called on a value that is not a string throws a `TypeError`
 * instead. `validateUserInput` and `validateUserPatchBody` write the trimmed
 * fields back into the request body they are given.
 */
module Validators {
  import opened Wrappers
  import opened Text
  import opened Js
  import opened Patterns
  import opened ErrorHandling

  /** The fields of a signup body once trimmed; the password is whatever value was sent. */
  datatype NewUser = NewUser(username: string, fname: string, lname: string, email: string, password: Value)

  // The messages of the `InputError`s thrown below, spelled as the client sees them.
  const FieldsNotFilled := "All fields must be filled"
  const UsernameLength := "Username should be between 3 and 30 characters"
  const NameLength := "First and last names must be at most 20 characters"
  const UsernameChars := "Username contains invalid characters"
  const NameChars := "Name contains invalid characters"
  const InvalidEmailAddress := "Invalid email address"
  const PasswordMissing := "Password is required"
  const InvalidInput := "Invalid Input"
  const UsernameNotAllowed := "Username Not Allowed"
  const InvalidNameFields := "Invalid Name Fields"
  const InvalidEmail := "Invalid Email"
  const UnhandledKey := "Something Went Wrong"
  const ExpectedNumber := "Invalid Input: Expected A Number"
  const ExpectedString := "Invalid Username: Expected A String"
  const UsernameOutOfRange := "Invalid Username: Must Be Within The Allowed Range"
  const UsernameDisallowed := "Invalid Username: Contains Disallowed Characters"
  const RequiredFieldsMissing := "Please Provide All Required Fields"
  const InvalidFieldNames := "Invalid Field Names Provided"
  const WrongUsernameFormat := "Wrong Username Format"
  const WrongPasswordFormat := "Wrong Password Format"
  const WrongFieldCount := "Wrong number of fields"
  const WrongFieldNames := "Wrong field names"
  const PatchFieldCount := "Please Provide Correct Nubmer Of Fields"

  /**
   * `const [local, domain] = email.split('@')` followed by the truthiness and
   * length tests on the two parts and on the whole address.
   */
  predicate EmailSplitOk(email: string) {
    var local := Field(email, '@', 0);
    var domain := Field(email, '@', 1);
    && local.Some? && local.value != "" && |local.value| <= 64
    && domain.Some? && domain.value != "" && |domain.value| <= 253
    && |email| <= 254
  }

  /** `validateUserPassword`: `passwordRegex.test` converts a non-string to a string first. */
  function ValidateUserPassword(pwd: Value): (r: Result<(), Thrown>)
    ensures r.Ok? <==> PasswordRegex(ToJsString(pwd))
    ensures r.Err? ==> r.error.InputError?
  {
    if PasswordRegex(ToJsString(pwd)) then Ok(())
    else Err(InputError(WeakPassword))
  }

  /** The message for a refused password, with the source's missing space after "characters". */
  const WeakPassword := "Password must be at least 8 characterslong and include an uppercase letter, a number, and a special character."

  /** No value that converts to a password the pattern accepts is falsy, so the "required" test never decides alone. */
  lemma {:induction false} AcceptedPasswordIsTruthy(pwd: Value)
    requires PasswordRegex(ToJsString(pwd))
    ensures Truthy(pwd)
  {
    var s := ToJsString(pwd);
    PasswordRegexMeaning(s);
    match pwd
    case Undefined => LowerOnly(s);
    case Null => LowerOnly(s);
    case Bool(b) => if !b { LowerOnly(s); }
    case Num(n) => if n == 0 { assert false; }
    case Str(_) =>
    case Arr(_) =>
    case Obj(_) =>
  }

  /** A string of lower-case letters holds no upper-case one. */
  lemma {:induction false} LowerOnly(s: string)
    requires forall k :: 0 <= k < |s| ==> IsAsciiLower(s[k])
    ensures !HasCharIn(s, IsAsciiUpper)
  {
  }

  /**
   * The checks of `validateUserInput` after trimming, in their order: all
   * four fields filled, username length, name lengths, username pattern,
   * name pattern, the email tests, a password present, the password pattern.
   */
  function CheckNewUser(n: NewUser): (r: Result<(), Thrown>)
    ensures r.Err? ==> r.error.InputError?
    ensures n.username == [] || n.fname == [] || n.lname == [] || n.email == [] ==>
              r == Err(InputError(FieldsNotFilled))
  {
    if n.username == [] || n.fname == [] || n.lname == [] || n.email == [] then
      Err(InputError(FieldsNotFilled))
    else if |n.username| > 30 || |n.username| < 3 then
      Err(InputError(UsernameLength))
    else if |n.fname| > 20 || |n.lname| > 20 then
      Err(InputError(NameLength))
    else if !UsernameRegex(n.username) then
      Err(InputError(UsernameChars))
    else if !NameRegex(n.fname) || !NameRegex(n.lname) then
      Err(InputError(NameChars))
    else if !EmailSplitOk(n.email) || !EmailRegex(n.email) then
      Err(InputError(InvalidEmailAddress))
    else if !Truthy(n.password) then
      Err(InputError(PasswordMissing))
    else
      ValidateUserPassword(n.password)
  }

  /** What an accepted signup looks like, stated field by field. */
  predicate ValidNewUser(n: NewUser) {
    && 3 <= |n.username| <= 30 && UsernameRegex(n.username)
    && |n.fname| <= 20 && NameRegex(n.fname)
    && |n.lname| <= 20 && NameRegex(n.lname)
    && |n.email| <= 254 && EmailRegex(n.email)
    && '@' in n.email && IndexOf(n.email, '@') <= 64 && |n.email| - IndexOf(n.email, '@') - 1 <= 253
    && PasswordRegex(ToJsString(n.password))
  }

  /** For an address the pattern accepts, the split parts are what precedes and what follows its one `@`. */
  lemma {:induction false} EmailFieldsOfMatch(email: string)
    requires EmailRegex(email)
    ensures '@' in email
    ensures Field(email, '@', 0) == Some(email[..IndexOf(email, '@')])
    ensures Field(email, '@', 1) == Some(email[IndexOf(email, '@') + 1..])
    ensures 0 < IndexOf(email, '@') < |email| - 1
  {
    var at :| 0 < at < |email| && EmailMatchAt(email, at);
    EmailAtIsFirst(email, at);
    EmailRegexTopLevel(email);
    EmailRegexOneAt(email);
    CountOneAfterFirst(email, '@');
    FirstField(email, '@');
    SecondField(email, '@');
  }

  /** For an address the pattern accepts, the split tests come down to the lengths around its `@`. */
  lemma {:induction false} EmailSplitOkOfMatch(email: string)
    requires EmailRegex(email)
    ensures '@' in email
    ensures EmailSplitOk(email) <==>
              IndexOf(email, '@') <= 64 && |email| - IndexOf(email, '@') - 1 <= 253 && |email| <= 254
  {
    EmailFieldsOfMatch(email);
  }

  /** `validateUserInput` accepts the trimmed fields exactly when they are valid field by field. */
  lemma {:induction false} CheckNewUserMeaning(n: NewUser)
    ensures CheckNewUser(n).Ok? <==> ValidNewUser(n)
  {
    if CheckNewUser(n).Ok? {
      AcceptedIsValid(n);
    }
    if ValidNewUser(n) {
      ValidIsAccepted(n);
    }
  }

  lemma {:induction false} AcceptedIsValid(n: NewUser)
    requires CheckNewUser(n).Ok?
    ensures ValidNewUser(n)
  {
    EmailSplitOkOfMatch(n.email);
  }

  lemma {:induction false} ValidIsAccepted(n: NewUser)
    requires ValidNewUser(n)
    ensures CheckNewUser(n).Ok?
  {
    assert EmailSplitOk(n.email) by {
      EmailSplitOkOfMatch(n.email);
    }
    assert Truthy(n.password) by {
      AcceptedPasswordIsTruthy(n.password);
    }
    CheckNewUserPasses(n);
  }

  /** With every test of `CheckNewUser` met, it accepts. */
  lemma {:induction false} CheckNewUserPasses(n: NewUser)
    requires 3 <= |n.username| <= 30 && |n.fname| <= 20 && |n.lname| <= 20
    requires n.fname != [] && n.lname != [] && n.email != []
    requires UsernameRegex(n.username) && NameRegex(n.fname) && NameRegex(n.lname)
    requires EmailSplitOk(n.email) && EmailRegex(n.email)
    requires Truthy(n.password) && PasswordRegex(ToJsString(n.password))
    ensures CheckNewUser(n) == Ok(())
  {
  }

  /** The fields `validateUserInput` trims, in the order it trims them. */
  const UserInputFields: seq<string> := ["username", "fname", "lname", "email"]

  /** The value written back for a field: trimmed, and lower-cased too for the email. */
  function Normalise(key: string, s: string): (t: string)
    ensures key != "email" ==> t == Trim(s)
    ensures key == "email" ==> |t| == |Trim(s)| && forall k :: 0 <= k < |t| ==> t[k] == LowerChar(Trim(s)[k])
    ensures key == "email" ==> forall k :: 0 <= k < |t| ==> !IsAsciiUpper(t[k])
  {
    if key == "email" then ToLower(Trim(s)) else Trim(s)
  }

  /**
   * The body after the assignments `u.key = u.key.trim()` for `keys` in
   * order, and whether all of them ran: the first value that is not a string
   * stops the sequence, with the earlier fields already written back.
   */
  function TrimFields(props: seq<(string, Value)>, keys: seq<string>): (seq<(string, Value)>, bool)
    decreases |keys|
  {
    if keys == [] then (props, true)
    else
      var v := Get(props, keys[0]);
      if !v.Str? then (props, false)
      else TrimFields(Put(props, keys[0], Str(Normalise(keys[0], v.s))), keys[1..])
  }

  /**
   * When every field is a string, each listed field holds its normalised
   * original value afterwards, every other key keeps its value, and no key is
   * added beyond the listed ones.
   */
  lemma {:induction false} TrimFieldsWritesBack(props: seq<(string, Value)>, keys: seq<string>)
    requires forall i, j :: 0 <= i < j < |keys| ==> keys[i] != keys[j]
    requires TrimFields(props, keys).1
    decreases |keys|
    ensures var out := TrimFields(props, keys).0;
            && (forall k :: k in keys ==> Get(props, k).Str? && Get(out, k) == Str(Normalise(k, Get(props, k).s)))
            && (forall k :: k !in keys ==> Get(out, k) == Get(props, k))
            && (forall k :: k in Keys(out) ==> k in Keys(props) || k in keys)
  {
    if keys != [] {
      var k0 := keys[0];
      var v := Get(props, k0);
      var next := Put(props, k0, Str(Normalise(k0, v.s)));
      var rest := keys[1..];
      assert TrimFields(props, keys) == TrimFields(next, rest);
      TailDistinct(keys);
      TrimFieldsWritesBack(next, rest);
      var out := TrimFields(next, rest).0;
      HeadNotInTail(keys);
      forall k | k in keys ensures Get(props, k).Str? && Get(out, k) == Str(Normalise(k, Get(props, k).s)) {
        if k != k0 {
          assert k in rest;
          assert Get(next, k) == Get(props, k);
        }
      }
      assert forall k :: k in rest ==> k in keys;
    }
  }

  /** The value of a field known to be a string. */
  function StrOf(v: Value): string {
    if v.Str? then v.s else ""
  }

  /** The signup record read from the body after the write-back. */
  function NewUserOf(props: seq<(string, Value)>): NewUser {
    NewUser(StrOf(Get(props, "username")), StrOf(Get(props, "fname")), StrOf(Get(props, "lname")),
            StrOf(Get(props, "email")), Get(props, "password"))
  }

  /**
   * `validateUserInput(u)`: trims the four fields into `u` one after the
   * other, then runs the checks of `CheckNewUser` on them.
   */
  method ValidateUserInput(u: JsObject) returns (r: Result<(), Thrown>)
    modifies u
    ensures var (props, allStrings) := TrimFields(old(u.props), UserInputFields);
            && u.props == props
            && r == (if allStrings then CheckNewUser(NewUserOf(props)) else Err(TypeError))
  {
    var i := 0;
    while i < |UserInputFields|
      invariant 0 <= i <= |UserInputFields|
      invariant TrimFields(old(u.props), UserInputFields) == TrimFields(u.props, UserInputFields[i..])
    {
      var key := UserInputFields[i];
      var v := Get(u.props, key);
      if !v.Str? {
        return Err(TypeError);
      }
      u.Set(key, Str(Normalise(key, v.s)));
      i := i + 1;
    }
    r := CheckNewUser(NewUserOf(u.props));
  }

  /**
   * `validateSingleField`: `undefined` is refused, a non-string throws on
   * `trim`, and the trimmed value is returned when the key's tests pass.
   */
  function ValidateSingleField(key: string, value: Value): (r: Result<string, Thrown>)
    ensures value.Undefined? ==> r == Err(InputError(InvalidInput))
    ensures !value.Undefined? && !value.Str? ==> r == Err(TypeError)
    ensures r.Ok? ==> value.Str? && r.value == Trim(value.s) && key in AllowedKeys
    ensures value.Str? && key == "username" ==>
              (r.Ok? <==> 3 <= |Trim(value.s)| <= 30 && UsernameRegex(Trim(value.s)))
    ensures value.Str? && (key == "fname" || key == "lname") ==>
              (r.Ok? <==> |Trim(value.s)| <= 20 && NameRegex(Trim(value.s)))
    ensures value.Str? && key == "email" ==> (r.Ok? <==> EmailSplitOk(Trim(value.s)))
  {
    if value.Undefined? then Err(InputError(InvalidInput))
    else if !value.Str? then Err(TypeError)
    else
      var v := Trim(value.s);
      if key == "username" then
        if UsernameRegex(v) && |v| <= 30 && |v| >= 3 then Ok(v) else Err(InputError(UsernameNotAllowed))
      else if key == "fname" || key == "lname" then
        if NameRegex(v) && |v| <= 20 then Ok(v) else Err(InputError(InvalidNameFields))
      else if key == "email" then
        if EmailSplitOk(v) then Ok(v) else Err(InputError(InvalidEmail))
      else Err(InputError(UnhandledKey))
  }

  /** A validated field validates again to itself: writing it back is idempotent. */
  lemma {:induction false} SingleFieldIdempotent(key: string, value: Value)
    requires ValidateSingleField(key, value).Ok?
    ensures var v := ValidateSingleField(key, value).value;
            ValidateSingleField(key, Str(v)) == Ok(v)
  {
    TrimIdempotent(value.s);
  }

  /** `trim` leaves a string alone when its ends are not whitespace. */
  lemma {:induction false} TrimUnpadded(s: string)
    requires s != [] && !IsJsWhitespace(s[0]) && !IsJsWhitespace(s[|s| - 1])
    ensures Trim(s) == s
  {
    assert LeadingWs(s) == 0;
    assert TrailingWs(s) == 0;
    assert s[0..|s|] == s;
  }

  /** The patch check on `email` applies no pattern: an address without a top-level domain gets through. */
  lemma {:induction false} PatchEmailSkipsPattern()
    ensures ValidateSingleField("email", Str("a@b")) == Ok("a@b")
  {
    var s := "a@b";
    assert s[0] == 'a' && s[|s| - 1] == 'b';
    TrimUnpadded(s);
    SplitOkNoDomain(s);
    var r := ValidateSingleField("email", Str(s));
    assert r.Ok? && r.value == Trim(s);
  }

  lemma {:induction false} SplitOkNoDomain(s: string)
    requires s == "a@b"
    ensures EmailSplitOk(s)
  {
    assert s[0] == 'a' && s[1] == '@' && s[2] == 'b';
    assert IndexOf(s, '@') == 1;
    FirstField(s, '@');
    SecondField(s, '@');
    assert s[..1] == "a";
    var rest := s[2..];
    assert rest == "b" && '@' !in rest;
  }

  /** The signup check refuses that same address, which ends in no `.` and letters. */
  lemma {:induction false} SignupEmailRefusesNoDomain()
    ensures !EmailRegex("a@b")
  {
    var s := "a@b";
    if EmailRegex(s) {
      EmailRegexTopLevel(s);
    }
  }

  /** `validateParamNumber`: a missing parameter is 10; a `.`, `NaN` or a negative value is refused. */
  function ValidateParamNumber(param: Option<string>): (r: Result<int, Thrown>)
    ensures param.None? ==> r == Ok(10)
    ensures param.Some? && '.' in param.value ==> r.Err?
    ensures r.Ok? ==> r.value >= 0
    ensures r.Err? ==> r == Err(InputError(ExpectedNumber))
    ensures param.Some? && r.Ok? ==> ParseNumber(param.value) == IntValue(r.value)
  {
    if param.None? then Ok(10)
    else if '.' in param.value then Err(InputError(ExpectedNumber))
    else
      var n := ParseNumber(param.value);
      if n.NaN? || n.v < 0 then Err(InputError(ExpectedNumber)) else Ok(n.v)
  }

  /** The value of the decimal digits of `n` is `n`. */
  lemma {:induction false} DigitsValueOfDecimal(n: nat)
    ensures AllDigits(NatToDecimal(n)) && DigitsValue(NatToDecimal(n)) == n
  {
    var s := NatToDecimal(n);
    if n >= 10 {
      DigitsValueOfDecimal(n / 10);
      assert s[..|s| - 1] == NatToDecimal(n / 10);
    }
  }

  /** A string of digits has nothing for `trim` to strip. */
  lemma {:induction false} TrimDigits(s: string)
    requires AllDigits(s)
    ensures Trim(s) == s
  {
    if s != [] {
      assert LeadingWs(s) == 0;
      assert TrailingWs(s) == 0;
      assert s[0..|s|] == s;
    } else {
      assert AllWhitespace(s);
    }
  }

  /** Every natural number written in decimal is accepted as itself. */
  lemma {:induction false} ParamNumberDecimal(n: nat)
    ensures ValidateParamNumber(Some(NatToDecimal(n))) == Ok(n)
  {
    var s := NatToDecimal(n);
    DigitsValueOfDecimal(n);
    TrimDigits(s);
    assert '.' !in s by {
      forall k | 0 <= k < |s| ensures s[k] != '.' { }
    }
  }

  /** `validateUsernameString`: the trimmed username, refused when too short, too long or ill-formed. */
  function ValidateUsernameString(param: Option<string>): (r: Result<string, Thrown>)
    ensures r.Ok? <==> param.Some? && 3 <= |Trim(param.value)| <= 30 && UsernameRegex(Trim(param.value))
    ensures r.Ok? ==> r.value == Trim(param.value)
    ensures r.Err? ==> r.error.InputError?
  {
    if param.None? then Err(InputError(ExpectedString))
    else
      var t := Trim(param.value);
      if |t| < 3 || |t| > 30 then Err(InputError(UsernameOutOfRange))
      else if !UsernameRegex(t) then Err(InputError(UsernameDisallowed))
      else Ok(t)
  }

  /** The route-parameter check on a username agrees with the patch check on a `username` field. */
  lemma {:induction false} UsernameChecksAgree(s: string)
    ensures ValidateUsernameString(Some(s)).Ok? <==> ValidateSingleField("username", Str(s)).Ok?
    ensures ValidateUsernameString(Some(s)).Ok? ==>
              ValidateUsernameString(Some(s)).value == ValidateSingleField("username", Str(s)).value
  {
  }

  /** Every key of `props` is among `allowed`. */
  predicate KeysAmong(props: seq<(string, Value)>, allowed: seq<string>) {
    forall k :: k in Keys(props) ==> k in allowed
  }

  /** `validateNewUserBody`: exactly five keys, each one of the signup fields. */
  function ValidateNewUserBody(props: seq<(string, Value)>): (r: Result<seq<(string, Value)>, Thrown>)
    ensures r.Ok? ==> r.value == props
    ensures |props| != 5 ==> r == Err(InputError(RequiredFieldsMissing))
    ensures r.Ok? <==> |props| == 5 && KeysAmong(props, AllowedKeysAuth)
  {
    if |Keys(props)| != 5 then Err(InputError(RequiredFieldsMissing))
    else if !KeysAmong(props, AllowedKeysAuth) then Err(InputError(InvalidFieldNames))
    else Ok(props)
  }

  /** A sequence without repeats has as many distinct elements as entries. */
  lemma {:induction false} DistinctCard(s: seq<string>)
    requires forall i, j :: 0 <= i < j < |s| ==> s[i] != s[j]
    ensures |set x | x in s| == |s|
  {
    if s != [] {
      DistinctCard(s[1..]);
      assert (set x | x in s) == {s[0]} + (set x | x in s[1..]);
      assert s[0] !in (set x | x in s[1..]);
    }
  }

  /** A subset as large as the whole is the whole. */
  lemma {:induction false} SubsetSameSize(a: set<string>, b: set<string>)
    requires a <= b && |a| == |b|
    ensures a == b
  {
    assert |b - a| == |b| - |a|;
  }

  /** An accepted signup body of a real object carries each signup field exactly once. */
  lemma {:induction false} NewUserBodyHasEveryField(props: seq<(string, Value)>)
    requires DistinctKeys(props)
    requires ValidateNewUserBody(props).Ok?
    ensures forall k :: k in AllowedKeysAuth <==> k in Keys(props)
  {
    var ks := Keys(props);
    assert forall i, j :: 0 <= i < j < |ks| ==> ks[i] != ks[j];
    DistinctCard(ks);
    AllowedKeysAuthExtendsAllowedKeys();
    DistinctCard(AllowedKeysAuth);
    var present := set x | x in ks;
    var allowed := set x | x in AllowedKeysAuth;
    assert present <= allowed;
    SubsetSameSize(present, allowed);
    forall k | k in AllowedKeysAuth ensures k in ks {
      assert k in allowed;
    }
  }

  /**
   * `validateLoginFields`: the trimmed username must be a well-formed
   * username of 3 to 30 characters and the password must match its pattern.
   */
  function ValidateLoginFields(username: Value, password: Value): (r: Result<(), Thrown>)
    ensures !username.Str? ==> r == Err(TypeError)
    ensures r.Ok? <==> username.Str? && 3 <= |Trim(username.s)| <= 30 && UsernameRegex(Trim(username.s))
                       && PasswordRegex(ToJsString(password))
  {
    if !username.Str? then Err(TypeError)
    else
      var u := Trim(username.s);
      if !UsernameRegex(u) || u == [] || |u| > 30 || |u| < 3 then Err(InputError(WrongUsernameFormat))
      else if !PasswordRegex(ToJsString(password)) then Err(InputError(WrongPasswordFormat))
      else Ok(())
  }

  /** `validateLoginBody`: exactly two keys, each a login field, and well-formed fields; the body comes back as sent. */
  function ValidateLoginBody(props: seq<(string, Value)>): (r: Result<seq<(string, Value)>, Thrown>)
    ensures r.Ok? ==> r.value == props
    ensures |props| != 2 ==> r == Err(InputError(WrongFieldCount))
    ensures r.Ok? <==> |props| == 2 && KeysAmong(props, AllowedKeysCreds)
                       && ValidateLoginFields(Get(props, "username"), Get(props, "password")).Ok?
  {
    if |Keys(props)| != 2 then Err(InputError(WrongFieldCount))
    else if !KeysAmong(props, AllowedKeysCreds) then Err(InputError(WrongFieldNames))
    else
      match ValidateLoginFields(Get(props, "username"), Get(props, "password"))
      case Err(e) => Err(e)
      case Ok(_) => Ok(props)
  }

  /** A username sent with surrounding spaces passes the check and is returned with its spaces. */
  lemma {:induction false} LoginKeepsUntrimmedUsername(name: string, password: string)
    requires 3 <= |name| <= 30 && UsernameRegex(name)
    requires PasswordRegex(password)
    ensures var props := [("username", Str(" " + name + " ")), ("password", Str(password))];
            ValidateLoginBody(props) == Ok(props) && Get(props, "username") != Str(name)
  {
    var padded := " " + name + " ";
    var props := [("username", Str(padded)), ("password", Str(password))];
    assert Keys(props) == ["username", "password"];
    assert KeysAmong(props, AllowedKeysCreds);
    assert Get(props, "username") == Str(padded);
    assert Get(props, "password") == Str(password) by {
      assert Get(props[1..], "password") == Str(password);
    }
    LoginFieldsPadded(name, password);
    assert |padded| != |name|;
  }

  lemma {:induction false} LoginFieldsPadded(name: string, password: string)
    requires 3 <= |name| <= 30 && UsernameRegex(name)
    requires PasswordRegex(password)
    ensures ValidateLoginFields(Str(" " + name + " "), Str(password)) == Ok(())
  {
    UsernameRegexMeaning(name);
    AlnumNotWhitespace(name[0]);
    AlnumNotWhitespace(name[|name| - 1]);
    TrimPadded(name);
    assert Trim(" " + name + " ") == name;
    assert ToJsString(Str(password)) == password;
  }

  lemma {:induction false} AlnumNotWhitespace(c: char)
    requires IsAsciiAlnum(c)
    ensures !IsJsWhitespace(c)
  {
  }

  /** One space on each side of a name that neither starts nor ends with whitespace is what `trim` removes. */
  lemma {:induction false} TrimPadded(name: string)
    requires name != [] && !IsJsWhitespace(name[0]) && !IsJsWhitespace(name[|name| - 1])
    ensures Trim(" " + name + " ") == name
  {
    var padded := " " + name + " ";
    assert LeadingWs(padded) == 1 by {
      assert LeadingWs(padded[1..]) == 0;
    }
    assert TrailingWs(padded[1..]) == 1 by {
      assert padded[1..][..|padded| - 2] == name + "";
      assert TrailingWs(name + "") == 0;
    }
    assert padded[1..|padded| - 1] == name;
  }

  /**
   * `validateUserPatchBody`'s loop, from the current body: each key must be
   * a user field, its current value is validated and the result written
   * back; the first failure stops the loop with the earlier writes kept.
   */
  function PatchFields(props: seq<(string, Value)>, keys: seq<string>): (out: (seq<(string, Value)>, Result<(), Thrown>))
    decreases |keys|
  {
    if keys == [] then (props, Ok(()))
    else if keys[0] !in AllowedKeys then (props, Err(InputError(InvalidFieldNames)))
    else match ValidateSingleField(keys[0], Get(props, keys[0]))
      case Err(e) => (props, Err(e))
      case Ok(v) => PatchFields(Put(props, keys[0], Str(v)), keys[1..])
  }

  /** An accepted patch of existing keys adds no key and keeps the key order. */
  lemma {:induction false} PatchFieldsKeepsKeys(props: seq<(string, Value)>, keys: seq<string>)
    requires forall k :: k in keys ==> k in Keys(props)
    requires PatchFields(props, keys).1.Ok?
    decreases |keys|
    ensures Keys(PatchFields(props, keys).0) == Keys(props)
  {
    if keys != [] {
      var k0 := keys[0];
      var next := Put(props, k0, Str(ValidateSingleField(k0, Get(props, k0)).value));
      assert HasKey(props, k0);
      assert forall k :: k in keys[1..] ==> k in keys;
      PatchFieldsKeepsKeys(next, keys[1..]);
    }
  }

  /** An accepted patch leaves the value of every key it does not list. */
  lemma {:induction false} PatchFieldsKeepsOthers(props: seq<(string, Value)>, keys: seq<string>, other: string)
    requires other !in keys
    requires PatchFields(props, keys).1.Ok?
    decreases |keys|
    ensures Get(PatchFields(props, keys).0, other) == Get(props, other)
  {
    if keys != [] {
      var k0 := keys[0];
      var next := Put(props, k0, Str(ValidateSingleField(k0, Get(props, k0)).value));
      assert other !in keys[1..] by {
        assert forall k :: k in keys[1..] ==> k in keys;
      }
      PatchFieldsKeepsOthers(next, keys[1..], other);
    }
  }

  /**
   * An accepted patch over distinct keys leaves each listed key holding the
   * validated form of its original value.
   */
  lemma {:induction false} PatchFieldsWritesBack(props: seq<(string, Value)>, keys: seq<string>, k: string)
    requires forall i, j :: 0 <= i < j < |keys| ==> keys[i] != keys[j]
    requires k in keys
    requires PatchFields(props, keys).1.Ok?
    decreases |keys|
    ensures PatchedTo(props, PatchFields(props, keys).0, k)
  {
    PatchFieldsStep(props, keys);
    var next := Put(props, keys[0], Str(ValidateSingleField(keys[0], Get(props, keys[0])).value));
    if k == keys[0] {
      HeadNotInTail(keys);
      PatchFieldsKeepsOthers(next, keys[1..], k);
    } else {
      TailDistinct(keys);
      assert k in keys[1..];
      PatchFieldsWritesBack(next, keys[1..], k);
    }
  }

  /** In a sequence without repeats, the first element does not come back. */
  lemma {:induction false} HeadNotInTail(keys: seq<string>)
    requires keys != [] && forall i, j :: 0 <= i < j < |keys| ==> keys[i] != keys[j]
    ensures keys[0] !in keys[1..]
  {
    forall j | 0 <= j < |keys| - 1 ensures keys[1..][j] != keys[0] {
      assert keys[1..][j] == keys[j + 1];
    }
  }

  /** Dropping the first element of a sequence without repeats leaves one without repeats. */
  lemma {:induction false} TailDistinct(keys: seq<string>)
    requires keys != [] && forall i, j :: 0 <= i < j < |keys| ==> keys[i] != keys[j]
    ensures forall i, j :: 0 <= i < j < |keys| - 1 ==> keys[1..][i] != keys[1..][j]
  {
    forall i, j | 0 <= i < j < |keys| - 1 ensures keys[1..][i] != keys[1..][j] {
      assert keys[1..][i] == keys[i + 1] && keys[1..][j] == keys[j + 1];
    }
  }

  /** A patch that gets past its first key goes on from the body with that key written back. */
  lemma {:induction false} PatchFieldsStep(props: seq<(string, Value)>, keys: seq<string>)
    requires keys != [] && PatchFields(props, keys).1.Ok?
    ensures keys[0] in AllowedKeys && ValidateSingleField(keys[0], Get(props, keys[0])).Ok?
    ensures PatchFields(props, keys) ==
              PatchFields(Put(props, keys[0], Str(ValidateSingleField(keys[0], Get(props, keys[0])).value)), keys[1..])
  {
  }

  /** Key `k` is a user field whose value in `props` validates, and `out` holds the validated value. */
  predicate PatchedTo(props: seq<(string, Value)>, out: seq<(string, Value)>, k: string) {
    k in AllowedKeys && ValidateSingleField(k, Get(props, k)).Ok?
    && Get(out, k) == Str(ValidateSingleField(k, Get(props, k)).value)
  }

  /**
   * `validateUserPatchBody(user)`: one to four keys, then the loop of
   * `PatchFields` over the keys in order, writing into `user`.
   */
  method ValidateUserPatchBody(user: JsObject) returns (r: Result<(), Thrown>)
    modifies user
    ensures |old(user.props)| == 0 || |old(user.props)| > 4 ==>
              r == Err(InputError(PatchFieldCount)) && user.props == old(user.props)
    ensures 0 < |old(user.props)| <= 4 ==> (user.props, r) == PatchFields(old(user.props), Keys(old(user.props)))
  {
    var inputKeys := Keys(user.props);
    if |inputKeys| == 0 || |inputKeys| > 4 {
      return Err(InputError(PatchFieldCount));
    }
    var i := 0;
    while i < |inputKeys|
      invariant 0 <= i <= |inputKeys|
      invariant PatchFields(old(user.props), inputKeys) == PatchFields(user.props, inputKeys[i..])
    {
      var key := inputKeys[i];
      ghost var rest := inputKeys[i..];
      assert rest[0] == key && rest[1..] == inputKeys[i + 1..];
      if key !in AllowedKeys {
        assert PatchFields(user.props, rest) == (user.props, Err(InputError(InvalidFieldNames)));
        return Err(InputError(InvalidFieldNames));
      }
      var validated := ValidateSingleField(key, Get(user.props, key));
      if validated.Err? {
        assert PatchFields(user.props, rest) == (user.props, Err(validated.error));
        return Err(validated.error);
      }
      assert PatchFields(user.props, rest) == PatchFields(Put(user.props, key, Str(validated.value)), rest[1..]);
      user.Set(key, Str(validated.value));
      i := i + 1;
    }
    r := Ok(());
  }
}
