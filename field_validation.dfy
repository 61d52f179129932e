/**
 * The signup form's field validators. Each answers with the empty string
 * when its input passes and with one message for the user otherwise; the
 * blank test trims, the pattern tests do not.
 */
module FieldValidation {
  import opened Text
  import opened Patterns

  const UsernameRequired := "Username is required"
  const UsernameFormat := "Invalid username format"
  const UsernameTooShort := "Username must be at least 3 characters"

  /** `validateUsername`: blank, then pattern on the untrimmed input, then a minimum length only. */
  function ValidateUsername(username: string): (r: string)
    ensures r == "" <==> !AllWhitespace(username) && UsernameRegex(username) && |username| >= 3
    ensures r in {"", UsernameRequired, UsernameFormat, UsernameTooShort}
    ensures AllWhitespace(username) ==> r == UsernameRequired
  {
    if Trim(username) == [] then UsernameRequired
    else if !UsernameRegex(username) then UsernameFormat
    else if |username| < 3 then UsernameTooShort
    else ""
  }

  /** A well-formed username of one or two characters gets the length message, not the format one. */
  lemma {:induction false} ShortUsernameGetsLengthMessage(c: char, d: char)
    requires IsAsciiAlnum(c) && IsAsciiAlnum(d)
    ensures ValidateUsername([c, d]) == UsernameTooShort
  {
    assert !IsJsWhitespace([c, d][0]);
    UsernameRegexMeaning([c, d]);
  }

  /** Surrounding spaces are not trimmed before the pattern test, so a padded name is refused. */
  lemma {:induction false} PaddedUsernameRefused(name: string)
    requires UsernameRegex(name)
    ensures ValidateUsername(" " + name) == UsernameFormat
  {
    var padded := " " + name;
    assert !AllWhitespace(padded) by {
      assert padded[1] == name[0];
      assert !IsJsWhitespace(name[0]);
    }
  }

  /** The username of `n` letters `a`. */
  function Repeat(c: char, n: nat): (s: string)
    ensures |s| == n && forall k :: 0 <= k < n ==> s[k] == c
  {
    if n == 0 then [] else [c] + Repeat(c, n - 1)
  }

  /** There is no upper length bound: a username of any length from 3 on passes. */
  lemma {:induction false} LongUsernamePasses(n: nat)
    requires n >= 3
    ensures ValidateUsername(Repeat('a', n)) == ""
  {
    var s := Repeat('a', n);
    UsernameRegexMeaning(s);
    assert !IsJsWhitespace(s[0]);
  }

  const EmailRequired := "Email is required"
  const EmailFormat := "Invalid email format"

  /** `validateEmail`: blank, then the address pattern on the untrimmed input. */
  function ValidateEmail(email: string): (r: string)
    ensures r == "" <==> !AllWhitespace(email) && EmailRegex(email)
    ensures r in {"", EmailRequired, EmailFormat}
  {
    if Trim(email) == [] then EmailRequired
    else if !EmailRegex(email) then EmailFormat
    else ""
  }

  /** An address the pattern accepts is never blank, so passing is exactly matching the pattern. */
  lemma {:induction false} ValidateEmailIsPattern(email: string)
    ensures ValidateEmail(email) == "" <==> EmailRegex(email)
  {
    if EmailRegex(email) {
      var at :| 0 < at < |email| && EmailMatchAt(email, at);
      assert !IsJsWhitespace(email[at]);
    }
  }

  /** The label of the name field when none is given. */
  const DefaultNameLabel := "Name"
  const NameFormat := "Invalid name format"

  /** The name pattern `/^\p{L}+$/u`, for a given test of the Unicode letter property. */
  predicate NamePattern(name: string, isLetter: char -> bool) {
    name != [] && AllIn(name, isLetter)
  }

  /**
   * `validateName(name, label)`: blank gives the label's "is required"
   * message, then the letters-only pattern is tested on the untrimmed input.
   * `isLetter` is the Unicode letter property the pattern uses.
   */
  function ValidateName(name: string, fieldLabel: string, isLetter: char -> bool): (r: string)
    ensures r == "" <==> !AllWhitespace(name) && NamePattern(name, isLetter)
    ensures r in {"", fieldLabel + " is required", NameFormat}
    ensures AllWhitespace(name) ==> r == fieldLabel + " is required"
  {
    if Trim(name) == [] then fieldLabel + " is required"
    else if !NamePattern(name, isLetter) then NameFormat
    else ""
  }

  /** With the default label a blank name reads "Name is required". */
  lemma {:induction false} BlankNameDefaultLabel(name: string, isLetter: char -> bool)
    requires AllWhitespace(name)
    ensures ValidateName(name, DefaultNameLabel, isLetter) == "Name is required"
  {
  }

  /** The special characters of the form's password test. */
  predicate IsFormSpecial(c: char) {
    c in "!@#$%^&*(),.?\":{}|<>"
  }

  const PasswordRequired := "Password is required"
  const PasswordWeak := "Password must be at least 8 characters and include an uppercase letter, a number, and a special character."

  /** `validatePassword`: empty, then length, an upper-case letter, a digit and a special character. */
  function ValidatePassword(password: string): (r: string)
    ensures r == "" <==> |password| >= 8 && HasCharIn(password, IsAsciiUpper)
                         && HasCharIn(password, IsAsciiDigit) && HasCharIn(password, IsFormSpecial)
    ensures r in {"", PasswordRequired, PasswordWeak}
    ensures r == PasswordRequired <==> password == ""
  {
    if password == "" then PasswordRequired
    else if |password| < 8 || !HasCharIn(password, IsAsciiUpper) || !HasCharIn(password, IsAsciiDigit)
            || !HasCharIn(password, IsFormSpecial) then PasswordWeak
    else ""
  }

  /**
   * The form asks for no lower-case letter while the server's password
   * pattern does: a password of capitals, a digit and `!` passes the form
   * and is refused by the server.
   */
  lemma {:induction false} FormAcceptsPasswordServerRefuses()
    ensures ValidatePassword("ABCDEFG1!") == ""
    ensures !PasswordRegex("ABCDEFG1!")
  {
    var p := "ABCDEFG1!";
    FormAcceptsCapitals(p);
    ServerRefusesCapitals(p);
  }

  lemma {:induction false} FormAcceptsCapitals(p: string)
    requires p == "ABCDEFG1!"
    ensures ValidatePassword(p) == ""
  {
    assert |p| == 9 && IsAsciiUpper(p[0]) && IsAsciiDigit(p[7]) && IsFormSpecial(p[8]);
  }

  lemma {:induction false} ServerRefusesCapitals(p: string)
    requires p == "ABCDEFG1!"
    ensures !PasswordRegex(p)
  {
    PasswordRegexMeaning(p);
    forall k | 0 <= k < |p| ensures !IsAsciiLower(p[k]) {
      assert p[k] in "ABCDEFG1!";
    }
  }
}
