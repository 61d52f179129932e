/**
 * The input patterns and field lists shared by the backend validators. Each
 * regular expression is written as a predicate that follows the structure of
 * the expression, and a lemma beside it states which strings it accepts.
 */
module Patterns {
  import opened Text

  /** Every character of `s` is in the class `cls` (the body of `[...]*`). */
  predicate AllIn(s: string, cls: char -> bool) {
    forall k :: 0 <= k < |s| ==> cls(s[k])
  }

  /** The class `[a-zA-Z0-9._-]` of username characters. */
  predicate IsUsernameChar(c: char) {
    IsAsciiAlnum(c) || c == '.' || c == '_' || c == '-'
  }

  /** The class `[A-Za-z0-9._%+-]` of the part before the `@`. */
  predicate IsEmailLocalChar(c: char) {
    IsAsciiAlnum(c) || c == '.' || c == '_' || c == '%' || c == '+' || c == '-'
  }

  /** The class `[A-Za-z0-9.-]` of the domain. */
  predicate IsEmailDomainChar(c: char) {
    IsAsciiAlnum(c) || c == '.' || c == '-'
  }

  /** The class ``[!@#$%^&*()_\-+=\[\]{}|;:'",.<>/?]`` of password special characters. */
  predicate IsPasswordSpecial(c: char) {
    c in "!@#$%^&*()_-+=[]{}|;:'\",.<>/?"
  }

  /** `nameRegex`, `/^[a-zA-Z]+$/`. */
  predicate NameRegex(s: string) {
    s != [] && AllIn(s, IsAsciiLetter)
  }

  /** `usrnameRegex`, `/^[a-zA-Z0-9](?:[a-zA-Z0-9._-]*[a-zA-Z0-9])?$/`. */
  predicate UsernameRegex(s: string) {
    s != [] && IsAsciiAlnum(s[0]) && UsernameTail(s[1..])
  }

  /** The optional group `(?:[a-zA-Z0-9._-]*[a-zA-Z0-9])?`. */
  predicate UsernameTail(t: string) {
    t == [] || (AllIn(t[..|t| - 1], IsUsernameChar) && IsAsciiAlnum(t[|t| - 1]))
  }

  /**
   * A username is a non-empty string whose first and last characters are
   * ASCII letters or digits and whose inner characters may also be `.`, `_`
   * or `-`.
   */
  lemma {:induction false} UsernameRegexMeaning(s: string)
    ensures UsernameRegex(s) <==>
              && |s| > 0
              && IsAsciiAlnum(s[0])
              && IsAsciiAlnum(s[|s| - 1])
              && forall k :: 0 < k < |s| - 1 ==> IsUsernameChar(s[k])
  {
    if |s| > 1 {
      var t := s[1..];
      assert forall k :: 0 < k < |s| - 1 ==> s[k] == t[..|t| - 1][k - 1];
    }
  }

  /** A single letter or digit is a valid username as far as the pattern goes. */
  lemma {:induction false} UsernameRegexSingle(c: char)
    requires IsAsciiAlnum(c)
    ensures UsernameRegex([c])
  {
  }

  /** Every character of `s` from index `lo` up to `hi` is in the class `cls`. */
  predicate AllBetween(s: string, lo: int, hi: int, cls: char -> bool) {
    forall k :: lo <= k < hi && 0 <= k < |s| ==> cls(s[k])
  }

  /** `emailRegex`, `/^[A-Za-z0-9._%+-]+@[A-Za-z0-9.-]+\.[A-Za-z]{2,}$/`. */
  predicate EmailRegex(s: string) {
    exists at :: 0 < at < |s| && EmailMatchAt(s, at)
  }

  /** `[A-Za-z0-9._%+-]+` matches up to `at`, the `@` stands at `at` and the domain part matches the rest. */
  predicate EmailMatchAt(s: string, at: int) {
    && 0 < at < |s| && s[at] == '@' && AllBetween(s, 0, at, IsEmailLocalChar)
    && exists dot :: at + 1 < dot < |s| && DomainMatchAt(s, at, dot)
  }

  /**
   * The part `[A-Za-z0-9.-]+\.[A-Za-z]{2,}` after the `@` at `at`:
   * `[A-Za-z0-9.-]+` matches up to `dot`, the `\.` stands at `dot` and
   * `[A-Za-z]{2,}` matches the rest.
   */
  predicate DomainMatchAt(s: string, at: int, dot: int) {
    && 0 <= at && at + 1 < dot < |s| - 2 && s[dot] == '.'
    && AllBetween(s, at + 1, dot, IsEmailDomainChar) && AllBetween(s, dot + 1, |s|, IsAsciiLetter)
  }

  /** Length of the run of ASCII letters that ends `s`. */
  function TrailingLetters(s: string): (n: nat)
    ensures n <= |s|
    ensures forall k :: |s| - n <= k < |s| ==> IsAsciiLetter(s[k])
    ensures n < |s| ==> !IsAsciiLetter(s[|s| - 1 - n])
  {
    if s == [] || !IsAsciiLetter(s[|s| - 1]) then 0 else 1 + TrailingLetters(s[..|s| - 1])
  }

  /** The part after the `@` the pattern matches holds no further `@`. */
  lemma {:induction false} EmailDomainHasNoAt(s: string, at: int)
    requires EmailMatchAt(s, at)
    ensures forall k :: at < k < |s| ==> s[k] != '@'
  {
    var dot :| at + 1 < dot < |s| && DomainMatchAt(s, at, dot);
  }

  /** An address the pattern accepts holds exactly one `@`. */
  lemma {:induction false} EmailRegexOneAt(s: string)
    requires EmailRegex(s)
    ensures Count(s, '@') == 1
  {
    var at :| 0 < at < |s| && EmailMatchAt(s, at);
    EmailDomainHasNoAt(s, at);
    OneAtBetween(s, at);
  }

  /** An `@` at `at` and none elsewhere make a count of one. */
  lemma {:induction false} OneAtBetween(s: string, at: int)
    requires 0 <= at < |s| && s[at] == '@'
    requires forall k :: 0 <= k < |s| && k != at ==> s[k] != '@'
    ensures Count(s, '@') == 1
  {
    var d := s[at + 1..];
    assert '@' !in s[..at];
    assert '@' !in d;
    assert s == s[..at] + ([s[at]] + d);
    CountAppend(s[..at], [s[at]] + d, '@');
    CountAppend([s[at]], d, '@');
    assert Count([s[at]], '@') == 1 by { assert [s[at]][1..] == []; }
  }

  /**
   * An address the pattern accepts ends in a `.` followed by its final run of
   * at least two ASCII letters, and that `.` comes after the `@`.
   */
  lemma {:induction false} EmailRegexTopLevel(s: string)
    requires EmailRegex(s)
    ensures var n := TrailingLetters(s);
            n >= 2 && n < |s| && s[|s| - 1 - n] == '.' && '@' in s && IndexOf(s, '@') < |s| - 1 - n
  {
    var at :| 0 < at < |s| && EmailMatchAt(s, at);
    EmailAtIsFirst(s, at);
    var dot :| at + 1 < dot < |s| && DomainMatchAt(s, at, dot);
    TrailingLettersRun(s, dot);
  }

  /** The `@` the pattern matches is the first one, so the part before it is never empty. */
  lemma {:induction false} EmailAtIsFirst(s: string, at: int)
    requires EmailMatchAt(s, at)
    ensures '@' in s && IndexOf(s, '@') == at && at > 0
  {
    assert '@' !in s[..at];
    FirstOccurrence(s, '@', at);
  }

  /** An index holding `c` with no `c` before it is the first occurrence. */
  lemma {:induction false} FirstOccurrence(s: string, c: char, i: nat)
    requires i < |s| && s[i] == c && c !in s[..i]
    ensures IndexOf(s, c) == i
  {
  }

  /** A non-letter followed by letters up to the end fixes the trailing run. */
  lemma {:induction false} TrailingLettersRun(s: string, p: nat)
    requires p < |s| && !IsAsciiLetter(s[p])
    requires forall k :: p < k < |s| ==> IsAsciiLetter(s[k])
    ensures TrailingLetters(s) == |s| - 1 - p
  {
  }

  /** The lookahead `(?=.*[cls])`: a character of `cls` before any line terminator. */
  predicate Lookahead(s: string, cls: char -> bool) {
    exists i :: 0 <= i < |s| && cls(s[i]) && AllBetween(s, 0, i, NotLineTerminator)
  }

  predicate NotLineTerminator(c: char) { !IsLineTerminator(c) }

  /**
   * `passwordRegex`, ``/^(?=.*[a-z])(?=.*[A-Z])(?=.*\d)(?=.*[!@#$%^&*()_\-+=\[\]{}|;:'",.<>/?]).{8,}$/``:
   * four lookaheads from the start, then `.{8,}` up to the end of the input.
   */
  predicate PasswordRegex(s: string) {
    && Lookahead(s, IsAsciiLower)
    && Lookahead(s, IsAsciiUpper)
    && Lookahead(s, IsAsciiDigit)
    && Lookahead(s, IsPasswordSpecial)
    && |s| >= 8 && AllIn(s, NotLineTerminator)
  }

  predicate HasCharIn(s: string, cls: char -> bool) {
    exists i :: 0 <= i < |s| && cls(s[i])
  }

  /**
   * A password matches exactly when it has at least eight characters, no line
   * terminator, and a lower-case letter, an upper-case letter, a digit and a
   * special character somewhere.
   */
  lemma {:induction false} PasswordRegexMeaning(s: string)
    ensures PasswordRegex(s) <==>
              && |s| >= 8
              && (forall k :: 0 <= k < |s| ==> !IsLineTerminator(s[k]))
              && HasCharIn(s, IsAsciiLower)
              && HasCharIn(s, IsAsciiUpper)
              && HasCharIn(s, IsAsciiDigit)
              && HasCharIn(s, IsPasswordSpecial)
  {
    if forall k :: 0 <= k < |s| ==> !IsLineTerminator(s[k]) {
      LookaheadWithoutTerminators(s, IsAsciiLower);
      LookaheadWithoutTerminators(s, IsAsciiUpper);
      LookaheadWithoutTerminators(s, IsAsciiDigit);
      LookaheadWithoutTerminators(s, IsPasswordSpecial);
    }
  }

  lemma {:induction false} LookaheadWithoutTerminators(s: string, cls: char -> bool)
    requires forall k :: 0 <= k < |s| ==> !IsLineTerminator(s[k])
    ensures Lookahead(s, cls) <==> HasCharIn(s, cls)
  {
    if HasCharIn(s, cls) {
      var i :| 0 <= i < |s| && cls(s[i]);
    }
  }

  /** No password holding a line terminator matches, since `.` never consumes one. */
  lemma {:induction false} PasswordRegexRejectsLineTerminator(s: string, k: nat)
    requires k < |s| && IsLineTerminator(s[k])
    ensures !PasswordRegex(s)
  {
  }

  /** `allowedKeys`: the user fields a client may set. */
  const AllowedKeys: seq<string> := ["username", "fname", "lname", "email"]

  /** `allowedKeysAuth`: the fields of a signup body. */
  const AllowedKeysAuth: seq<string> := ["username", "fname", "lname", "email", "password"]

  /** `allowedKeysCreds`: the fields of a login body. */
  const AllowedKeysCreds: seq<string> := ["username", "password"]

  /** The signup fields are the user fields plus `password`, and they are distinct. */
  lemma {:induction false} AllowedKeysAuthExtendsAllowedKeys()
    ensures AllowedKeysAuth == AllowedKeys + ["password"]
    ensures forall i, j :: 0 <= i < j < |AllowedKeysAuth| ==> AllowedKeysAuth[i] != AllowedKeysAuth[j]
  {
  }
}
