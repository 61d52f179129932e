/**
 * The string primitives of JavaScript that the validators and middleware
 * rely on: character classes, `String.prototype.trim`, ASCII lower-casing,
 * `includes` and `split` with a one-character separator.
 */
module Text {
  import opened Wrappers

  /** ECMAScript LineTerminator code points; a regular-expression `.` excludes them. */
  predicate IsLineTerminator(c: char) {
    c == '\n' || c == '\r' || c == '\U{2028}' || c == '\U{2029}'
  }

  /** ECMAScript WhiteSpace or LineTerminator: exactly what `trim` strips. */
  predicate IsJsWhitespace(c: char) {
    || c == '\t' || c == '\U{000B}' || c == '\U{000C}' || c == ' '
    || c == '\U{00A0}' || c == '\U{FEFF}' || c == '\U{1680}'
    || ('\U{2000}' <= c <= '\U{200A}')
    || c == '\U{202F}' || c == '\U{205F}' || c == '\U{3000}'
    || IsLineTerminator(c)
  }

  predicate IsAsciiLower(c: char) { 'a' <= c <= 'z' }
  predicate IsAsciiUpper(c: char) { 'A' <= c <= 'Z' }
  predicate IsAsciiDigit(c: char) { '0' <= c <= '9' }
  predicate IsAsciiLetter(c: char) { IsAsciiLower(c) || IsAsciiUpper(c) }
  predicate IsAsciiAlnum(c: char) { IsAsciiLetter(c) || IsAsciiDigit(c) }

  predicate AllWhitespace(s: string) {
    forall k :: 0 <= k < |s| ==> IsJsWhitespace(s[k])
  }

  /** Number of whitespace characters at the front of `s`. */
  function LeadingWs(s: string): (n: nat)
    ensures n <= |s|
    ensures forall k :: 0 <= k < n ==> IsJsWhitespace(s[k])
    ensures n < |s| ==> !IsJsWhitespace(s[n])
  {
    if s == [] || !IsJsWhitespace(s[0]) then 0 else 1 + LeadingWs(s[1..])
  }

  /** Number of whitespace characters at the back of `s`. */
  function TrailingWs(s: string): (n: nat)
    ensures n <= |s|
    ensures forall k :: |s| - n <= k < |s| ==> IsJsWhitespace(s[k])
    ensures n < |s| ==> !IsJsWhitespace(s[|s| - 1 - n])
  {
    if s == [] || !IsJsWhitespace(s[|s| - 1]) then 0 else 1 + TrailingWs(s[..|s| - 1])
  }

  /**
   * `String.prototype.trim`: the longest slice of `s` that neither starts nor
   * ends with whitespace, everything cut off being whitespace.
   */
  function Trim(s: string): (r: string)
    ensures |r| <= |s|
    ensures r == [] || (!IsJsWhitespace(r[0]) && !IsJsWhitespace(r[|r| - 1]))
    ensures r == [] <==> AllWhitespace(s)
    ensures exists i :: 0 <= i <= |s| - |r| && r == s[i..i + |r|]
                        && AllWhitespace(s[..i]) && AllWhitespace(s[i + |r|..])
  {
    var i := LeadingWs(s);
    var j := TrailingWs(s[i..]);
    TrimSides(s, i, j);
    TrimBlank(s, i, j);
    s[i..|s| - j]
  }

  /** Between the leading and the trailing whitespace, the slice starts and ends with a non-whitespace character. */
  lemma {:induction false} TrimSides(s: string, i: nat, j: nat)
    requires i == LeadingWs(s) && j == TrailingWs(s[i..])
    ensures i + j <= |s| && AllWhitespace(s[..i]) && AllWhitespace(s[|s| - j..])
    ensures var r := s[i..|s| - j]; |r| > 0 ==> !IsJsWhitespace(r[0]) && !IsJsWhitespace(r[|r| - 1])
  {
    assert AllWhitespace(s[|s| - j..]) by {
      assert s[|s| - j..] == s[i..][|s[i..]| - j..];
    }
    if i + j < |s| {
      var r := s[i..|s| - j];
      assert r[0] == s[i];
      assert r[|r| - 1] == s[i..][|s[i..]| - 1 - j];
    }
  }

  /** The leading and trailing whitespace cover the whole string exactly when it is all whitespace. */
  lemma {:induction false} TrimBlank(s: string, i: nat, j: nat)
    requires i == LeadingWs(s) && j == TrailingWs(s[i..])
    ensures i + j == |s| <==> AllWhitespace(s)
  {
    if i < |s| {
      assert s[i..][0] == s[i];
    }
  }

  /** Trimming twice is trimming once. */
  lemma {:induction false} TrimIdempotent(s: string)
    ensures Trim(Trim(s)) == Trim(s)
  {
    var t := Trim(s);
    if t != [] {
      assert LeadingWs(t) == 0;
      assert TrailingWs(t) == 0;
      assert t[0..|t|] == t;
    }
  }

  /** ASCII lower-casing of one character. */
  function LowerChar(c: char): (d: char)
    ensures IsAsciiUpper(c) ==> IsAsciiLower(d)
    ensures !IsAsciiUpper(c) ==> d == c
  {
    if IsAsciiUpper(c) then (c as int + 32) as char else c
  }

  /** `toLowerCase`, restricted to the ASCII letters. */
  function ToLower(s: string): (r: string)
    ensures |r| == |s|
    ensures forall k :: 0 <= k < |s| ==> r[k] == LowerChar(s[k])
  {
    if s == [] then [] else [LowerChar(s[0])] + ToLower(s[1..])
  }

  /** Lower-casing is idempotent: a lower-cased string has no upper-case letter left. */
  lemma {:induction false} ToLowerIdempotent(s: string)
    ensures ToLower(ToLower(s)) == ToLower(s)
  {
    var t := ToLower(s);
    assert ToLower(t) == t by {
      assert forall k :: 0 <= k < |t| ==> ToLower(t)[k] == t[k];
    }
  }

  /** `s.includes(sub)`. */
  predicate Contains(s: string, sub: string) {
    exists i :: 0 <= i <= |s| - |sub| && OccursAt(s, sub, i)
  }

  /** `sub` occurs in `s` starting at index `i`. */
  predicate OccursAt(s: string, sub: string, i: int) {
    0 <= i <= |s| - |sub| && s[i..i + |sub|] == sub
  }

  /** Number of occurrences of `c` in `s`. */
  function Count(s: string, c: char): (n: nat)
    ensures n <= |s|
    ensures n == 0 <==> c !in s
  {
    if s == [] then 0 else (if s[0] == c then 1 else 0) + Count(s[1..], c)
  }

  lemma {:induction false} CountAppend(a: string, b: string, c: char)
    ensures Count(a + b, c) == Count(a, c) + Count(b, c)
  {
    if a != [] {
      assert (a + b)[1..] == a[1..] + b;
      CountAppend(a[1..], b, c);
    } else {
      assert a + b == b;
    }
  }

  /** Index of the first occurrence of `c`, which must occur. */
  function IndexOf(s: string, c: char): (i: nat)
    requires c in s
    ensures i < |s| && s[i] == c && c !in s[..i]
  {
    if s[0] == c then 0 else 1 + IndexOf(s[1..], c)
  }

  /** When `c` occurs once, nothing after its first occurrence is `c`. */
  lemma {:induction false} CountOneAfterFirst(s: string, c: char)
    requires Count(s, c) == 1
    ensures c in s && c !in s[IndexOf(s, c) + 1..]
  {
    var i := IndexOf(s, c);
    assert s == s[..i] + ([c] + s[i + 1..]);
    CountAppend(s[..i], [c] + s[i + 1..], c);
    CountAppend([c], s[i + 1..], c);
    assert Count([c], c) == 1 by { assert [c][1..] == []; }
  }

  /** Glue fields back together with `sep` between consecutive ones. */
  function Join(fields: seq<string>, sep: char): string
    requires |fields| >= 1
  {
    if |fields| == 1 then fields[0] else fields[0] + [sep] + Join(fields[1..], sep)
  }

  /** `s.split(sep)` for a one-character separator. */
  function Split(s: string, sep: char): (fields: seq<string>)
    ensures |fields| == Count(s, sep) + 1
    ensures forall k :: 0 <= k < |fields| ==> sep !in fields[k]
    ensures Join(fields, sep) == s
    decreases |s|
  {
    if sep !in s then [s]
    else
      var i := IndexOf(s, sep);
      var rest := Split(s[i + 1..], sep);
      SplitStep(s, sep, i, rest);
      [s[..i]] + rest
  }

  /** The fields of `s` are the text before its first separator followed by the fields of what comes after it. */
  lemma {:induction false} SplitStep(s: string, sep: char, i: nat, rest: seq<string>)
    requires i < |s| && s[i] == sep && sep !in s[..i]
    requires |rest| == Count(s[i + 1..], sep) + 1
    requires forall k :: 0 <= k < |rest| ==> sep !in rest[k]
    requires Join(rest, sep) == s[i + 1..]
    ensures |[s[..i]] + rest| == Count(s, sep) + 1
    ensures forall k :: 0 <= k < |[s[..i]] + rest| ==> sep !in ([s[..i]] + rest)[k]
    ensures Join([s[..i]] + rest, sep) == s
  {
    var fields := [s[..i]] + rest;
    CountAtFirst(s, sep, i);
    assert fields[1..] == rest;
    assert Join(fields, sep) == s[..i] + [sep] + s[i + 1..];
    assert s == s[..i] + [sep] + s[i + 1..];
    forall k | 0 <= k < |fields|
      ensures sep !in fields[k]
    {
      if k > 0 {
        assert fields[k] == rest[k - 1];
      }
    }
  }

  /** Splitting at the first separator: the count is one more than in what follows it. */
  lemma {:induction false} CountAtFirst(s: string, sep: char, i: nat)
    requires i < |s| && s[i] == sep && sep !in s[..i]
    ensures Count(s, sep) == Count(s[i + 1..], sep) + 1
  {
    assert s == s[..i] + ([sep] + s[i + 1..]);
    assert Count(s[..i], sep) == 0;
    CountAppend(s[..i], [sep] + s[i + 1..], sep);
    CountAppend([sep], s[i + 1..], sep);
    assert Count([sep], sep) == 1 by { assert [sep][1..] == []; }
  }

  /** Element `k` of `s.split(sep)`, or `undefined` past the end. */
  function Field(s: string, sep: char, k: nat): (f: Option<string>)
    ensures f.Some? <==> k <= Count(s, sep)
  {
    var fields := Split(s, sep);
    if k < |fields| then Some(fields[k]) else None
  }

  /** The first field is everything before the first separator. */
  lemma {:induction false} FirstField(s: string, sep: char)
    ensures Field(s, sep, 0) == Some(if sep in s then s[..IndexOf(s, sep)] else s)
  {
  }

  /** The second field runs from after the first separator up to the next one. */
  lemma {:induction false} SecondField(s: string, sep: char)
    requires sep in s
    ensures var rest := s[IndexOf(s, sep) + 1..];
            Field(s, sep, 1) == Some(if sep in rest then rest[..IndexOf(rest, sep)] else rest)
  {
    var rest := s[IndexOf(s, sep) + 1..];
    var fs := Split(rest, sep);
    assert Split(s, sep)[1] == fs[0];
  }
}
