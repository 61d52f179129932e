/**
 * The Basic authentication middleware: it reads the `Authorization`
 * header, takes the second space-separated word as base64 credentials,
 * splits the decoded text on `:` and lets the request through only for
 * user `admin` with password `admin`.
 */
module BasicAuth {
  import opened Wrappers
  import opened Text
  import opened ErrorHandling
  import opened Base64

  /** The `WWW-Authenticate` challenge sent with every refusal. */
  const Realm: string := "Basic realm=\"Users API\""

  /** What the middleware does with the request. */
  datatype Reply =
    | Next                                                    // `next()`: the request goes on
    | Denied(status: int, message: string, challenge: string) // answered here, `next` is not called
    | Crash(error: Thrown)                                    // thrown, so Express's error handler answers

  /** The text the credentials word decodes to. */
  function Decoded(token: string): string {
    Utf8Decode(Decode(token))
  }

  /**
   * `basicAuth`: a missing or empty header is asked for credentials;
   * `split(' ')[1]` of a one-word header is `undefined`, which
   * `Buffer.from` refuses with a `TypeError`; otherwise the first two
   * `:`-separated fields must both be `admin`.
   */
  function BasicAuth(header: Option<string>): (r: Reply)
    ensures header.None? || header == Some("") ==> r == Denied(401, "Authentication Required", Realm)
    ensures r.Denied? ==> r.status == 401 && r.challenge == Realm
    ensures r.Crash? <==> header.Some? && header.value != "" && ' ' !in header.value
  {
    if header.None? || header.value == "" then Denied(401, "Authentication Required", Realm)
    else match Field(header.value, ' ', 1)
      case None => Crash(TypeError)
      case Some(token) =>
        var credentials := Decoded(token);
        if Field(credentials, ':', 0) == Some("admin") && Field(credentials, ':', 1) == Some("admin") then Next
        else Denied(401, "Invalid Credentials", Realm)
  }

  /** The thrown `TypeError` reaches the client as a 500. */
  lemma {:induction false} OneWordHeaderIsServerError(header: string)
    requires header != "" && ' ' !in header
    ensures BasicAuth(Some(header)) == Crash(TypeError)
    ensures ErrorHandler(TypeError).status == 500
  {
  }

  /** The decoded text starts with `admin:admin`, followed by nothing or by a further `:`. */
  predicate AdminPrefix(d: string) {
    |d| >= 11 && d[..11] == "admin:admin" && (|d| == 11 || d[11] == ':')
  }

  /** The first two `:`-separated fields are both `admin` exactly when the text has the admin prefix. */
  lemma {:induction false} FirstTwoFieldsAdmin(d: string)
    ensures Field(d, ':', 0) == Some("admin") && Field(d, ':', 1) == Some("admin") <==> AdminPrefix(d)
  {
    if Field(d, ':', 0) == Some("admin") && Field(d, ':', 1) == Some("admin") {
      AdminFieldsGivePrefix(d);
    }
    if AdminPrefix(d) {
      AdminPrefixGivesFields(d);
    }
  }

  lemma {:induction false} AdminFieldsGivePrefix(d: string)
    requires Field(d, ':', 0) == Some("admin") && Field(d, ':', 1) == Some("admin")
    ensures AdminPrefix(d)
  {
    FirstField(d, ':');
    SecondField(d, ':');
    var i := IndexOf(d, ':');
    var rest := d[i + 1..];
    assert d[..i] == "admin" && i == 5;
    if ':' in rest {
      var j := IndexOf(rest, ':');
      assert rest[..j] == "admin" && j == 5;
      assert d[..11] == d[..5] + [d[5]] + rest[..5];
      assert d[11] == rest[5];
    } else {
      assert rest == "admin";
      assert d == d[..5] + [d[5]] + rest;
    }
  }

  lemma {:induction false} AdminPrefixGivesFields(d: string)
    requires AdminPrefix(d)
    ensures Field(d, ':', 0) == Some("admin") && Field(d, ':', 1) == Some("admin")
  {
    var user, password, rest := d[..5], d[6..11], d[11..];
    assert user == "admin" && password == "admin" by {
      assert user == d[..11][..5] && password == d[..11][6..11];
    }
    assert d == user + [':'] + password + rest by {
      assert d[5] == d[..11][5];
    }
    TwoFields(user, password, rest, ':');
  }

  /** Splitting `u sep v rest`, where `rest` is empty or starts a further field, gives `u` and `v` first. */
  lemma {:induction false} TwoFields(u: string, v: string, rest: string, sep: char)
    requires sep !in u && sep !in v && (rest == [] || rest[0] == sep)
    ensures Field(u + [sep] + v + rest, sep, 0) == Some(u)
    ensures Field(u + [sep] + v + rest, sep, 1) == Some(v)
  {
    var s := u + [sep] + v + rest;
    assert s[..|u|] == u && s[|u|] == sep;
    FirstOf(s, u, sep);
    SecondOf(s, u, sep);
    var w := s[|u| + 1..];
    assert w[..|v|] == v;
    if rest == [] {
      assert w == v;
      FirstField(w, sep);
    } else {
      assert w[|v|] == sep;
      FirstOf(w, v, sep);
    }
  }

  /** The first field of a text that starts with `u` and a separator is `u`. */
  lemma {:induction false} FirstOf(s: string, u: string, sep: char)
    requires |u| < |s| && s[..|u|] == u && s[|u|] == sep && sep !in u
    ensures Field(s, sep, 0) == Some(u)
  {
    assert IndexOf(s, sep) == |u|;
    FirstField(s, sep);
  }

  /** The second field of a text that starts with `u` and a separator is the first field of what follows. */
  lemma {:induction false} SecondOf(s: string, u: string, sep: char)
    requires |u| < |s| && s[..|u|] == u && s[|u|] == sep && sep !in u
    ensures Field(s, sep, 1) == Field(s[|u| + 1..], sep, 0)
  {
    assert IndexOf(s, sep) == |u|;
    SecondField(s, sep);
    FirstField(s[|u| + 1..], sep);
  }

  /**
   * Access is granted exactly when the header has a second word whose
   * decoding starts with `admin:admin`, followed by nothing or by a further
   * `:`; the scheme word before it plays no part.
   */
  lemma {:induction false} AllowedExactly(header: Option<string>)
    ensures BasicAuth(header) == Next <==>
              header.Some? && Field(header.value, ' ', 1).Some? && AdminPrefix(Decoded(Field(header.value, ' ', 1).value))
  {
    if header.Some? && Field(header.value, ' ', 1).Some? {
      FirstTwoFieldsAdmin(Decoded(Field(header.value, ' ', 1).value));
    }
  }

  /** The scheme word is never checked: any one-word scheme in front of the credentials is treated like `Basic`. */
  lemma {:induction false} SchemeNotChecked(scheme: string, token: string)
    requires ' ' !in scheme && ' ' !in token
    ensures BasicAuth(Some(scheme + " " + token)) == BasicAuth(Some("Basic " + token))
  {
    assert "Basic" + " " == "Basic ";
    CredentialsWord(scheme, token);
    CredentialsWord("Basic", token);
    DecidedOnToken(scheme + " " + token, token);
    DecidedOnToken("Basic " + token, token);
  }

  /** With a credentials word present, the reply depends on that word alone. */
  lemma {:induction false} DecidedOnToken(h: string, token: string)
    requires h != "" && Field(h, ' ', 1) == Some(token)
    ensures BasicAuth(Some(h)) ==
              if Field(Decoded(token), ':', 0) == Some("admin") && Field(Decoded(token), ':', 1) == Some("admin")
              then Next else Denied(401, "Invalid Credentials", Realm)
  {
  }

  /** The second word of `scheme token`. */
  lemma {:induction false} CredentialsWord(scheme: string, token: string)
    requires ' ' !in scheme && ' ' !in token
    ensures Field(scheme + " " + token, ' ', 1) == Some(token)
  {
    var h := scheme + " " + token;
    assert h[|scheme|] == ' ' && ' ' !in h[..|scheme|] by {
      assert h[..|scheme|] == scheme;
    }
    SecondField(h, ' ');
    assert h[|scheme| + 1..] == token;
  }

  /** An encoded ASCII text with the admin prefix, behind any one-word scheme, is let through. */
  lemma {:induction false} AdminTextAllowed(scheme: string, text: string)
    requires ' ' !in scheme && IsAscii(text) && AdminPrefix(text)
    ensures BasicAuth(Some(scheme + " " + Encode(AsciiBytes(text)))) == Next
  {
    var token := Encode(AsciiBytes(text));
    EncodeHasNoSpace(AsciiBytes(text));
    CredentialsWord(scheme, token);
    AsciiRoundTrip(text);
    FirstTwoFieldsAdmin(text);
  }

  /** `Basic` followed by the encoding of `admin:admin` is let through. */
  lemma {:induction false} AdminAdminAllowed(text: string)
    requires text == "admin:admin"
    ensures IsAscii(text) && BasicAuth(Some("Basic " + Encode(AsciiBytes(text)))) == Next
  {
    assert "Basic" + " " == "Basic ";
    AdminTextAllowed("Basic", text);
  }

  /** Any other credentials are refused with 401 `Invalid Credentials` and the challenge. */
  lemma {:induction false} WrongCredentialsDenied(scheme: string, token: string)
    requires ' ' !in scheme && ' ' !in token
    requires !AdminPrefix(Decoded(token))
    ensures BasicAuth(Some(scheme + " " + token)) == Denied(401, "Invalid Credentials", Realm)
  {
    CredentialsWord(scheme, token);
    FirstTwoFieldsAdmin(Decoded(token));
  }

  // ----- user-pass as section 2 of RFC 7617 defines it -----

  /**
   * The check as section 2 of RFC 7617 reads the credentials: the user-id
   * is everything before the first `:` and the password everything after it.
   */
  function BasicAuthRfc(header: Option<string>): (r: Reply)
    ensures r.Denied? ==> r.status == 401 && r.challenge == Realm
  {
    if header.None? || header.value == "" then Denied(401, "Authentication Required", Realm)
    else match Field(header.value, ' ', 1)
      case None => Crash(TypeError)
      case Some(token) =>
        var credentials := Decoded(token);
        if ':' in credentials
           && credentials[..IndexOf(credentials, ':')] == "admin"
           && credentials[IndexOf(credentials, ':') + 1..] == "admin"
        then Next
        else Denied(401, "Invalid Credentials", Realm)
  }

  /** The user-id and password split at the first `:` are both `admin` exactly for `admin:admin`. */
  lemma {:induction false} RfcUserPassAdmin(d: string)
    ensures (':' in d && d[..IndexOf(d, ':')] == "admin" && d[IndexOf(d, ':') + 1..] == "admin") <==> d == "admin:admin"
  {
    if ':' in d && d[..IndexOf(d, ':')] == "admin" && d[IndexOf(d, ':') + 1..] == "admin" {
      var i := IndexOf(d, ':');
      assert d == d[..i] + [':'] + d[i + 1..];
      assert "admin" + [':'] + "admin" == "admin:admin";
    }
    if d == "admin:admin" {
      AdminAdminSplits(d);
    }
  }

  lemma {:induction false} AdminAdminSplits(d: string)
    requires d == "admin:admin"
    ensures ':' in d && IndexOf(d, ':') == 5 && d[..5] == "admin" && d[6..] == "admin"
  {
    assert d[5] == ':' && ':' !in d[..5];
  }

  /** Read as RFC 7617 defines it, access is granted for the decoded text `admin:admin` and nothing else. */
  lemma {:induction false} RfcAllowsOnlyAdminAdmin(header: Option<string>)
    ensures BasicAuthRfc(header) == Next <==>
              header.Some? && Field(header.value, ' ', 1).Some? && Decoded(Field(header.value, ' ', 1).value) == "admin:admin"
  {
    if header.Some? && Field(header.value, ' ', 1).Some? {
      RfcUserPassAdmin(Decoded(Field(header.value, ' ', 1).value));
    }
  }

  /**
   * The middleware as written lets `admin:admin:x` through: it compares
   * only the first two `:`-fields, while the password of that user-pass is
   * `admin:x`.
   */
  lemma {:induction false} ExtraFieldAccepted(text: string)
    requires text == "admin:admin:x"
    ensures IsAscii(text)
    ensures BasicAuth(Some("Basic " + Encode(AsciiBytes(text)))) == Next
    ensures BasicAuthRfc(Some("Basic " + Encode(AsciiBytes(text)))).Denied?
  {
    assert AdminPrefix(text) by { assert text[..11] == "admin:admin"; }
    assert "Basic" + " " == "Basic ";
    AdminTextAllowed("Basic", text);
    var token := Encode(AsciiBytes(text));
    EncodeHasNoSpace(AsciiBytes(text));
    CredentialsWord("Basic", token);
    AsciiRoundTrip(text);
    RfcAllowsOnlyAdminAdmin(Some("Basic " + token));
  }
}
