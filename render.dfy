/**
 * The browser script's two pure helpers: the check that a fetched JSON
 * value is a list of users, and the escaping of user text before it is
 * written into HTML.
 */
module Render {
  import opened Wrappers
  import opened Text
  import opened Js
  import opened AuthStore

  // ----- escapeHtml -----

  /** `s.replace(/c/g, rep)`: every `c` becomes `rep`. */
  function ReplaceChar(s: string, c: char, rep: string): (r: string)
    ensures c !in s ==> r == s
  {
    if s == [] then []
    else (if s[0] == c then rep else [s[0]]) + ReplaceChar(s[1..], c, rep)
  }

  /**
   * `escapeHtml`: `&` first, then `<`, `>`, `"` and `'`, each replaced by
   * its entity. None of the last four survives, and a text with none of
   * the five comes back unchanged.
   */
  function EscapeHtml(s: string): (r: string)
    ensures Plain(s) ==> r == s
  {
    var amp := ReplaceChar(s, '&', "&amp;");
    var lt := ReplaceChar(amp, '<', "&lt;");
    var gt := ReplaceChar(lt, '>', "&gt;");
    var quot := ReplaceChar(gt, '"', "&quot;");
    ReplaceChar(quot, '\'', "&#039;")
  }

  /** None of the five characters `escapeHtml` rewrites. */
  predicate Plain(s: string) {
    '&' !in s && '<' !in s && '>' !in s && '"' !in s && '\'' !in s
  }

  /** The entity that stands for one character, or the character itself. */
  function EntityOf(c: char): string {
    if c == '&' then "&amp;"
    else if c == '<' then "&lt;"
    else if c == '>' then "&gt;"
    else if c == '"' then "&quot;"
    else if c == '\'' then "&#039;"
    else [c]
  }

  /** The escaping as one pass, character by character: the reference the chain of replacements is held to. */
  function EscapeEach(s: string): string {
    if s == [] then [] else EntityOf(s[0]) + EscapeEach(s[1..])
  }

  /** How much one character grows, and that its replacement holds no markup character. */
  lemma {:induction false} EntityFacts(c: char)
    ensures |EntityOf(c)| == 1 + (if c == '&' then 4 else if c == '<' || c == '>' then 3 else if c == '"' || c == '\'' then 5 else 0)
    ensures var e := EntityOf(c); '<' !in e && '>' !in e && '"' !in e && '\'' !in e
  {
  }

  lemma {:induction false} EscapeEachLength(s: string)
    ensures |EscapeEach(s)| == |s| + 4 * Count(s, '&') + 3 * Count(s, '<') + 3 * Count(s, '>') + 5 * Count(s, '"') + 5 * Count(s, '\'')
  {
    if s != [] {
      var c, t := s[0], s[1..];
      EntityFacts(c);
      EscapeEachLength(t);
      assert |EscapeEach(s)| == |EntityOf(c)| + |EscapeEach(t)|;
      assert Count(s, '&') == (if c == '&' then 1 else 0) + Count(t, '&');
      assert Count(s, '<') == (if c == '<' then 1 else 0) + Count(t, '<');
      assert Count(s, '>') == (if c == '>' then 1 else 0) + Count(t, '>');
      assert Count(s, '"') == (if c == '"' then 1 else 0) + Count(t, '"');
      assert Count(s, '\'') == (if c == '\'' then 1 else 0) + Count(t, '\'');
    }
  }

  lemma {:induction false} EscapeEachNoMarkup(s: string)
    ensures var r := EscapeEach(s); '<' !in r && '>' !in r && '"' !in r && '\'' !in r
  {
    if s != [] {
      EntityFacts(s[0]);
      EscapeEachNoMarkup(s[1..]);
    }
  }

  lemma {:induction false} ReplaceCharAppend(a: string, b: string, c: char, rep: string)
    ensures ReplaceChar(a + b, c, rep) == ReplaceChar(a, c, rep) + ReplaceChar(b, c, rep)
  {
    if a == [] {
      assert a + b == b;
    } else {
      assert (a + b)[1..] == a[1..] + b;
      ReplaceCharAppend(a[1..], b, c, rep);
    }
  }

  lemma {:induction false} EscapeHtmlAppend(a: string, b: string)
    ensures EscapeHtml(a + b) == EscapeHtml(a) + EscapeHtml(b)
  {
    var amp := ReplaceChar(a, '&', "&amp;");
    var amp' := ReplaceChar(b, '&', "&amp;");
    ReplaceCharAppend(a, b, '&', "&amp;");
    var lt := ReplaceChar(amp, '<', "&lt;");
    var lt' := ReplaceChar(amp', '<', "&lt;");
    ReplaceCharAppend(amp, amp', '<', "&lt;");
    var gt := ReplaceChar(lt, '>', "&gt;");
    var gt' := ReplaceChar(lt', '>', "&gt;");
    ReplaceCharAppend(lt, lt', '>', "&gt;");
    ReplaceCharAppend(gt, gt', '"', "&quot;");
    ReplaceCharAppend(ReplaceChar(gt, '"', "&quot;"), ReplaceChar(gt', '"', "&quot;"), '\'', "&#039;");
  }

  /** On one character the chain gives its entity: no later replacement touches an earlier entity. */
  lemma {:induction false} EscapeHtmlChar(c: char)
    ensures EscapeHtml([c]) == EntityOf(c)
  {
    assert [c][1..] == [];
    if c == '&' {
      assert ReplaceChar([c], '&', "&amp;") == "&amp;";
      assert '<' !in "&amp;" && '>' !in "&amp;" && '"' !in "&amp;" && '\'' !in "&amp;";
    } else if c == '<' {
      assert ReplaceChar([c], '<', "&lt;") == "&lt;";
      assert '>' !in "&lt;" && '"' !in "&lt;" && '\'' !in "&lt;";
    } else if c == '>' {
      assert ReplaceChar([c], '>', "&gt;") == "&gt;";
      assert '"' !in "&gt;" && '\'' !in "&gt;";
    } else if c == '"' {
      assert ReplaceChar([c], '"', "&quot;") == "&quot;";
      assert '\'' !in "&quot;";
    } else if c == '\'' {
      assert ReplaceChar([c], '\'', "&#039;") == "&#039;";
    }
  }

  /** The chain of replacements escapes character by character. */
  lemma {:induction false} EscapeHtmlIsEscapeEach(s: string)
    ensures EscapeHtml(s) == EscapeEach(s)
  {
    if s == [] {
    } else {
      assert s == [s[0]] + s[1..];
      EscapeHtmlAppend([s[0]], s[1..]);
      EscapeHtmlChar(s[0]);
      EscapeHtmlIsEscapeEach(s[1..]);
    }
  }

  /** What `escapeHtml` returns holds none of `<`, `>`, `"` and `'`. */
  lemma {:induction false} EscapedHasNoMarkup(s: string)
    ensures var r := EscapeHtml(s); '<' !in r && '>' !in r && '"' !in r && '\'' !in r
  {
    EscapeHtmlIsEscapeEach(s);
    EscapeEachNoMarkup(s);
  }

  /** Each `&` grows by four characters, `<` and `>` by three, `"` and `'` by five. */
  lemma {:induction false} EscapedLength(s: string)
    ensures |EscapeHtml(s)| == |s| + 4 * Count(s, '&') + 3 * Count(s, '<') + 3 * Count(s, '>') + 5 * Count(s, '"') + 5 * Count(s, '\'')
  {
    EscapeHtmlIsEscapeEach(s);
    EscapeEachLength(s);
  }

  /** `&` is escaped first, so an entity already in the text, `&lt;` say, is escaped again (to `&amp;lt;`) rather than kept. */
  lemma {:induction false} EntityEscapedAgain(rest: string)
    requires Plain(rest)
    ensures EscapeHtml("&" + rest) == "&amp;" + rest
    ensures EscapeHtml("&" + rest) != "&" + rest
  {
    EscapeHtmlAppend("&", rest);
    EscapeHtmlChar('&');
  }

  /** Reading the five entities back, in one left-to-right pass. */
  function Unescape(s: string): string {
    if s == [] then []
    else if s[0] != '&' then [s[0]] + Unescape(s[1..])
    else if |s| >= 5 && s[..5] == "&amp;" then "&" + Unescape(s[5..])
    else if |s| >= 4 && s[..4] == "&lt;" then "<" + Unescape(s[4..])
    else if |s| >= 4 && s[..4] == "&gt;" then ">" + Unescape(s[4..])
    else if |s| >= 6 && s[..6] == "&quot;" then "\"" + Unescape(s[6..])
    else if |s| >= 6 && s[..6] == "&#039;" then "'" + Unescape(s[6..])
    else [s[0]] + Unescape(s[1..])
  }

  lemma {:induction false} UnescapeEntity(c: char, rest: string)
    ensures Unescape(EntityOf(c) + rest) == [c] + Unescape(rest)
  {
    if c == '&' {
      UnescapeAmp(rest);
    } else if c == '<' {
      UnescapeLt(rest);
    } else if c == '>' {
      UnescapeGt(rest);
    } else if c == '"' {
      UnescapeQuot(rest);
    } else if c == '\'' {
      UnescapeApos(rest);
    } else {
      UnescapeOther(c, rest);
    }
  }

  lemma {:induction false} UnescapeAmp(rest: string)
    ensures Unescape("&amp;" + rest) == "&" + Unescape(rest)
  {
    var t := "&amp;" + rest;
    assert t[..5] == "&amp;" && t[5..] == rest;
  }

  lemma {:induction false} UnescapeLt(rest: string)
    ensures Unescape("&lt;" + rest) == "<" + Unescape(rest)
  {
    var t := "&lt;" + rest;
    assert t[..4] == "&lt;" && t[4..] == rest;
    assert t[1] == 'l';
  }

  lemma {:induction false} UnescapeGt(rest: string)
    ensures Unescape("&gt;" + rest) == ">" + Unescape(rest)
  {
    var t := "&gt;" + rest;
    assert t[..4] == "&gt;" && t[4..] == rest;
    assert t[1] == 'g';
  }

  lemma {:induction false} UnescapeQuot(rest: string)
    ensures Unescape("&quot;" + rest) == "\"" + Unescape(rest)
  {
    var t := "&quot;" + rest;
    assert t[..6] == "&quot;" && t[6..] == rest;
    assert t[1] == 'q';
  }

  lemma {:induction false} UnescapeApos(rest: string)
    ensures Unescape("&#039;" + rest) == "'" + Unescape(rest)
  {
    var t := "&#039;" + rest;
    assert t[..6] == "&#039;" && t[6..] == rest;
    assert t[1] == '#';
  }

  lemma {:induction false} UnescapeOther(c: char, rest: string)
    requires c != '&'
    ensures Unescape([c] + rest) == [c] + Unescape(rest)
  {
    var t := [c] + rest;
    assert t[0] == c && t[1..] == rest;
  }

  /** Unescaping the escaped text gives the original back. */
  lemma {:induction false} UnescapeEscape(s: string)
    ensures Unescape(EscapeHtml(s)) == s
  {
    EscapeHtmlIsEscapeEach(s);
    UnescapeEscapeEach(s);
  }

  lemma {:induction false} UnescapeEscapeEach(s: string)
    ensures Unescape(EscapeEach(s)) == s
  {
    if s != [] {
      UnescapeEntity(s[0], EscapeEach(s[1..]));
      UnescapeEscapeEach(s[1..]);
    }
  }

  // ----- isUserArray -----

  /** `typeof v === "object"`, which holds for `null` as well. */
  predicate TypeofObject(v: Value) {
    v.Null? || v.Arr? || v.Obj?
  }

  /** `key in v` for the keys asked about here, none of which is an array index. */
  predicate InOperator(v: Value, key: string) {
    match v
    case Obj(props) => HasKey(props, key)
    case Arr(_) => key == "length"
    case _ => false
  }

  /** `v[key]`. */
  function Prop(v: Value, key: string): Value {
    if v.Obj? then Get(v.props, key) else Undefined
  }

  /**
   * The test `isUserArray` applies to each element. It passes exactly the
   * objects whose five fields have the right types: `null` and arrays fail,
   * and the `in` tests add nothing to the `typeof` tests.
   */
  predicate IsUserShape(u: Value)
    ensures IsUserShape(u) <==>
              && u.Obj?
              && Get(u.props, "id").Num? && Get(u.props, "username").Str? && Get(u.props, "fname").Str?
              && Get(u.props, "lname").Str? && Get(u.props, "email").Str?
  {
    && Truthy(u) && TypeofObject(u)
    && InOperator(u, "id") && InOperator(u, "username") && InOperator(u, "fname")
    && InOperator(u, "lname") && InOperator(u, "email")
    && Prop(u, "id").Num? && Prop(u, "username").Str? && Prop(u, "fname").Str?
    && Prop(u, "lname").Str? && Prop(u, "email").Str?
  }

  /** `isUserArray`: an array every element of which passes the test (so the empty array does). */
  predicate IsUserArray(data: Value)
    ensures !data.Arr? ==> !IsUserArray(data)
    ensures data == Arr([]) ==> IsUserArray(data)
    ensures IsUserArray(data) ==> forall i :: 0 <= i < |data.items| ==> data.items[i].Obj?
  {
    data.Arr? && forall i :: 0 <= i < |data.items| ==> IsUserShape(data.items[i])
  }

  /** The user an accepted element describes. */
  function UserOf(u: Value): (r: Option<UserRecord>)
    ensures r.Some? <==> IsUserShape(u)
    ensures r.Some? ==> Prop(u, "id") == Num(r.value.id) && Prop(u, "username") == Str(r.value.username)
                        && Prop(u, "fname") == Str(r.value.fname) && Prop(u, "lname") == Str(r.value.lname)
                        && Prop(u, "email") == Str(r.value.email)
  {
    if IsUserShape(u) then
      Some(UserRecord(Prop(u, "id").n, Prop(u, "username").s, Prop(u, "fname").s, Prop(u, "lname").s, Prop(u, "email").s))
    else None
  }

  /** The five columns of a user row as JSON properties, followed by the row's other columns. */
  function RowProps(u: UserRecord, others: seq<(string, Value)>): seq<(string, Value)> {
    [("id", Num(u.id))] + ([("username", Str(u.username))] + ([("fname", Str(u.fname))]
      + ([("lname", Str(u.lname))] + ([("email", Str(u.email))] + others))))
  }

  /** The first property with a key is the one read. */
  lemma {:induction false} GetHead(key: string, v: Value, rest: seq<(string, Value)>)
    ensures Get([(key, v)] + rest, key) == v
  {
  }

  /** A property with another key is passed over. */
  lemma {:induction false} GetSkip(key: string, other: string, v: Value, rest: seq<(string, Value)>)
    requires key != other
    ensures Get([(other, v)] + rest, key) == Get(rest, key)
  {
    assert ([(other, v)] + rest)[1..] == rest;
  }

  /**
   * A row as the server sends it, the five columns followed by any others,
   * passes the element test and describes that very row.
   */
  lemma {:induction false} RowAccepted(u: UserRecord, others: seq<(string, Value)>)
    ensures IsUserShape(Obj(RowProps(u, others)))
    ensures UserOf(Obj(RowProps(u, others))) == Some(u)
  {
    var v := Obj(RowProps(u, others));
    RowFields(u, others);
    assert Prop(v, "id") == Num(u.id) && Prop(v, "username") == Str(u.username)
        && Prop(v, "fname") == Str(u.fname) && Prop(v, "lname") == Str(u.lname)
        && Prop(v, "email") == Str(u.email);
    assert InOperator(v, "id") && InOperator(v, "username") && InOperator(v, "fname")
        && InOperator(v, "lname") && InOperator(v, "email");
    assert IsUserShape(v);
  }

  /** Reading each of the five columns from a row's properties gives the row's value. */
  lemma {:induction false} RowFields(u: UserRecord, others: seq<(string, Value)>)
    ensures var props := RowProps(u, others);
            && Get(props, "id") == Num(u.id) && Get(props, "username") == Str(u.username)
            && Get(props, "fname") == Str(u.fname) && Get(props, "lname") == Str(u.lname)
            && Get(props, "email") == Str(u.email)
  {
    var p4 := [("email", Str(u.email))] + others;
    var p3 := [("lname", Str(u.lname))] + p4;
    var p2 := [("fname", Str(u.fname))] + p3;
    var p1 := [("username", Str(u.username))] + p2;
    GetHead("email", Str(u.email), others);
    GetSkip("email", "lname", Str(u.lname), p4);
    GetSkip("email", "fname", Str(u.fname), p3);
    GetSkip("email", "username", Str(u.username), p2);
    GetSkip("email", "id", Num(u.id), p1);
    GetHead("lname", Str(u.lname), p4);
    GetSkip("lname", "fname", Str(u.fname), p3);
    GetSkip("lname", "username", Str(u.username), p2);
    GetSkip("lname", "id", Num(u.id), p1);
    GetHead("fname", Str(u.fname), p3);
    GetSkip("fname", "username", Str(u.username), p2);
    GetSkip("fname", "id", Num(u.id), p1);
    GetHead("username", Str(u.username), p2);
    GetSkip("username", "id", Num(u.id), p1);
    GetHead("id", Num(u.id), p1);
  }

  /** The JSON of a page of users, as `getUsers` sends it (the extra columns of each row in `others`). */
  function UsersJson(users: seq<UserRecord>, others: seq<seq<(string, Value)>>): (v: Value)
    requires |others| == |users|
  {
    Arr(seq(|users|, i requires 0 <= i < |users| => Obj(RowProps(users[i], others[i]))))
  }

  /** What the server sends for a page of users is accepted by the browser, and read back as the same users. */
  lemma {:induction false} UsersJsonAccepted(users: seq<UserRecord>, others: seq<seq<(string, Value)>>)
    requires |others| == |users|
    ensures IsUserArray(UsersJson(users, others))
    ensures forall i :: 0 <= i < |users| ==> UserOf(UsersJson(users, others).items[i]) == Some(users[i])
  {
    forall i | 0 <= i < |users|
      ensures IsUserShape(UsersJson(users, others).items[i])
      ensures UserOf(UsersJson(users, others).items[i]) == Some(users[i])
    {
      RowAccepted(users[i], others[i]);
    }
  }

  /** An element missing a field, or holding one of the wrong type, makes the whole list fail. */
  lemma {:induction false} OneBadElementRejects(data: Value, i: int)
    requires data.Arr? && 0 <= i < |data.items| && !IsUserShape(data.items[i])
    ensures !IsUserArray(data)
  {
  }
}
