/**
 * `Buffer.from(s, 'base64').toString('utf8')` as Node.js computes it.
 *
 * Encoding follows section 4 of RFC 4648: each group of three bytes becomes
 * four characters of the 64-letter alphabet, and a final group of one or two
 * bytes is padded with `=`. Node's decoder is lenient: it accepts both the
 * standard alphabet and the URL-safe one of section 5 (`-` and `_`), skips
 * every other character, stops at the first `=`, and drops a single
 * leftover character.
 */
module Base64 {
  import opened Wrappers

  type Byte = b: int | 0 <= b < 256
  type Sextet = x: int | 0 <= x < 64

  /** Letter `x` of the alphabet of section 4 of RFC 4648. */
  function CharOf(x: Sextet): char {
    if x < 26 then (65 + x) as char
    else if x < 52 then (97 + x - 26) as char
    else if x < 62 then (48 + x - 52) as char
    else if x == 62 then '+'
    else '/'
  }

  /** The value Node's decoder gives a character, `None` for one it skips. */
  function SextetOf(c: char): (r: Option<Sextet>)
    ensures r.None? ==> forall x: Sextet :: CharOf(x) != c
  {
    if 'A' <= c <= 'Z' then Some(c as int - 65)
    else if 'a' <= c <= 'z' then Some(c as int - 97 + 26)
    else if '0' <= c <= '9' then Some(c as int - 48 + 52)
    else if c == '+' || c == '-' then Some(62)
    else if c == '/' || c == '_' then Some(63)
    else None
  }

  lemma {:induction false} SextetOfCharOf(x: Sextet)
    ensures SextetOf(CharOf(x)) == Some(x)
  {
  }

  /** The sextets of three, two or one bytes, most significant bits first. */
  function EncodeSextets(b: seq<Byte>): (xs: seq<Sextet>)
    ensures |xs| == (|b| / 3) * 4 + (if |b| % 3 == 0 then 0 else |b| % 3 + 1)
    decreases |b|
  {
    if |b| == 0 then []
    else if |b| == 1 then [b[0] / 4, (b[0] % 4) * 16]
    else if |b| == 2 then [b[0] / 4, (b[0] % 4) * 16 + b[1] / 16, (b[1] % 16) * 4]
    else [b[0] / 4, (b[0] % 4) * 16 + b[1] / 16, (b[1] % 16) * 4 + b[2] / 64, b[2] % 64] + EncodeSextets(b[3..])
  }

  function Chars(xs: seq<Sextet>): (s: string)
    ensures |s| == |xs|
    ensures forall i :: 0 <= i < |xs| ==> s[i] == CharOf(xs[i])
  {
    seq(|xs|, i requires 0 <= i < |xs| => CharOf(xs[i]))
  }

  /** The `=` that fill the last group of four characters. */
  function Padding(n: nat): string {
    if n % 3 == 1 then "==" else if n % 3 == 2 then "=" else ""
  }

  /** Base64 encoding with padding, section 4 of RFC 4648. */
  function Encode(b: seq<Byte>): (s: string)
    ensures |s| % 4 == 0
    ensures |s| == 4 * ((|b| + 2) / 3)
  {
    Chars(EncodeSextets(b)) + Padding(|b|)
  }

  /** The values of the characters Node's decoder keeps: every alphabet letter up to the first `=`. */
  function Sextets(s: string): (xs: seq<Sextet>)
    ensures |xs| <= |s|
  {
    if s == [] || s[0] == '=' then []
    else match SextetOf(s[0])
      case None => Sextets(s[1..])
      case Some(x) => [x] + Sextets(s[1..])
  }

  /** Four sextets make three bytes; a tail of three makes two, of two makes one, of one makes none. */
  function BytesOf(xs: seq<Sextet>): (b: seq<Byte>)
    ensures |b| == (|xs| / 4) * 3 + (if |xs| % 4 < 2 then 0 else |xs| % 4 - 1)
    decreases |xs|
  {
    if |xs| < 2 then []
    else
      var a, b := xs[0] as int, xs[1] as int;
      if |xs| == 2 then [a * 4 + b / 16]
      else
        var c := xs[2] as int;
        if |xs| == 3 then [a * 4 + b / 16, (b % 16) * 16 + c / 4]
        else [a * 4 + b / 16, (b % 16) * 16 + c / 4, (c % 4) * 64 + xs[3] as int] + BytesOf(xs[4..])
  }

  /**
   * `Buffer.from(s, 'base64')`: three bytes for every four letters kept, two
   * for a leftover three, one for a leftover two, none for a single one; a
   * text starting with `=` decodes to nothing.
   */
  function Decode(s: string): (b: seq<Byte>)
    ensures var n := |Sextets(s)|; |b| == (n / 4) * 3 + (if n % 4 < 2 then 0 else n % 4 - 1)
    ensures |b| <= (|s| / 4) * 3 + 2
    ensures s != [] && s[0] == '=' ==> b == []
  {
    BytesOf(Sextets(s))
  }

  /** The characters of an encoding decode back to its sextets, whatever padding follows. */
  lemma {:induction false} SextetsOfChars(xs: seq<Sextet>, pad: string)
    requires pad == [] || pad[0] == '='
    ensures Sextets(Chars(xs) + pad) == xs
    decreases |xs|
  {
    if xs != [] {
      SextetOfCharOf(xs[0]);
      assert (Chars(xs) + pad)[1..] == Chars(xs[1..]) + pad;
      SextetsOfChars(xs[1..], pad);
    } else {
      assert Chars(xs) + pad == pad;
    }
  }

  /** One group of three bytes survives being split into sextets and joined again. */
  lemma {:induction false} GroupRoundTrip(x: Byte, y: Byte, z: Byte)
    ensures (x / 4) * 4 + ((x % 4) * 16 + y / 16) / 16 == x
    ensures (((x % 4) * 16 + y / 16) % 16) * 16 + ((y % 16) * 4 + z / 64) / 4 == y
    ensures (((y % 16) * 4 + z / 64) % 4) * 64 + z % 64 == z
  {
  }

  lemma {:induction false} BytesOfEncodeSextets(b: seq<Byte>)
    ensures BytesOf(EncodeSextets(b)) == b
    decreases |b|
  {
    if |b| == 1 {
      GroupRoundTrip(b[0], 0, 0);
    } else if |b| == 2 {
      GroupRoundTrip(b[0], b[1], 0);
    } else if |b| >= 3 {
      var x, y, z := b[0], b[1], b[2];
      var rest := EncodeSextets(b[3..]);
      assert EncodeSextets(b) == [x / 4, (x % 4) * 16 + y / 16, (y % 16) * 4 + z / 64, z % 64] + rest;
      BytesOfGroup(x, y, z, rest);
      BytesOfEncodeSextets(b[3..]);
      assert b == [x, y, z] + b[3..];
    }
  }

  /** The four sextets of a full group decode to its three bytes, ahead of whatever follows. */
  lemma {:induction false} BytesOfGroup(x: Byte, y: Byte, z: Byte, rest: seq<Sextet>)
    ensures BytesOf([x / 4, (x % 4) * 16 + y / 16, (y % 16) * 4 + z / 64, z % 64] + rest) == [x, y, z] + BytesOf(rest)
  {
    var xs := [x / 4, (x % 4) * 16 + y / 16, (y % 16) * 4 + z / 64, z % 64] + rest;
    assert xs[4..] == rest;
    GroupRoundTrip(x, y, z);
  }

  /** An encoding holds alphabet letters and `=` only, so never a space. */
  lemma {:induction false} EncodeHasNoSpace(b: seq<Byte>)
    ensures ' ' !in Encode(b)
  {
    var xs := EncodeSextets(b);
    assert SextetOf(' ').None?;
    assert forall i :: 0 <= i < |xs| ==> Chars(xs)[i] != ' ';
  }

  /** Decoding an encoding gives the bytes back. */
  lemma {:induction false} DecodeEncode(b: seq<Byte>)
    ensures Decode(Encode(b)) == b
  {
    SextetsOfChars(EncodeSextets(b), Padding(|b|));
    BytesOfEncodeSextets(b);
  }

  /** Everything from the first `=` on is ignored. */
  lemma {:induction false} DecodeStopsAtPad(s: string, rest: string)
    requires '=' !in s
    ensures Decode(s + "=" + rest) == Decode(s)
  {
    SextetsStopAtPad(s, rest);
  }

  lemma {:induction false} SextetsStopAtPad(s: string, rest: string)
    requires '=' !in s
    ensures Sextets(s + "=" + rest) == Sextets(s)
  {
    if s == [] {
      assert s + "=" + rest == "=" + rest;
    } else {
      assert (s + "=" + rest)[1..] == s[1..] + "=" + rest;
      SextetsStopAtPad(s[1..], rest);
    }
  }

  /** A character outside both alphabets, a space say, is skipped wherever it stands before the first `=`. */
  lemma {:induction false} DecodeSkipsOthers(a: string, c: char, b: string)
    requires '=' !in a && c != '=' && SextetOf(c).None?
    ensures Decode(a + [c] + b) == Decode(a + b)
  {
    SextetsSkipOthers(a, c, b);
  }

  lemma {:induction false} SextetsSkipOthers(a: string, c: char, b: string)
    requires '=' !in a && c != '=' && SextetOf(c).None?
    ensures Sextets(a + [c] + b) == Sextets(a + b)
  {
    if a == [] {
      assert a + [c] + b == [c] + b;
      assert ([c] + b)[1..] == b;
      assert a + b == b;
    } else {
      assert (a + [c] + b)[1..] == a[1..] + [c] + b;
      assert (a + b)[1..] == a[1..] + b;
      SextetsSkipOthers(a[1..], c, b);
    }
  }

  /** The URL-safe letters decode like their standard counterparts. */
  lemma {:induction false} UrlSafeAlphabet(a: string, b: string)
    ensures Decode(a + "-" + b) == Decode(a + "+" + b)
    ensures Decode(a + "_" + b) == Decode(a + "/" + b)
  {
    SextetsSameValue(a, '-', '+', b);
    SextetsSameValue(a, '_', '/', b);
  }

  lemma {:induction false} SextetsSameValue(a: string, c: char, d: char, b: string)
    requires c != '=' && d != '=' && SextetOf(c) == SextetOf(d)
    ensures Sextets(a + [c] + b) == Sextets(a + [d] + b)
  {
    if a == [] {
      assert a + [c] + b == [c] + b;
      assert a + [d] + b == [d] + b;
      assert ([c] + b)[1..] == b && ([d] + b)[1..] == b;
    } else {
      assert (a + [c] + b)[1..] == a[1..] + [c] + b;
      assert (a + [d] + b)[1..] == a[1..] + [d] + b;
      SextetsSameValue(a[1..], c, d, b);
    }
  }

  /**
   * `buf.toString('utf8')` on the bytes seen here: an ASCII byte is its own
   * character, and any other byte stands for the replacement character.
   */
  function Utf8Decode(b: seq<Byte>): (s: string)
    ensures |s| == |b|
    ensures forall i :: 0 <= i < |b| ==> (b[i] < 128 ==> s[i] as int == b[i]) && (b[i] >= 128 ==> s[i] == '�')
  {
    seq(|b|, i requires 0 <= i < |b| => if b[i] < 128 then b[i] as char else '�')
  }

  predicate IsAscii(s: string) {
    forall i :: 0 <= i < |s| ==> s[i] as int < 128
  }

  /** The UTF-8 encoding of an ASCII string: one byte per character. */
  function AsciiBytes(s: string): (b: seq<Byte>)
    requires IsAscii(s)
    ensures |b| == |s|
    ensures forall i :: 0 <= i < |s| ==> b[i] == s[i] as int
  {
    seq(|s|, i requires 0 <= i < |s| => s[i] as int)
  }

  /** An ASCII string survives being encoded to bytes, base64-encoded, decoded and read back as UTF-8. */
  lemma {:induction false} AsciiRoundTrip(s: string)
    requires IsAscii(s)
    ensures Utf8Decode(Decode(Encode(AsciiBytes(s)))) == s
  {
    DecodeEncode(AsciiBytes(s));
  }
}
