/**
 * The two encoders that build the argument of every command link:
 * `JSON.stringify` applied to a string and `encodeURI`, as ECMAScript
 * defines them (QuoteJSONString in section 25.5.2.3 and Encode in section
 * 19.2.6.5 of ECMA-262). Characters are Unicode scalar values, so no lone
 * surrogate exists and `encodeURI` never throws.
 */
module Encoding {

  const UpperHexDigits: string := "0123456789ABCDEF"
  const LowerHexDigits: string := "0123456789abcdef"

  predicate IsAlphaNumeric(c: char)
  {
    'A' <= c <= 'Z' || 'a' <= c <= 'z' || '0' <= c <= '9'
  }

  /** The uriMark characters of ECMA-262. */
  predicate IsUriMark(c: char)
  {
    c == '-' || c == '_' || c == '.' || c == '!' || c == '~' || c == '*' || c == '\'' || c == '(' || c == ')'
  }

  /** The uriReserved characters of ECMA-262. */
  predicate IsUriReserved(c: char)
  {
    c == ';' || c == '/' || c == '?' || c == ':' || c == '@' || c == '&' || c == '=' || c == '+' || c == '$' || c == ','
  }

  /** The characters `encodeURI` copies: letters, digits, uriMark, uriReserved and `#`. */
  predicate Unescaped(c: char)
  {
    IsAlphaNumeric(c) || IsUriMark(c) || IsUriReserved(c) || c == '#'
  }

  predicate IsUpperHex(c: char)
  {
    '0' <= c <= '9' || 'A' <= c <= 'F'
  }

  /** The UTF-8 encoding of one scalar value. */
  function Utf8(c: char): (bs: seq<nat>)
    ensures 1 <= |bs| <= 4
    ensures forall i :: 0 <= i < |bs| ==> bs[i] < 256
    ensures (|bs| == 1) <==> (c as int) < 0x80
  {
    var n := c as int;
    if n < 0x80 then [n]
    else if n < 0x800 then [0xC0 + n / 64, 0x80 + n % 64]
    else if n < 0x10000 then [0xE0 + n / 4096, 0x80 + (n / 64) % 64, 0x80 + n % 64]
    else [0xF0 + n / 262144, 0x80 + (n / 4096) % 64, 0x80 + (n / 64) % 64, 0x80 + n % 64]
  }

  /** Each byte written `%XY` with upper-case hexadecimal digits. */
  function Percent(bs: seq<nat>): (r: string)
    requires forall i :: 0 <= i < |bs| ==> bs[i] < 256
    decreases |bs|
    ensures |r| == 3 * |bs|
    ensures forall i :: 0 <= i < |r| ==> r[i] == '%' || IsUpperHex(r[i])
  {
    if |bs| == 0 then ""
    else ['%', UpperHexDigits[bs[0] / 16], UpperHexDigits[bs[0] % 16]] + Percent(bs[1..])
  }

  /** What `encodeURI` writes for one character. */
  function EncodeUriChar(c: char): (r: string)
    ensures |r| >= 1
    ensures forall i :: 0 <= i < |r| ==> r[i] == c || r[i] == '%' || IsUpperHex(r[i])
    ensures Unescaped(c) ==> r == [c]
    ensures !Unescaped(c) ==> forall i :: 0 <= i < |r| ==> r[i] == '%' || IsUpperHex(r[i])
  {
    if Unescaped(c) then [c] else Percent(Utf8(c))
  }

  /** `encodeURI(s)`. */
  function EncodeUri(s: string): string
    decreases |s|
  {
    if |s| == 0 then "" else EncodeUriChar(s[0]) + EncodeUri(s[1..])
  }

  /** Every character `encodeURI` writes is `%`, a hexadecimal digit, or an unescaped character of the input. */
  lemma {:induction false} EncodeUriAlphabet(s: string, c: char)
    requires c in EncodeUri(s)
    ensures c == '%' || IsUpperHex(c) || (Unescaped(c) && c in s)
    decreases |s|
  {
    var head := EncodeUriChar(s[0]);
    if c in head {
      var i :| 0 <= i < |head| && head[i] == c;
    } else {
      assert c in EncodeUri(s[1..]);
      EncodeUriAlphabet(s[1..], c);
      if !(c == '%' || IsUpperHex(c)) {
        assert c in s[1..];
      }
    }
  }

  /** An unescaped character of the input is copied to the output. */
  lemma {:induction false} EncodeUriKeeps(s: string, c: char)
    requires Unescaped(c) && c in s
    ensures c in EncodeUri(s)
    decreases |s|
  {
    if s[0] == c {
      assert EncodeUri(s)[0] == c;
    } else {
      assert c in s[1..];
      EncodeUriKeeps(s[1..], c);
      assert EncodeUri(s) == EncodeUriChar(s[0]) + EncodeUri(s[1..]);
    }
  }

  /** Every character of s from index i on is one that encodeURI copies. */
  predicate UnescapedFrom(s: string, i: nat)
    decreases |s| - i
  {
    i >= |s| || (Unescaped(s[i]) && UnescapedFrom(s, i + 1))
  }

  /** Every character of s is one that encodeURI copies. */
  predicate AllUnescaped(s: string)
  {
    UnescapedFrom(s, 0)
  }

  /** Two texts of unescaped characters make one. */
  lemma UnescapedAppend(a: string, b: string)
    requires AllUnescaped(a) && AllUnescaped(b)
    ensures AllUnescaped(a + b)
  {
    UnescapedAppendFrom(a, b, 0);
  }

  lemma {:induction false} UnescapedAppendFrom(a: string, b: string, i: nat)
    requires i <= |a| && UnescapedFrom(a, i) && UnescapedFrom(b, 0)
    ensures UnescapedFrom(a + b, i)
    decreases |a| - i
  {
    if i < |a| {
      UnescapedAppendFrom(a, b, i + 1);
      assert (a + b)[i] == a[i];
    } else {
      UnescapedShifted(a, b, 0);
    }
  }

  lemma {:induction false} UnescapedShifted(a: string, b: string, j: nat)
    requires j <= |b| && UnescapedFrom(b, j)
    ensures UnescapedFrom(a + b, |a| + j)
    decreases |b| - j
  {
    if j < |b| {
      UnescapedShifted(a, b, j + 1);
      assert (a + b)[|a| + j] == b[j];
    }
  }

  /** A text made only of unescaped characters is its own encoding. */
  lemma {:induction false} EncodeUriIdentity(s: string)
    requires AllUnescaped(s)
    ensures EncodeUri(s) == s
    decreases |s|
  {
    if |s| > 0 {
      UnescapedShift(s, 0);
      EncodeUriIdentity(s[1..]);
      assert s == [s[0]] + s[1..];
    }
  }

  lemma {:induction false} UnescapedShift(s: string, i: nat)
    requires i < |s| && UnescapedFrom(s, i)
    ensures UnescapedFrom(s[1..], i)
    decreases |s| - i
  {
    if i + 1 < |s| {
      UnescapedShift(s, i + 1);
    }
  }

  /** `encodeURI` distributes over concatenation. */
  lemma {:induction false} EncodeUriAppend(a: string, b: string)
    ensures EncodeUri(a + b) == EncodeUri(a) + EncodeUri(b)
    decreases |a|
  {
    if |a| > 0 {
      assert (a + b)[1..] == a[1..] + b;
      EncodeUriAppend(a[1..], b);
    } else {
      assert a + b == b;
    }
  }

  /** What QuoteJSONString writes for one character. */
  function JsonChar(c: char): (r: string)
    ensures c != '"' && c != '\\' && (c as int) >= 0x20 ==> r == [c]
    ensures forall i :: 0 <= i < |r| ==> r[i] == c || r[i] == '\\' || IsAlphaNumeric(r[i])
  {
    if c == '\U{8}' then "\\b"
    else if c == '\t' then "\\t"
    else if c == '\n' then "\\n"
    else if c == '\U{C}' then "\\f"
    else if c == '\r' then "\\r"
    else if c == '"' then "\\\""
    else if c == '\\' then "\\\\"
    else if (c as int) < 0x20 then
      ['\\', 'u', '0', '0', LowerHexDigits[(c as int) / 16], LowerHexDigits[(c as int) % 16]]
    else [c]
  }

  /** The escaped body of a JSON string literal. */
  function JsonBody(s: string): string
    decreases |s|
  {
    if |s| == 0 then "" else JsonChar(s[0]) + JsonBody(s[1..])
  }

  /** `JSON.stringify(s)` for a string s. */
  function JsonStringify(s: string): (r: string)
    ensures |r| >= 2 && r[0] == '"' && r[|r| - 1] == '"'
  {
    "\"" + JsonBody(s) + "\""
  }

  /** The body of a concatenation is the concatenation of the bodies. */
  lemma {:induction false} JsonBodyAppend(a: string, b: string)
    ensures JsonBody(a + b) == JsonBody(a) + JsonBody(b)
    decreases |a|
  {
    if |a| == 0 {
      assert a + b == b;
    } else {
      assert (a + b)[0] == a[0] && (a + b)[1..] == a[1..] + b;
      JsonBodyAppend(a[1..], b);
    }
  }

  /** A character other than the escape letters and digits is in the body exactly when it is in the input. */
  lemma {:induction false} JsonBodyKeeps(s: string, c: char)
    requires Transparent(c)
    ensures c in JsonBody(s) <==> c in s
    decreases |s|
  {
    if |s| > 0 {
      JsonBodyKeeps(s[1..], c);
      var head := JsonChar(s[0]);
      assert JsonBody(s) == head + JsonBody(s[1..]);
      assert s == [s[0]] + s[1..];
      if s[0] == c {
        assert head == [c];
      }
      if c in head {
        var i :| 0 <= i < |head| && head[i] == c;
      }
    }
  }

  /** The argument of a command link: `encodeURI(JSON.stringify(v))`. */
  function EncodeArgument(v: string): string
  {
    EncodeUri(JsonStringify(v))
  }

  /** The encoded argument never holds a double quote, a line terminator, or any other escaped character. */
  lemma EncodedAlphabet(v: string, c: char)
    requires c in EncodeArgument(v)
    ensures c == '%' || IsUpperHex(c) || Unescaped(c)
  {
    EncodeUriAlphabet(JsonStringify(v), c);
  }

  /** A character that encodeURI leaves alone and that neither encoder writes of its own. */
  predicate Transparent(c: char)
  {
    Unescaped(c) && !IsAlphaNumeric(c)
  }

  /** Such a character survives both encoders... */
  lemma EncodedKeeps(v: string, c: char)
    requires Transparent(c) && c in v
    ensures c in EncodeArgument(v)
  {
    var j := JsonStringify(v);
    JsonBodyKeeps(v, c);
    assert j == "\"" + JsonBody(v) + "\"";
    assert c in j;
    EncodeUriKeeps(j, c);
  }

  /** ...and only if it was in the input. */
  lemma EncodedOnlyKeeps(v: string, c: char)
    requires Transparent(c) && c in EncodeArgument(v)
    ensures c in v
  {
    var j := JsonStringify(v);
    EncodeUriAlphabet(j, c);
    assert j == "\"" + JsonBody(v) + "\"";
    assert c in JsonBody(v);
    JsonBodyKeeps(v, c);
  }

  /** A tail that both encoders copy stays whole inside the encoded argument. */
  lemma EncodeArgumentSplit(u: string, x: string)
    requires JsonBody(x) == x && EncodeUri(x) == x
    ensures EncodeArgument(u + x) == EncodeUri("\"" + JsonBody(u)) + x + EncodeUri("\"")
  {
    var q := "\"";
    var b := JsonBody(u);
    JsonBodyAppend(u, x);
    assert JsonStringify(u + x) == q + JsonBody(u + x) + q;
    EncodeEnclosedSplit(q, b, x);
  }

  /** Encoding `q + b + x + q` leaves an already encoded `x` in place. */
  lemma EncodeEnclosedSplit(q: string, b: string, x: string)
    requires EncodeUri(x) == x
    ensures EncodeUri(q + (b + x) + q) == EncodeUri(q + b) + x + EncodeUri(q)
  {
    assert q + (b + x) + q == (q + b) + (x + q);
    EncodeUriAppend(q + b, x + q);
    EncodeUriAppend(x, q);
  }

  /** The encoded opening quote and body hold a transparent character only if the input did. */
  lemma QuotedKeeps(u: string, c: char)
    requires Transparent(c) && c !in u
    ensures c !in EncodeUri("\"" + JsonBody(u)) && c !in EncodeUri("\"")
  {
    if c in EncodeUri("\"" + JsonBody(u)) {
      EncodeUriAlphabet("\"" + JsonBody(u), c);
      JsonBodyKeeps(u, c);
    }
    if c in EncodeUri("\"") {
      EncodeUriAlphabet("\"", c);
    }
  }
}
