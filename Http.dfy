/** The slice of the HTTP stack the handlers touch: responses with a status,
    headers and a body; header-value validity in both directions; and the text
    of a Set-Cookie header as the `cookie` crate writes it. */
module Http {

  import opened Lib

  const FOUND: nat := 302
  const BAD_REQUEST: nat := 400
  const UNAUTHORIZED: nat := 401
  const INTERNAL_SERVER_ERROR: nat := 500
  const SERVICE_UNAVAILABLE: nat := 503

  const LOCATION := "location"
  const SET_COOKIE := "set-cookie"
  const CONTENT_TYPE := "content-type"
  const APPLICATION_JSON := "application/json"

  /** A JSON body here is always one flat object of string fields. */
  datatype Body = Empty | Json(fields: map<string, string>)

  /** Header names map to their value; `HeaderMap::insert` replaces. */
  datatype Response = Response(status: nat, headers: map<string, string>, body: Body)

  // ---------------------------------------------------------------------------
  // Header values

  /** `HeaderValue::to_str` accepts only visible ASCII and tab. */
  predicate IsVisibleAscii(b: u8) {
    b == 9 || (32 <= b < 127)
  }

  /** `HeaderValue::to_str`: the header's bytes as text, or `None`. */
  function HeaderToStr(h: seq<u8>): Option<string> {
    if forall i :: 0 <= i < |h| ==> IsVisibleAscii(h[i])
    then Some(seq(|h|, i requires 0 <= i < |h| => h[i] as char))
    else None
  }

  /** `value.to_str().unwrap_or_default()`: an unreadable header reads as "". */
  function HeaderText(h: seq<u8>): string {
    match HeaderToStr(h)
    case Some(s) => s
    case None => ""
  }

  /** `HeaderValue::from_str` rejects control characters other than tab, and
      DEL; every byte of a non-ASCII character is accepted. */
  predicate IsHeaderValueChar(c: char) {
    c == '\t' || (32 <= c as int && c as int != 127)
  }

  function HeaderValueFromStr(s: string): Option<string> {
    if forall i :: 0 <= i < |s| ==> IsHeaderValueChar(s[i]) then Some(s) else None
  }

  // ---------------------------------------------------------------------------
  // Cookies

  /** A Set-Cookie line as the `cookie` crate writes it: `name=value`, then
      `; attribute` for each attribute. */
  function SetCookieLine(name: string, value: string, attributes: seq<string>): string {
    name + "=" + value + AttributeText(attributes)
  }

  function AttributeText(attributes: seq<string>): string {
    if attributes == [] then "" else "; " + attributes[0] + AttributeText(attributes[1..])
  }

  const HTTP_ONLY := "HttpOnly"

  /** `Cookie::build(name, value).http_only(true).finish().to_string()`. */
  function HttpOnlyCookie(name: string, value: string): string {
    SetCookieLine(name, value, [HTTP_ONLY])
  }

  /** Position of the first `c` in `s`, or `|s|` when there is none. */
  function IndexOf(s: string, c: char): (k: nat)
    ensures k <= |s|
    ensures forall i :: 0 <= i < k ==> s[i] != c
    ensures k < |s| ==> s[k] == c
  {
    if s == [] then 0
    else if s[0] == c then 0
    else 1 + IndexOf(s[1..], c)
  }

  /** How a browser reads the name and the value at the head of a Set-Cookie
      line: the name runs to the first '=', the value from there to the first ';'. */
  function CookiePair(line: string): (string, string) {
    var eq := IndexOf(line, '=');
    var rest := if eq < |line| then line[eq + 1..] else "";
    (line[..eq], rest[..IndexOf(rest, ';')])
  }

  lemma {:induction false} IndexOfStopsAtBoundary(a: string, b: string, c: char)
    requires c !in a
    requires b == [] || b[0] == c
    ensures IndexOf(a + b, c) == |a|
  {
    if a != [] {
      assert (a + b)[1..] == a[1..] + b;
      IndexOfStopsAtBoundary(a[1..], b, c);
    }
  }

  /** The attribute list of a Set-Cookie line as a browser reads it: the
      `;`-separated parts after the name-value pair, leading spaces dropped
      and empty parts ignored. */
  function CookieAttributes(line: string): seq<string> {
    var semi := IndexOf(line, ';');
    if semi < |line| then AttributeList(line[semi + 1..]) else []
  }

  function AttributeList(s: string): seq<string>
    decreases |s|
  {
    var k := IndexOf(s, ';');
    var part := TrimLeadingSpaces(s[..k]);
    (if part == "" then [] else [part]) + (if k < |s| then AttributeList(s[k + 1..]) else [])
  }

  function TrimLeadingSpaces(s: string): string {
    if s != [] && s[0] == ' ' then TrimLeadingSpaces(s[1..]) else s
  }

  /** An attribute a cookie line can carry and read back unchanged. */
  predicate IsAttribute(a: string) {
    a != "" && a[0] != ' ' && ';' !in a
  }

  /** One attribute, written as ` attribute` before the next ';' (or the
      end), is read back as itself. */
  lemma AttributeListStep(a: string, rest: string)
    requires IsAttribute(a)
    requires rest == [] || rest[0] == ';'
    ensures AttributeList(" " + a + rest) == [a] + (if rest == [] then [] else AttributeList(rest[1..]))
  {
    var s := " " + a + rest;
    IndexOfStopsAtBoundary(" " + a, rest, ';');
    assert s[..|a| + 1] == " " + a;
    assert (" " + a)[1..] == a;
    assert TrimLeadingSpaces(" " + a) == a;
    if rest != [] {
      assert s[|a| + 2..] == rest[1..];
    } else {
      assert |s| == |a| + 1;
    }
  }

  /** A line that opens with ';' has the attributes of what follows it. */
  lemma CookieAttributesAtSemicolon(s: string)
    requires s != [] && s[0] == ';'
    ensures CookieAttributes(s) == AttributeList(s[1..])
  {
  }

  lemma AttributeTextStart(attributes: seq<string>, tail: string)
    requires tail == "" || tail == ";"
    ensures var text := AttributeText(attributes) + tail; text == [] || text[0] == ';'
  {
  }

  /** The attributes written after a pair read back as written, whether or
      not the line ends in a stray ';'. */
  lemma {:induction false} AttributeTextRoundTrip(attributes: seq<string>, tail: string)
    requires forall i :: 0 <= i < |attributes| ==> IsAttribute(attributes[i])
    requires tail == "" || tail == ";"
    ensures CookieAttributes(AttributeText(attributes) + tail) == attributes
  {
    var line := AttributeText(attributes) + tail;
    if attributes == [] {
      assert line == tail;
      if tail != "" {
        CookieAttributesAtSemicolon(line);
        assert line[1..] == [];
      }
    } else {
      var a := attributes[0];
      var rest := AttributeText(attributes[1..]) + tail;
      var spaced := [' '] + a;
      assert line == [';'] + (spaced + rest);
      assert line[1..] == spaced + rest;
      CookieAttributesAtSemicolon(line);
      AttributeTextStart(attributes[1..], tail);
      AttributeTextRoundTrip(attributes[1..], tail);
      if rest != [] {
        CookieAttributesAtSemicolon(rest);
      }
      assert IsAttribute(a);
      AttributeListStep(a, rest);
      assert attributes == [a] + attributes[1..];
    }
  }

  /** The attributes of a line are those after its first ';'. */
  lemma CookieAttributesAfterPrefix(prefix: string, text: string)
    requires ';' !in prefix
    requires text == [] || text[0] == ';'
    ensures CookieAttributes(prefix + text) == CookieAttributes(text)
  {
    IndexOfStopsAtBoundary(prefix, text, ';');
    if text != [] {
      CookieAttributesAtSemicolon(text);
      assert (prefix + text)[|prefix| + 1..] == text[1..];
    }
  }

  /** The pair of a line is read up to the first ';' after the '='. */
  lemma CookiePairBeforeText(name: string, value: string, text: string)
    requires '=' !in name && ';' !in value
    requires text == [] || text[0] == ';'
    ensures CookiePair(name + "=" + value + text) == (name, value)
  {
    var after := value + text;
    var line := name + (['='] + after);
    assert name + "=" + value + text == line;
    IndexOfStopsAtBoundary(name, ['='] + after, '=');
    assert line[..|name|] == name;
    assert line[|name| + 1..] == after;
    IndexOfStopsAtBoundary(value, text, ';');
    assert after[..|value|] == value;
  }

  /** A browser reading a Set-Cookie line (with or without a stray ';' at the
      end) recovers the name, the value and every attribute it was written
      with, when the name has no '=' or ';' and the value no ';'. */
  lemma CookieLineRoundTrip(name: string, value: string, attributes: seq<string>, tail: string)
    requires '=' !in name && ';' !in name && ';' !in value
    requires forall i :: 0 <= i < |attributes| ==> IsAttribute(attributes[i])
    requires tail == "" || tail == ";"
    ensures CookiePair(SetCookieLine(name, value, attributes) + tail) == (name, value)
    ensures CookieAttributes(SetCookieLine(name, value, attributes) + tail) == attributes
  {
    var text := AttributeText(attributes) + tail;
    assert text == [] || text[0] == ';';
    assert SetCookieLine(name, value, attributes) + tail == name + "=" + value + text;
    CookiePairBeforeText(name, value, text);
    assert ';' !in name + "=" + value;
    assert SetCookieLine(name, value, attributes) + tail == (name + "=" + value) + text;
    CookieAttributesAfterPrefix(name + "=" + value, text);
    AttributeTextRoundTrip(attributes, tail);
  }

  /** A browser reading an http-only cookie line recovers the name and the
      value it was built from, and the one attribute `HttpOnly`. */
  lemma CookiePairOfHttpOnlyCookie(name: string, value: string)
    requires '=' !in name && ';' !in name && ';' !in value
    ensures CookiePair(HttpOnlyCookie(name, value)) == (name, value)
    ensures CookieAttributes(HttpOnlyCookie(name, value)) == [HTTP_ONLY]
  {
    assert IsAttribute(HTTP_ONLY);
    CookieLineRoundTrip(name, value, [HTTP_ONLY], "");
    assert HttpOnlyCookie(name, value) + "" == HttpOnlyCookie(name, value);
  }
}
