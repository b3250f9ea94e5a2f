/**
 * The JSON wire form of `ChatMessage` produced by the derived `Serialize`
 * and read by the derived `Deserialize` (serde_json, externally tagged enum):
 *
 *   {"TextMessage":{"username":"..","content":"..","signature":null}}
 *   {"SystemMessage":{"content":".."}}
 *   {"ConnectionUsername":{"username":".."}}
 *
 * `Encode` writes the compact form serde_json writes; `Decode` reads it back,
 * tolerating JSON whitespace between tokens and any JSON string escape.
 */
module Json {

  import opened Wrappers
  import opened ChatMessages

  const HexDigits := "0123456789abcdef"

  predicate IsWhitespace(c: char) {
    c == ' ' || c == '\t' || c == '\n' || c == '\r'
  }

  function SkipWhitespace(s: string): (r: string)
    ensures |r| <= |s|
    ensures r == [] || !IsWhitespace(r[0])
  {
    if |s| > 0 && IsWhitespace(s[0]) then SkipWhitespace(s[1..]) else s
  }

  // ---------------------------------------------------------------- strings

  /** How serde_json writes one character inside a string literal. */
  function EscapeChar(c: char): (e: string)
    ensures 1 <= |e| <= 6
    ensures |e| == 1 <==> c != '"' && c != '\\' && c as int >= 0x20
    ensures |e| == 1 ==> e == [c]
    ensures |e| > 1 ==> e[0] == '\\'
  {
    if c == '"' then "\\\""
    else if c == '\\' then "\\\\"
    else if c == '\n' then "\\n"
    else if c == '\r' then "\\r"
    else if c == '\t' then "\\t"
    else if c as int == 0x08 then "\\b"
    else if c as int == 0x0C then "\\f"
    else if c as int < 0x20 then "\\u00" + [HexDigits[c as int / 16], HexDigits[c as int % 16]]
    else [c]
  }

  function Escape(s: string): string {
    if s == [] then [] else EscapeChar(s[0]) + Escape(s[1..])
  }

  /** A JSON string literal denoting `s`. */
  function Quote(s: string): string {
    "\"" + Escape(s) + "\""
  }

  function HexValue(c: char): (r: Option<nat>)
    ensures r.Some? ==> r.value < 16
  {
    if '0' <= c <= '9' then Some(c as int - '0' as int)
    else if 'a' <= c <= 'f' then Some(c as int - 'a' as int + 10)
    else if 'A' <= c <= 'F' then Some(c as int - 'A' as int + 10)
    else None
  }

  /**
   * Reads the escape sequence that follows a backslash. A `\u` escape that
   * names a UTF-16 surrogate is refused (surrogate pairs are not modelled).
   */
  function ParseEscape(s: string): (r: Option<(char, string)>)
    ensures r.Some? ==> |r.value.1| < |s|
  {
    if |s| == 0 then None
    else if s[0] == '"' then Some(('"', s[1..]))
    else if s[0] == '\\' then Some(('\\', s[1..]))
    else if s[0] == '/' then Some(('/', s[1..]))
    else if s[0] == 'b' then Some((0x08 as char, s[1..]))
    else if s[0] == 'f' then Some((0x0C as char, s[1..]))
    else if s[0] == 'n' then Some(('\n', s[1..]))
    else if s[0] == 'r' then Some(('\r', s[1..]))
    else if s[0] == 't' then Some(('\t', s[1..]))
    else if s[0] == 'u' && |s| >= 5 then
      var h3 :- HexValue(s[1]);
      var h2 :- HexValue(s[2]);
      var h1 :- HexValue(s[3]);
      var h0 :- HexValue(s[4]);
      var n := h3 * 4096 + h2 * 256 + h1 * 16 + h0;
      if 0xD800 <= n < 0xE000 then None else Some((n as char, s[5..]))
    else None
  }

  /**
   * Reads the rest of a string literal whose opening quote is already
   * consumed; yields the denoted text and what follows the closing quote.
   */
  function ParseStringBody(s: string): (r: Option<(string, string)>)
    ensures r.Some? ==> |r.value.1| < |s|
    decreases |s|
  {
    if |s| == 0 then None
    else if s[0] == '"' then Some(([], s[1..]))
    else if s[0] == '\\' then
      var e :- ParseEscape(s[1..]);
      var b :- ParseStringBody(e.1);
      Some(([e.0] + b.0, b.1))
    else if s[0] as int < 0x20 then None
    else
      var b :- ParseStringBody(s[1..]);
      Some(([s[0]] + b.0, b.1))
  }

  // ----------------------------------------------------------------- tokens

  function Token(s: string, p: char): Option<string> {
    var t := SkipWhitespace(s);
    if |t| > 0 && t[0] == p then Some(t[1..]) else None
  }

  function StringToken(s: string): Option<(string, string)> {
    var t := SkipWhitespace(s);
    if |t| > 0 && t[0] == '"' then ParseStringBody(t[1..]) else None
  }

  /** `"name": "<value>"` */
  function Field(s: string, name: string): Option<(string, string)> {
    var k :- StringToken(s);
    if k.0 != name then None
    else
      var t :- Token(k.1, ':');
      StringToken(t)
  }

  /** `"name": null` or `"name": "<value>"` */
  function OptionalField(s: string, name: string): Option<(Option<string>, string)> {
    var k :- StringToken(s);
    if k.0 != name then None
    else
      var t :- Token(k.1, ':');
      var u := SkipWhitespace(t);
      if "null" <= u then Some((None, u[4..]))
      else
        var v :- StringToken(u);
        Some((Some(v.0), v.1))
  }

  // ------------------------------------------------------------- envelopes

  function Tag(m: ChatMessage): string {
    match m
    case TextMessage(_, _, _) => "TextMessage"
    case SystemMessage(_) => "SystemMessage"
    case ConnectionUsername(_) => "ConnectionUsername"
  }

  // The encoders nest to the right, the order in which the decoder reads.

  function EncodeField(name: string, value: string): string {
    Quote(name) + (":" + Quote(value))
  }

  function EncodeSignature(sig: Option<string>): string {
    match sig
    case None => "null"
    case Some(s) => Quote(s)
  }

  function EncodeOptionalField(name: string, sig: Option<string>): string {
    Quote(name) + (":" + EncodeSignature(sig))
  }

  function EncodeBody(m: ChatMessage): string {
    match m
    case TextMessage(u, c, sig) =>
      EncodeField("username", u)
      + ("," + (EncodeField("content", c) + ("," + EncodeOptionalField("signature", sig))))
    case SystemMessage(c) => EncodeField("content", c)
    case ConnectionUsername(u) => EncodeField("username", u)
  }

  /** `serde_json::to_string` of a `ChatMessage`: one object holding one object. */
  function Encode(m: ChatMessage): (r: string)
    ensures |r| >= 2 && r[0] == '{' && r[|r| - 1] == '}'
  {
    "{" + (Quote(Tag(m)) + (":" + ("{" + (EncodeBody(m) + "}}"))))
  }

  function DecodeBody(tag: string, s: string): Option<(ChatMessage, string)> {
    if tag == "TextMessage" then
      var u :- Field(s, "username");
      var t1 :- Token(u.1, ',');
      var c :- Field(t1, "content");
      var t2 :- Token(c.1, ',');
      var g :- OptionalField(t2, "signature");
      Some((TextMessage(u.0, c.0, g.0), g.1))
    else if tag == "SystemMessage" then
      var c :- Field(s, "content");
      Some((SystemMessage(c.0), c.1))
    else if tag == "ConnectionUsername" then
      var u :- Field(s, "username");
      Some((ConnectionUsername(u.0), u.1))
    else None
  }

  /** `serde_json::from_str::<ChatMessage>`; `None` is a parse error. */
  function Decode(s: string): (r: Option<ChatMessage>)
    ensures r.Some? ==> |SkipWhitespace(s)| > 0 && SkipWhitespace(s)[0] == '{'
  {
    var t0 :- Token(s, '{');
    var tag :- StringToken(t0);
    var t1 :- Token(tag.1, ':');
    var t2 :- Token(t1, '{');
    var body :- DecodeBody(tag.0, t2);
    var t3 :- Token(body.1, '}');
    var t4 :- Token(t3, '}');
    if SkipWhitespace(t4) == [] then Some(body.0) else None
  }

  // ---------------------------------------------------------------- proofs

  lemma HexDigitValue(k: nat)
    requires k < 16
    ensures HexValue(HexDigits[k]) == Some(k)
  {
    if k < 10 {
      assert '0' <= HexDigits[k] <= '9';
    } else {
      assert 'a' <= HexDigits[k] <= 'f';
    }
  }

  lemma PlainCharStep(s: string)
    requires |s| > 0 && s[0] != '"' && s[0] != '\\' && s[0] as int >= 0x20
    requires ParseStringBody(s[1..]).Some?
    ensures ParseStringBody(s)
         == Some(([s[0]] + ParseStringBody(s[1..]).value.0, ParseStringBody(s[1..]).value.1))
  {
  }

  lemma EscapeStep(s: string, c: char, t: string)
    requires |s| > 0 && s[0] == '\\'
    requires ParseEscape(s[1..]) == Some((c, t))
    requires ParseStringBody(t).Some?
    ensures ParseStringBody(s)
         == Some(([c] + ParseStringBody(t).value.0, ParseStringBody(t).value.1))
  {
  }

  /** A `\u00XX` escape reads back as the control character it names. */
  lemma UnicodeEscapeReadBack(c: char, t: string)
    requires c as int < 0x20
    ensures ParseEscape("u00" + [HexDigits[c as int / 16], HexDigits[c as int % 16]] + t) == Some((c, t))
  {
    var k := c as int;
    var s := "u00" + [HexDigits[k / 16], HexDigits[k % 16]] + t;
    HexDigitValue(k / 16);
    HexDigitValue(k % 16);
    assert s[0] == 'u' && s[1] == '0' && s[2] == '0';
    assert HexValue(s[3]) == Some(k / 16) && HexValue(s[4]) == Some(k % 16);
    assert s[5..] == t;
  }

  /** Every multi-character escape reads back as the escaped character. */
  lemma EscapeReadBack(c: char, t: string)
    requires |EscapeChar(c)| > 1
    ensures ParseEscape(EscapeChar(c)[1..] + t) == Some((c, t))
  {
    var e := EscapeChar(c)[1..];
    if c != '"' && c != '\\' && c != '\n' && c != '\r' && c != '\t'
      && c as int != 0x08 && c as int != 0x0C {
      assert e == "u00" + [HexDigits[c as int / 16], HexDigits[c as int % 16]];
      UnicodeEscapeReadBack(c, t);
    } else {
      assert |e| == 1;
      assert (e + t)[1..] == t;
    }
  }

  /** Reading one escaped character back yields that character. */
  lemma ParseEscapedChar(c: char, t: string)
    requires ParseStringBody(t).Some?
    ensures ParseStringBody(EscapeChar(c) + t)
         == Some(([c] + ParseStringBody(t).value.0, ParseStringBody(t).value.1))
  {
    var e := EscapeChar(c);
    var s := e + t;
    if |e| == 1 {
      assert s[0] == c && s[1..] == t;
      PlainCharStep(s);
    } else {
      assert s[1..] == e[1..] + t;
      EscapeReadBack(c, t);
      EscapeStep(s, c, t);
    }
  }

  /** An escaped text followed by the closing quote reads back as the text. */
  lemma {:induction false} ParseEscapedBody(x: string, tail: string)
    requires |tail| > 0 && tail[0] == '"'
    ensures ParseStringBody(Escape(x) + tail) == Some((x, tail[1..]))
  {
    if x == [] {
      assert Escape(x) + tail == tail;
    } else {
      var e, t := EscapeChar(x[0]), Escape(x[1..]) + tail;
      assert Escape(x) == e + Escape(x[1..]);
      Assoc(e, Escape(x[1..]), tail);
      ParseEscapedBody(x[1..], tail);
      ParseEscapedChar(x[0], t);
      assert [x[0]] + x[1..] == x;
    }
  }

  lemma Assoc(a: string, b: string, c: string)
    ensures (a + b) + c == a + (b + c)
  {
  }

  lemma SkipWhitespaceNoop(s: string)
    requires |s| > 0 && !IsWhitespace(s[0])
    ensures SkipWhitespace(s) == s
  {
  }

  lemma TokenLead(p: char, rest: string)
    requires !IsWhitespace(p)
    ensures Token([p] + rest, p) == Some(rest)
  {
    SkipWhitespaceNoop([p] + rest);
    assert ([p] + rest)[1..] == rest;
  }

  /** A quoted string is read back as itself. */
  lemma StringTokenQuote(x: string, rest: string)
    ensures StringToken(Quote(x) + rest) == Some((x, rest))
  {
    var s := Quote(x) + rest;
    assert s[0] == '"';
    SkipWhitespaceNoop(s);
    var tail := "\"" + rest;
    assert s[1..] == Escape(x) + tail;
    ParseEscapedBody(x, tail);
    assert tail[1..] == rest;
  }

  lemma FieldSteps(s: string, name: string, a: string, value: string)
    requires StringToken(s) == Some((name, a))
    requires Token(a, ':') == Some(value)
    ensures Field(s, name) == StringToken(value)
  {
  }

  lemma FieldRoundTrip(name: string, v: string, rest: string)
    ensures Field(EncodeField(name, v) + rest, name) == Some((v, rest))
  {
    var s := EncodeField(name, v) + rest;
    var value := Quote(v) + rest;
    var a := [':'] + value;
    Assoc(Quote(name), ":" + Quote(v), rest);
    Assoc(":", Quote(v), rest);
    StringTokenQuote(name, a);
    TokenLead(':', value);
    FieldSteps(s, name, a, value);
    StringTokenQuote(v, rest);
  }

  lemma OptionalNullSteps(s: string, name: string, a: string, rest: string)
    requires StringToken(s) == Some((name, a))
    requires Token(a, ':') == Some("null" + rest)
    ensures OptionalField(s, name) == Some((None, rest))
  {
    SkipWhitespaceNoop("null" + rest);
    assert ("null" + rest)[4..] == rest;
  }

  lemma OptionalStringSteps(s: string, name: string, a: string, value: string, v: (string, string))
    requires StringToken(s) == Some((name, a))
    requires Token(a, ':') == Some(value)
    requires |value| > 0 && value[0] == '"'
    requires StringToken(value) == Some(v)
    ensures OptionalField(s, name) == Some((Some(v.0), v.1))
  {
    SkipWhitespaceNoop(value);
    assert !("null" <= value) by {
      assert "null"[0] != value[0];
    }
  }

  lemma OptionalNullRoundTrip(name: string, rest: string)
    ensures OptionalField(EncodeOptionalField(name, None) + rest, name) == Some((None, rest))
  {
    var s := EncodeOptionalField(name, None) + rest;
    var value := "null" + rest;
    var a := [':'] + value;
    Assoc(Quote(name), ":" + "null", rest);
    Assoc(":", "null", rest);
    StringTokenQuote(name, a);
    TokenLead(':', value);
    OptionalNullSteps(s, name, a, rest);
  }

  lemma OptionalStringRoundTrip(name: string, v: string, rest: string)
    ensures OptionalField(EncodeOptionalField(name, Some(v)) + rest, name) == Some((Some(v), rest))
  {
    var s := EncodeOptionalField(name, Some(v)) + rest;
    var value := Quote(v) + rest;
    var a := [':'] + value;
    Assoc(Quote(name), ":" + Quote(v), rest);
    Assoc(":", Quote(v), rest);
    StringTokenQuote(name, a);
    TokenLead(':', value);
    assert value[0] == '"';
    StringTokenQuote(v, rest);
    OptionalStringSteps(s, name, a, value, (v, rest));
  }

  lemma OptionalFieldRoundTrip(name: string, sig: Option<string>, rest: string)
    ensures OptionalField(EncodeOptionalField(name, sig) + rest, name) == Some((sig, rest))
  {
    match sig {
      case None => OptionalNullRoundTrip(name, rest);
      case Some(v) => OptionalStringRoundTrip(name, v, rest);
    }
  }

  lemma TextBodySteps(s: string, u: (string, string), t1: string, c: (string, string), t2: string,
                      g: (Option<string>, string))
    requires Field(s, "username") == Some(u)
    requires Token(u.1, ',') == Some(t1)
    requires Field(t1, "content") == Some(c)
    requires Token(c.1, ',') == Some(t2)
    requires OptionalField(t2, "signature") == Some(g)
    ensures DecodeBody("TextMessage", s) == Some((TextMessage(u.0, c.0, g.0), g.1))
  {
  }

  lemma TextBodyRoundTrip(u: string, c: string, sig: Option<string>, rest: string)
    ensures DecodeBody("TextMessage", EncodeBody(TextMessage(u, c, sig)) + rest)
         == Some((TextMessage(u, c, sig), rest))
  {
    var f1 := EncodeField("username", u);
    var f2 := EncodeField("content", c);
    var f3 := EncodeOptionalField("signature", sig);
    var tail2 := f3 + rest;
    var tail1 := f2 + ([','] + tail2);
    var s := f1 + ([','] + tail1);
    Assoc(f1, "," + (f2 + ("," + f3)), rest);
    Assoc(",", f2 + ("," + f3), rest);
    Assoc(f2, "," + f3, rest);
    Assoc(",", f3, rest);
    FieldRoundTrip("username", u, [','] + tail1);
    TokenLead(',', tail1);
    FieldRoundTrip("content", c, [','] + tail2);
    TokenLead(',', tail2);
    OptionalFieldRoundTrip("signature", sig, rest);
    TextBodySteps(s, (u, [','] + tail1), tail1, (c, [','] + tail2), tail2, (sig, rest));
  }

  lemma DecodeBodyRoundTrip(m: ChatMessage, rest: string)
    ensures DecodeBody(Tag(m), EncodeBody(m) + rest) == Some((m, rest))
  {
    match m {
      case TextMessage(u, c, sig) =>
        TextBodyRoundTrip(u, c, sig, rest);
      case SystemMessage(c) =>
        SystemBodyRoundTrip(c, rest);
      case ConnectionUsername(u) =>
        UsernameBodyRoundTrip(u, rest);
    }
  }

  lemma SystemBodyRoundTrip(c: string, rest: string)
    ensures DecodeBody("SystemMessage", EncodeField("content", c) + rest) == Some((SystemMessage(c), rest))
  {
    FieldRoundTrip("content", c, rest);
  }

  lemma UsernameBodyRoundTrip(u: string, rest: string)
    ensures DecodeBody("ConnectionUsername", EncodeField("username", u) + rest)
         == Some((ConnectionUsername(u), rest))
  {
    FieldRoundTrip("username", u, rest);
  }

  lemma DecodeSteps(s: string, t0: string, tag: (string, string), t1: string, t2: string,
                    body: (ChatMessage, string), t3: string)
    requires Token(s, '{') == Some(t0)
    requires StringToken(t0) == Some(tag)
    requires Token(tag.1, ':') == Some(t1)
    requires Token(t1, '{') == Some(t2)
    requires DecodeBody(tag.0, t2) == Some(body)
    requires Token(body.1, '}') == Some(t3)
    requires Token(t3, '}') == Some([])
    ensures Decode(s) == Some(body.0)
  {
  }

  lemma EnvelopeSteps(tag: string, b: string, m: ChatMessage, closing: string, last: string)
    requires DecodeBody(tag, b + closing) == Some((m, closing))
    requires Token(closing, '}') == Some(last) && Token(last, '}') == Some([])
    ensures Decode("{" + (Quote(tag) + (":" + ("{" + (b + closing))))) == Some(m)
  {
    var body := b + closing;
    var afterColon := "{" + body;
    var afterTag := ":" + afterColon;
    var afterOpen := Quote(tag) + afterTag;
    TokenLead('{', afterOpen);
    StringTokenQuote(tag, afterTag);
    TokenLead(':', afterColon);
    TokenLead('{', body);
    DecodeSteps("{" + afterOpen, afterOpen, (tag, afterTag), afterColon, body, (m, closing), last);
  }

  lemma EnvelopeRoundTrip(m: ChatMessage, closing: string, last: string)
    requires Token(closing, '}') == Some(last) && Token(last, '}') == Some([])
    ensures Decode("{" + (Quote(Tag(m)) + (":" + ("{" + (EncodeBody(m) + closing))))) == Some(m)
  {
    DecodeBodyRoundTrip(m, closing);
    EnvelopeSteps(Tag(m), EncodeBody(m), m, closing, last);
  }

  /** The derived `Deserialize` reads back exactly what `Serialize` wrote. */
  lemma RoundTrip(m: ChatMessage)
    ensures Decode(Encode(m)) == Some(m)
  {
    TokenLead('}', "}");
    TokenLead('}', []);
    EnvelopeRoundTrip(m, "}}", "}");
  }

  /** Distinct envelopes never share a wire form. */
  lemma EncodeInjective(m1: ChatMessage, m2: ChatMessage)
    requires Encode(m1) == Encode(m2)
    ensures m1 == m2
  {
    RoundTrip(m1);
    RoundTrip(m2);
  }
}
