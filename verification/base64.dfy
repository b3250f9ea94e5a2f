/**
 * Base64 as the two ends of the push-key exchange use it: the server
 * writes its public key with the URL- and filename-safe alphabet and no
 * padding (section 5 of RFC 4648), and the browser's `atob` reads the
 * standard alphabet (section 4 of RFC 4648) by the forgiving-base64 decode
 * of the HTML standard.
 */
module Base64 {

  import opened Wrappers

  type Byte = x: int | 0 <= x < 256
  type Sextet = x: int | 0 <= x < 64

  /** The standard alphabet, table 1 of RFC 4648. */
  function StdChar(v: Sextet): char {
    if v < 26 then ('A' as int + v) as char
    else if v < 52 then ('a' as int + (v - 26)) as char
    else if v < 62 then ('0' as int + (v - 52)) as char
    else if v == 62 then '+'
    else '/'
  }

  /** The URL- and filename-safe alphabet, table 2 of RFC 4648. */
  function UrlChar(v: Sextet): char {
    if v == 62 then '-'
    else if v == 63 then '_'
    else StdChar(v)
  }

  /** The value of a character of the standard alphabet. */
  function StdValue(c: char): Option<Sextet> {
    if 'A' <= c <= 'Z' then Some(c as int - 'A' as int)
    else if 'a' <= c <= 'z' then Some(c as int - 'a' as int + 26)
    else if '0' <= c <= '9' then Some(c as int - '0' as int + 52)
    else if c == '+' then Some(62)
    else if c == '/' then Some(63)
    else None
  }

  // ------------------------------------------------------------ encoding

  /** Three bytes as four sextets, most significant bits first. */
  function Quad(b0: Byte, b1: Byte, b2: Byte): seq<Sextet> {
    [b0 / 4, (b0 % 4) * 16 + b1 / 16, (b1 % 16) * 4 + b2 / 64, b2 % 64]
  }

  /**
   * The sextets of a byte string: a last group of two bytes gives three
   * sextets and a last single byte gives two, the spare bits zero.
   */
  function Sextets(bytes: seq<Byte>): (r: seq<Sextet>)
    ensures |r| % 4 != 1
    decreases |bytes|
  {
    if |bytes| >= 3 then Quad(bytes[0], bytes[1], bytes[2]) + Sextets(bytes[3..])
    else if |bytes| == 2 then [bytes[0] / 4, (bytes[0] % 4) * 16 + bytes[1] / 16, (bytes[1] % 16) * 4]
    else if |bytes| == 1 then [bytes[0] / 4, (bytes[0] % 4) * 16]
    else []
  }

  /** The `URL_SAFE_NO_PAD` engine of the base64 crate. */
  function EncodeUrlSafeNoPad(bytes: seq<Byte>): (s: string)
    ensures |s| % 4 != 1
  {
    var vs := Sextets(bytes);
    seq(|vs|, i requires 0 <= i < |vs| => UrlChar(vs[i]))
  }

  // ------------------------------------------------------------ decoding

  /** Four sextets back to three bytes; a last group of three or two gives two or one. */
  function DecodeSextets(vs: seq<Sextet>): seq<Byte>
    requires |vs| % 4 != 1
    decreases |vs|
  {
    if |vs| >= 4 then
      [High(vs[0], vs[1]), Middle(vs[1], vs[2]), Low(vs[2], vs[3])] + DecodeSextets(vs[4..])
    else if |vs| == 3 then [High(vs[0], vs[1]), Middle(vs[1], vs[2])]
    else if |vs| == 2 then [High(vs[0], vs[1])]
    else []
  }

  /** The first byte of a group: six bits of one sextet and two of the next. */
  function High(c0: Sextet, c1: Sextet): Byte {
    c0 as int * 4 + c1 as int / 16
  }

  /** The second byte of a group: four bits of each sextet. */
  function Middle(c1: Sextet, c2: Sextet): Byte {
    (c1 as int % 16) * 16 + c2 as int / 4
  }

  /** The third byte of a group: two bits of one sextet and six of the next. */
  function Low(c2: Sextet, c3: Sextet): Byte {
    (c2 as int % 4) * 64 + c3 as int
  }

  /** ASCII whitespace as the HTML standard defines it. */
  predicate IsAsciiWhitespace(c: char) {
    c == ' ' || c == '\t' || c == '\n' || c as int == 0x0C || c == '\r'
  }

  function RemoveWhitespace(s: string): (r: string)
    ensures |r| <= |s|
    decreases |s|
  {
    if s == [] then []
    else if IsAsciiWhitespace(s[0]) then RemoveWhitespace(s[1..])
    else [s[0]] + RemoveWhitespace(s[1..])
  }

  /** Removes one or two trailing `=`. */
  function StripPadding(d: string): string {
    if |d| >= 2 && d[|d| - 1] == '=' && d[|d| - 2] == '=' then d[..|d| - 2]
    else if |d| >= 1 && d[|d| - 1] == '=' then d[..|d| - 1]
    else d
  }

  /** A byte string as a JavaScript string of code units 0 to 255. */
  function ByteString(bytes: seq<Byte>): (s: string)
    ensures |s| == |bytes|
    ensures forall i :: 0 <= i < |s| ==> s[i] as int == bytes[i]
  {
    seq(|bytes|, i requires 0 <= i < |bytes| => bytes[i] as char)
  }

  predicate NoWhitespace(s: string) {
    forall i :: 0 <= i < |s| ==> !IsAsciiWhitespace(s[i])
  }

  /**
   * `window.atob`: the forgiving-base64 decode. `None` is the
   * InvalidCharacterError it throws.
   */
  function Atob(s: string): (r: Option<string>)
    ensures r.Some? ==> forall i :: 0 <= i < |r.value| ==> r.value[i] as int < 256
  {
    var d0 := RemoveWhitespace(s);
    DecodeData(if |d0| % 4 == 0 then StripPadding(d0) else d0)
  }

  /** The decode once whitespace and padding are gone. */
  function DecodeData(d: string): Option<string> {
    if |d| % 4 == 1 then None
    else if !(forall i :: 0 <= i < |d| ==> StdValue(d[i]).Some?) then None
    else Some(ByteString(DecodeSextets(seq(|d|, i requires 0 <= i < |d| => StdValue(d[i]).value))))
  }

  // ------------------------------------------------------------- proofs

  /** Sextets written in the standard alphabet. */
  function StdString(vs: seq<Sextet>): (s: string)
    ensures |s| == |vs|
  {
    seq(|vs|, i requires 0 <= i < |vs| => StdChar(vs[i]))
  }

  /** `p` padding characters. */
  function Padding(p: nat): (s: string)
    ensures |s| == p
    ensures forall i :: 0 <= i < p ==> s[i] == '='
  {
    seq(p, _ => '=')
  }

  /** A string with no whitespace passes the whitespace removal unchanged. */
  lemma {:induction false} NoWhitespaceKept(s: string)
    requires NoWhitespace(s)
    ensures RemoveWhitespace(s) == s
    decreases |s|
  {
    if s != [] {
      NoWhitespaceKept(s[1..]);
      assert [s[0]] + s[1..] == s;
    }
  }

  /** Whitespace removal works piece by piece. */
  lemma {:induction false} RemoveWhitespaceAppend(a: string, b: string)
    ensures RemoveWhitespace(a + b) == RemoveWhitespace(a) + RemoveWhitespace(b)
    decreases |a|
  {
    if a != [] {
      assert (a + b)[1..] == a[1..] + b;
      RemoveWhitespaceAppend(a[1..], b);
    } else {
      assert a + b == b;
    }
  }

  /** Data that still ends in `=` once the padding is stripped never decodes. */
  lemma DecodeDataRejectsPadding(d: string)
    requires |d| > 0 && d[|d| - 1] == '='
    ensures DecodeData(d).None?
  {
    assert StdValue(d[|d| - 1]).None?;
  }

  lemma StdCharFacts(v: Sextet)
    ensures StdValue(StdChar(v)) == Some(v)
    ensures StdChar(v) != '=' && !IsAsciiWhitespace(StdChar(v))
  {
  }

  /** Padding of up to two characters after the data is stripped whole. */
  lemma StripsPadding(d: string, p: nat)
    requires p <= 2 && (d == [] || d[|d| - 1] != '=')
    ensures StripPadding(d + Padding(p)) == d
  {
    var t := d + Padding(p);
    if p == 2 {
      assert t[..|t| - 2] == d;
    } else if p == 1 {
      assert t[..|t| - 1] == d;
    } else {
      assert t == d;
    }
  }

  /** Data in the standard alphabet decodes to the bytes its sextets carry. */
  lemma DecodeDataOfStd(vs: seq<Sextet>)
    requires |vs| % 4 != 1
    ensures DecodeData(StdString(vs)) == Some(ByteString(DecodeSextets(vs)))
  {
    var d := StdString(vs);
    forall i | 0 <= i < |d|
      ensures StdValue(d[i]) == Some(vs[i])
    {
      StdCharFacts(vs[i]);
    }
    assert seq(|d|, i requires 0 <= i < |d| => StdValue(d[i]).value) == vs;
  }

  /** Standard-alphabet data followed by padding has no whitespace. */
  lemma PaddedHasNoWhitespace(vs: seq<Sextet>, p: nat)
    ensures NoWhitespace(StdString(vs) + Padding(p))
  {
    var d := StdString(vs);
    var t := d + Padding(p);
    forall i | 0 <= i < |t|
      ensures !IsAsciiWhitespace(t[i])
    {
      if i < |d| {
        StdCharFacts(vs[i]);
      }
    }
  }

  /** With no whitespace and a length that is a multiple of four, `atob` strips the padding and decodes the rest. */
  lemma AtobSteps(t: string, d: string)
    requires NoWhitespace(t) && |t| % 4 == 0 && StripPadding(t) == d
    ensures Atob(t) == DecodeData(d)
  {
    NoWhitespaceKept(t);
  }

  /**
   * `atob` reads a standard-alphabet encoding with its padding, of any
   * length a byte string can have, as the bytes the sextets carry.
   */
  lemma AtobReadsStandard(vs: seq<Sextet>, p: nat)
    requires |vs| % 4 != 1 && p <= 2 && (|vs| + p) % 4 == 0
    ensures Atob(StdString(vs) + Padding(p)) == Some(ByteString(DecodeSextets(vs)))
  {
    var d := StdString(vs);
    var t := d + Padding(p);
    PaddedHasNoWhitespace(vs, p);
    if d != [] {
      StdCharFacts(vs[|vs| - 1]);
    }
    StripsPadding(d, p);
    AtobSteps(t, d);
    DecodeDataOfStd(vs);
  }

  lemma HighOf(b0: Byte, x: int)
    requires 0 <= x < 16
    ensures High(b0 / 4, (b0 % 4) * 16 + x) == b0
  {
  }

  lemma MiddleOf(h: int, b1: Byte, y: int)
    requires 0 <= h < 4 && 0 <= y < 4
    ensures Middle(h * 16 + b1 / 16, (b1 % 16) * 4 + y) == b1
  {
    assert (h * 16 + b1 / 16) % 16 == b1 / 16;
    assert ((b1 % 16) * 4 + y) / 4 == b1 % 16;
  }

  lemma LowOf(z: int, b2: Byte)
    requires 0 <= z < 16
    ensures Low(z * 4 + b2 / 64, b2 % 64) == b2
  {
    assert (z * 4 + b2 / 64) % 4 == b2 / 64;
  }

  /** The first group of four sextets decodes on its own. */
  lemma DecodeGroup(q: seq<Sextet>, rest: seq<Sextet>)
    requires |q| == 4 && |rest| % 4 != 1
    ensures DecodeSextets(q + rest)
         == [High(q[0], q[1]), Middle(q[1], q[2]), Low(q[2], q[3])] + DecodeSextets(rest)
  {
    assert (q + rest)[4..] == rest;
  }

  lemma QuadRoundTrip(b0: Byte, b1: Byte, b2: Byte)
    ensures var q := Quad(b0, b1, b2);
      High(q[0], q[1]) == b0 && Middle(q[1], q[2]) == b1 && Low(q[2], q[3]) == b2
  {
    HighOf(b0, b1 / 16);
    MiddleOf(b0 % 4, b1, b2 / 64);
    LowOf(b1 % 16, b2);
  }

  /** Decoding the sextets of a byte string gives the byte string back. */
  lemma {:induction false} SextetsRoundTrip(bytes: seq<Byte>)
    ensures DecodeSextets(Sextets(bytes)) == bytes
    decreases |bytes|
  {
    if |bytes| >= 3 {
      var q := Quad(bytes[0], bytes[1], bytes[2]);
      var rest := Sextets(bytes[3..]);
      assert Sextets(bytes) == q + rest;
      SextetsRoundTrip(bytes[3..]);
      QuadRoundTrip(bytes[0], bytes[1], bytes[2]);
      DecodeGroup(q, rest);
      assert bytes == [bytes[0], bytes[1], bytes[2]] + bytes[3..];
    } else if |bytes| == 2 {
      HighOf(bytes[0], bytes[1] / 16);
      MiddleOf(bytes[0] % 4, bytes[1], 0);
    } else if |bytes| == 1 {
      HighOf(bytes[0], 0);
    }
  }
}
