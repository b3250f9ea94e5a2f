/**
 * The browser helper `urlBase64ToUint8Array` that turns the server's
 * public push key, URL-safe base64 without padding, into the bytes the
 * push subscription wants.
 */
module WebPushBridge {

  import opened Wrappers
  import opened Base64

  /** How many `=` bring a length up to a multiple of four. */
  function PaddingLength(n: nat): (p: nat)
    ensures p < 4 && (n + p) % 4 == 0
    ensures n % 4 == 0 <==> p == 0
  {
    (4 - n % 4) % 4
  }

  /** The URL-safe characters `-` and `_` as their standard counterparts. */
  function ToStandard(c: char): char {
    if c == '-' then '+' else if c == '_' then '/' else c
  }

  /** Both `replace` calls of the helper: `-` to `+`, `_` to `/`, all else kept. */
  function Standardize(s: string): (t: string)
    ensures |t| == |s|
    ensures forall i :: 0 <= i < |s| ==>
              && (s[i] == '-' ==> t[i] == '+')
              && (s[i] == '_' ==> t[i] == '/')
              && (s[i] != '-' && s[i] != '_' ==> t[i] == s[i])
  {
    seq(|s|, i requires 0 <= i < |s| => ToStandard(s[i]))
  }

  /**
   * Pads, switches to the standard alphabet, decodes with `atob` and copies
   * the character codes into a byte array. `None` is the exception `atob`
   * throws.
   */
  method UrlBase64ToUint8Array(base64String: string) returns (outputArray: Option<seq<Byte>>)
    ensures outputArray.None? <==>
              Atob(Standardize(base64String + Padding(PaddingLength(|base64String|)))).None?
    ensures outputArray.Some? ==>
              Atob(Standardize(base64String + Padding(PaddingLength(|base64String|))))
              == Some(ByteString(outputArray.value))
    ensures forall key :: base64String == EncodeUrlSafeNoPad(key) ==> outputArray == Some(key)
    ensures |base64String| % 4 == 1 ==> outputArray.None?
  {
    var padding := Padding(PaddingLength(|base64String|));
    var base64 := Standardize(base64String + padding);
    var rawData := Atob(base64);
    forall key | base64String == EncodeUrlSafeNoPad(key)
      ensures rawData == Some(ByteString(key))
    {
      DecodesServerKey(key);
    }
    if |base64String| % 4 == 1 {
      RejectsImpossibleLength(base64String);
    }
    if rawData.None? {
      return None;
    }
    var output := CharCodes(rawData.value);
    outputArray := Some(output);
    forall key | base64String == EncodeUrlSafeNoPad(key)
      ensures output == key
    {
      ByteStringInjective(output, key);
    }
  }

  /** The loop filling the `Uint8Array`: byte i is the code of character i. */
  method CharCodes(raw: string) returns (output: seq<Byte>)
    requires forall i :: 0 <= i < |raw| ==> raw[i] as int < 256
    ensures ByteString(output) == raw
  {
    output := seq(|raw|, _ => 0);
    var i := 0;
    while i < |raw|
      invariant 0 <= i <= |raw| && |output| == |raw|
      invariant forall j :: 0 <= j < i ==> output[j] == raw[j] as int
    {
      // A Uint8Array keeps the low eight bits of what is stored.
      output := output[i := raw[i] as int % 256];
      i := i + 1;
    }
  }

  lemma ByteStringInjective(a: seq<Byte>, b: seq<Byte>)
    ensures ByteString(a) == ByteString(b) ==> a == b
  {
    if ByteString(a) == ByteString(b) {
      assert forall i :: 0 <= i < |a| ==> a[i] == ByteString(a)[i] as int;
    }
  }

  lemma ToStandardOfUrl(v: Sextet)
    ensures ToStandard(UrlChar(v)) == StdChar(v)
  {
  }

  /** The key the server encodes decodes back to the same bytes. */
  lemma DecodesServerKey(key: seq<Byte>)
    ensures var s := EncodeUrlSafeNoPad(key);
            Atob(Standardize(s + Padding(PaddingLength(|s|)))) == Some(ByteString(key))
  {
    var s := EncodeUrlSafeNoPad(key);
    var vs := Sextets(key);
    var p := PaddingLength(|s|);
    var t := Standardize(s + Padding(p));
    forall i | 0 <= i < |t|
      ensures t[i] == (StdString(vs) + Padding(p))[i]
    {
      if i < |vs| {
        ToStandardOfUrl(vs[i]);
      }
    }
    assert t == StdString(vs) + Padding(p);
    AtobReadsStandard(vs, p);
    SextetsRoundTrip(key);
  }

  /** Standardising acts character by character, so it splits over concatenation. */
  lemma StandardizeAppend(a: string, b: string)
    ensures Standardize(a + b) == Standardize(a) + Standardize(b)
  {
  }

  /**
   * No byte string has an encoding of length 4k+1: the three `=` appended
   * to one survive the whitespace removal, and `atob` strips at most two,
   * so a stray `=` is left and it throws.
   */
  lemma RejectsImpossibleLength(s: string)
    requires |s| % 4 == 1
    ensures Atob(Standardize(s + Padding(PaddingLength(|s|)))).None?
  {
    var pad := Padding(3);
    StandardizeAppend(s, pad);
    assert Standardize(pad) == pad;
    NoWhitespaceKept(pad);
    RemoveWhitespaceAppend(Standardize(s), pad);
    var d0 := RemoveWhitespace(Standardize(s)) + pad;
    assert RemoveWhitespace(Standardize(s + pad)) == d0;
    var d := if |d0| % 4 == 0 then StripPadding(d0) else d0;
    if |d0| % 4 == 0 {
      assert d == d0[..|d0| - 2];
    }
    assert |d| > 0 && d[|d| - 1] == '=';
    DecodeDataRejectsPadding(d);
  }
}
