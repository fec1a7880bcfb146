/** JavaScript's `encodeURIComponent` (section 19.2.6.4 of ECMA-262): every
    character outside the unreserved set A-Z a-z 0-9 - _ . ! ~ * ' ( ) is
    written as the UTF-8 bytes of its code point, each as '%' and two
    upper-case hex digits. Characters here are Unicode scalar values, so the
    `URIError` a lone surrogate raises cannot arise. `Decode` undoes it. */
module UriEncoding {
  import opened Values

  type Byte = b: int | 0 <= b < 256

  predicate Unreserved(c: char) {
    || ('A' <= c <= 'Z') || ('a' <= c <= 'z') || ('0' <= c <= '9')
    || c == '-' || c == '_' || c == '.' || c == '!' || c == '~' || c == '*'
    || c == '\'' || c == '(' || c == ')'
  }

  predicate UpperHex(c: char) {
    ('0' <= c <= '9') || ('A' <= c <= 'F')
  }

  function HexChar(d: nat): (c: char)
    requires d < 16
    ensures UpperHex(c)
  {
    if d < 10 then (48 + d) as char else (55 + d) as char
  }

  function HexValue(c: char): (d: nat)
    requires UpperHex(c)
    ensures d < 16
  {
    if c <= '9' then c as int - 48 else c as int - 55
  }

  lemma HexRoundTrip(d: nat)
    requires d < 16
    ensures HexValue(HexChar(d)) == d
  {
  }

  // ---- UTF-8 ------------------------------------------------------------------

  /** The UTF-8 bytes of one code point. */
  function Utf8(c: char): (bs: seq<Byte>)
    ensures 1 <= |bs| <= 4
    ensures (|bs| == 1) <==> c as int < 0x80
    ensures |bs| == 1 ==> bs[0] == c as int
  {
    var n := c as int;
    if n < 0x80 then [n]
    else if n < 0x800 then [0xC0 + n / 64, 0x80 + n % 64]
    else if n < 0x10000 then [0xE0 + n / 4096, 0x80 + (n / 64) % 64, 0x80 + n % 64]
    else [0xF0 + n / 262144, 0x80 + (n / 4096) % 64, 0x80 + (n / 64) % 64, 0x80 + n % 64]
  }

  function Utf8String(s: string): seq<Byte> {
    if s == [] then [] else Utf8(s[0]) + Utf8String(s[1..])
  }

  predicate Continuation(b: Byte) {
    0x80 <= b < 0xC0
  }

  /** A Unicode scalar value: a code point that is not a surrogate. */
  predicate Scalar(n: int) {
    (0 <= n < 0xD800) || (0xE000 <= n < 0x110000)
  }

  /** The first code point of `bs` and how many bytes it took, if `bs` starts
      with a well-formed sequence. */
  function DecodeOne(bs: seq<Byte>): (r: Option<(char, nat)>)
    ensures r.Some? ==> 1 <= r.value.1 <= |bs|
  {
    if |bs| == 0 then None
    else if bs[0] < 0x80 then Some((bs[0] as char, 1))
    else if bs[0] < 0xC2 then None
    else if bs[0] < 0xE0 then
      if |bs| < 2 || !Continuation(bs[1]) then None
      else Some((((bs[0] as int - 0xC0) * 64 + (bs[1] as int - 0x80)) as char, 2))
    else if bs[0] < 0xF0 then
      if |bs| < 3 || !Continuation(bs[1]) || !Continuation(bs[2]) then None
      else
        var n := (bs[0] as int - 0xE0) * 4096 + (bs[1] as int - 0x80) * 64 + (bs[2] as int - 0x80);
        if n < 0x800 || !Scalar(n) then None else Some((n as char, 3))
    else if bs[0] < 0xF5 then
      if |bs| < 4 || !Continuation(bs[1]) || !Continuation(bs[2]) || !Continuation(bs[3]) then None
      else
        var n := (bs[0] as int - 0xF0) * 262144 + (bs[1] as int - 0x80) * 4096 + (bs[2] as int - 0x80) * 64 + (bs[3] as int - 0x80);
        if n < 0x10000 || !Scalar(n) then None else Some((n as char, 4))
    else None
  }

  /** UTF-8 decoding of a whole byte sequence. */
  function Utf8Decode(bs: seq<Byte>): Option<string>
    decreases |bs|
  {
    if bs == [] then Some([])
    else match DecodeOne(bs)
      case None => None
      case Some((c, k)) =>
        match Utf8Decode(bs[k..])
        case None => None
        case Some(rest) => Some([c] + rest)
  }

  lemma Split64(n: nat)
    ensures n == (n / 64) * 64 + n % 64
    ensures n / 4096 == (n / 64) / 64
    ensures n / 262144 == (n / 4096) / 64
  {
  }

  /** Decoding the bytes of one code point gives it back, whatever follows. */
  lemma DecodeOneUtf8(c: char, rest: seq<Byte>)
    ensures DecodeOne(Utf8(c) + rest) == Some((c, |Utf8(c)|))
  {
    var n := c as int;
    var bs := Utf8(c) + rest;
    Split64(n);
    Split64(n / 64);
    Split64(n / 4096);
    if n < 0x80 {
    } else if n < 0x800 {
      assert bs[0] == 0xC0 + n / 64 && bs[1] == 0x80 + n % 64;
    } else if n < 0x10000 {
      assert bs[0] == 0xE0 + n / 4096 && bs[1] == 0x80 + (n / 64) % 64 && bs[2] == 0x80 + n % 64;
    } else {
      assert bs[0] == 0xF0 + n / 262144;
      assert bs[1] == 0x80 + (n / 4096) % 64 && bs[2] == 0x80 + (n / 64) % 64 && bs[3] == 0x80 + n % 64;
    }
  }

  lemma {:induction false} Utf8RoundTrip(s: string)
    ensures Utf8Decode(Utf8String(s)) == Some(s)
    decreases |s|
  {
    if s != [] {
      var bs := Utf8String(s);
      DecodeOneUtf8(s[0], Utf8String(s[1..]));
      assert bs[|Utf8(s[0])|..] == Utf8String(s[1..]);
      Utf8RoundTrip(s[1..]);
      assert [s[0]] + s[1..] == s;
    }
  }

  // ---- Percent-encoding -------------------------------------------------------

  /** One byte as '%' and two upper-case hex digits. */
  function Escape(b: Byte): (e: string)
    ensures |e| == 3 && e[0] == '%' && UpperHex(e[1]) && UpperHex(e[2])
  {
    ['%', HexChar(b / 16), HexChar(b % 16)]
  }

  function EscapeAll(bs: seq<Byte>): string {
    if bs == [] then [] else Escape(bs[0]) + EscapeAll(bs[1..])
  }

  function EncodeChar(c: char): string {
    if Unreserved(c) then [c] else EscapeAll(Utf8(c))
  }

  /** A character of `encodeURIComponent`'s output alphabet. */
  predicate OutputChar(c: char) {
    Unreserved(c) || c == '%' || UpperHex(c)
  }

  /** `encodeURIComponent`. */
  function Encode(s: string): string {
    if s == [] then [] else EncodeChar(s[0]) + Encode(Rest(s))
  }

  function Rest(s: string): (r: string)
    requires s != []
    ensures r == s[1..]
  {
    s[1..]
  }

  /** The encoding is written in the output alphabet only. */
  lemma {:induction false} EncodeAlphabet(s: string)
    ensures forall i | 0 <= i < |Encode(s)| :: OutputChar(Encode(s)[i])
    decreases |s|
  {
    if s != [] {
      EncodeAlphabet(s[1..]);
      EscapeAllAlphabet(Utf8(s[0]));
      var head := EncodeChar(s[0]);
      var e := Encode(s);
      forall i | 0 <= i < |e|
        ensures OutputChar(e[i])
      {
        if i >= |head| {
          assert e[i] == Encode(s[1..])[i - |head|];
        }
      }
    }
  }

  /** No character of an encoding separates or ends a query parameter. */
  lemma EncodeQuerySafe(s: string)
    ensures forall i | 0 <= i < |Encode(s)| ::
      Encode(s)[i] != '&' && Encode(s)[i] != '=' && Encode(s)[i] != '?' && Encode(s)[i] != '#'
  {
    EncodeAlphabet(s);
  }

  /** Text of unreserved characters is left as it is. */
  lemma {:induction false} EncodeUnreserved(s: string)
    requires forall i | 0 <= i < |s| :: Unreserved(s[i])
    ensures Encode(s) == s
    decreases |s|
  {
    if s != [] {
      EncodeUnreserved(s[1..]);
    }
  }

  lemma {:induction false} EscapeAllAlphabet(bs: seq<Byte>)
    ensures forall i | 0 <= i < |EscapeAll(bs)| :: OutputChar(EscapeAll(bs)[i])
    decreases |bs|
  {
    if bs != [] {
      EscapeAllAlphabet(bs[1..]);
      var e := EscapeAll(bs);
      forall i | 0 <= i < |e|
        ensures OutputChar(e[i])
      {
        if i >= 3 {
          assert e[i] == EscapeAll(bs[1..])[i - 3];
        }
      }
    }
  }

  /** Bytes put in front of a decoding that may have failed. */
  function Prepend(bs: seq<Byte>, o: Option<seq<Byte>>): Option<seq<Byte>> {
    match o
    case None => None
    case Some(r) => Some(bs + r)
  }

  lemma PrependPrepend(a: seq<Byte>, b: seq<Byte>, o: Option<seq<Byte>>)
    ensures Prepend(a, Prepend(b, o)) == Prepend(a + b, o)
  {
    if o.Some? {
      assert a + (b + o.value) == (a + b) + o.value;
    }
  }

  /** Percent-decoding to bytes: an escape gives its byte, any other character
      its UTF-8 bytes. */
  function Unescape(e: string): Option<seq<Byte>>
    decreases |e|
  {
    if e == [] then Some([])
    else if e[0] == '%' then
      if |e| < 3 || !UpperHex(e[1]) || !UpperHex(e[2]) then None
      else Prepend([HexValue(e[1]) * 16 + HexValue(e[2])], Unescape(e[3..]))
    else Prepend(Utf8(e[0]), Unescape(e[1..]))
  }

  /** Decoding: percent-decoding, then UTF-8 decoding. */
  function Decode(e: string): Option<string> {
    match Unescape(e)
    case None => None
    case Some(bs) => Utf8Decode(bs)
  }

  lemma UnescapeEscape(b: Byte, rest: string)
    ensures Unescape(Escape(b) + rest) == Prepend([b], Unescape(rest))
  {
    var e := Escape(b) + rest;
    assert e[3..] == rest;
    assert e[0] == '%' && e[1] == HexChar(b / 16) && e[2] == HexChar(b % 16);
    HexRoundTrip(b / 16);
    HexRoundTrip(b % 16);
  }

  lemma {:induction false} UnescapeEscapeAll(bs: seq<Byte>, rest: string)
    ensures Unescape(EscapeAll(bs) + rest) == Prepend(bs, Unescape(rest))
    decreases |bs|
  {
    if bs == [] {
      assert EscapeAll(bs) + rest == rest;
      if Unescape(rest).Some? {
        assert bs + Unescape(rest).value == Unescape(rest).value;
      }
    } else {
      var b := bs[0];
      assert EscapeAll(bs) + rest == Escape(b) + (EscapeAll(bs[1..]) + rest);
      UnescapeEscape(b, EscapeAll(bs[1..]) + rest);
      UnescapeEscapeAll(bs[1..], rest);
      PrependPrepend([b], bs[1..], Unescape(rest));
      assert [b] + bs[1..] == bs;
    }
  }

  lemma UnescapeEncodeChar(c: char, rest: string)
    ensures Unescape(EncodeChar(c) + rest) == Prepend(Utf8(c), Unescape(rest))
  {
    if Unreserved(c) {
      assert (EncodeChar(c) + rest)[1..] == rest;
    } else {
      UnescapeEscapeAll(Utf8(c), rest);
    }
  }

  lemma {:induction false} UnescapeEncode(s: string)
    ensures Unescape(Encode(s)) == Some(Utf8String(s))
    decreases |s|
  {
    if s != [] {
      UnescapeEncode(s[1..]);
      UnescapeEncodeChar(s[0], Encode(s[1..]));
    }
  }

  /** Decoding the encoding of any string gives the string back, so distinct
      redirect URIs give distinct query values. */
  lemma DecodeEncode(s: string)
    ensures Decode(Encode(s)) == Some(s)
  {
    UnescapeEncode(s);
    Utf8RoundTrip(s);
  }

  lemma EncodeInjective(s: string, t: string)
    requires Encode(s) == Encode(t)
    ensures s == t
  {
    DecodeEncode(s);
    DecodeEncode(t);
  }

  /** Encoding works character by character. */
  lemma {:induction false} EncodeAppend(a: string, b: string)
    ensures Encode(a + b) == Encode(a) + Encode(b)
    decreases |a|
  {
    if a == [] {
      assert a + b == b;
    } else {
      assert (a + b)[1..] == a[1..] + b;
      EncodeAppend(a[1..], b);
    }
  }

  /** A space becomes "%20". */
  lemma EncodeSpace()
    ensures Encode(" ") == "%20"
  {
    assert Utf8(' ') == [32];
    assert EscapeAll([32]) == Escape(32) + EscapeAll([]);
  }
}
