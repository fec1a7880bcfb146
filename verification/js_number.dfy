/** JavaScript's integer-to-text and text-to-integer conversions as
    `AuthService` uses them on `expires_at`: `Number.prototype.toString()` for
    an integer, and the global `parseInt` with no radix (section 19.2.5 of
    ECMA-262). `NaN` is `None`. */
module JsNumber {
  import opened Values

  predicate IsDigit(c: char) {
    '0' <= c <= '9'
  }

  predicate IsHexDigit(c: char) {
    IsDigit(c) || ('a' <= c <= 'f') || ('A' <= c <= 'F')
  }

  function DigitChar(d: nat): (c: char)
    requires d < 10
    ensures IsDigit(c)
  {
    (48 + d) as char
  }

  function DigitValue(c: char): (d: nat)
    requires IsHexDigit(c)
    ensures d < 16
    ensures IsDigit(c) ==> d < 10
  {
    if IsDigit(c) then c as int - 48
    else if 'a' <= c <= 'f' then c as int - 87
    else c as int - 55
  }

  predicate AllDigits(s: string) {
    forall i | 0 <= i < |s| :: IsDigit(s[i])
  }

  predicate AllHexDigits(s: string) {
    forall i | 0 <= i < |s| :: IsHexDigit(s[i])
  }

  /** The decimal digits of `n`, without leading zeros. */
  function Digits(n: nat): (s: string)
    ensures |s| >= 1 && AllDigits(s)
    ensures s[0] == '0' ==> n == 0 && |s| == 1
    decreases n
  {
    if n < 10 then [DigitChar(n)]
    else Digits(n / 10) + [DigitChar(n % 10)]
  }

  /** `String(n)` for an integer `n`: a minus sign for negatives, then the digits. */
  function ToString(n: int): (s: string)
    ensures |s| >= 1
    ensures n >= 0 ==> s == Digits(n)
    ensures n < 0 ==> s == "-" + Digits(-n)
  {
    if n < 0 then "-" + Digits(-n) else Digits(n)
  }

  /** The value of a digit string in a radix. */
  function Value(s: string, radix: nat): nat
    requires AllHexDigits(s)
  {
    if s == [] then 0 else Value(s[..|s| - 1], radix) * radix + DigitValue(s[|s| - 1])
  }

  /** The whitespace and line terminators `parseInt` skips (StrWhiteSpaceChar). */
  predicate JsSpace(c: char) {
    || ('\t' <= c <= '\r')
    || c == ' ' || c == '\U{00A0}' || c == '\U{1680}'
    || ('\U{2000}' <= c <= '\U{200A}')
    || c == '\U{2028}' || c == '\U{2029}' || c == '\U{202F}' || c == '\U{205F}'
    || c == '\U{3000}' || c == '\U{FEFF}'
  }

  function SpaceRun(s: string): (n: nat)
    ensures n <= |s|
    ensures forall i | 0 <= i < n :: JsSpace(s[i])
    ensures n < |s| ==> !JsSpace(s[n])
  {
    if |s| == 0 || !JsSpace(s[0]) then 0 else 1 + SpaceRun(s[1..])
  }

  /** The length of the longest prefix of `s` of digits in the radix (10 or 16). */
  function DigitRun(s: string, hex: bool): (n: nat)
    ensures n <= |s|
    ensures forall i | 0 <= i < n :: if hex then IsHexDigit(s[i]) else IsDigit(s[i])
    ensures n < |s| ==> !(if hex then IsHexDigit(s[n]) else IsDigit(s[n]))
  {
    if |s| == 0 || !(if hex then IsHexDigit(s[0]) else IsDigit(s[0])) then 0
    else 1 + DigitRun(s[1..], hex)
  }

  /** Whether the text after the sign carries the "0x" or "0X" prefix. */
  predicate HexPrefixed(u: string) {
    |u| >= 2 && u[0] == '0' && (u[1] == 'x' || u[1] == 'X')
  }

  /** The digits after the sign: hex after a "0x" prefix, else decimal; as
      many as there are, and `NaN` when there is none. */
  function ParseDigits(u: string): Option<nat> {
    if HexPrefixed(u) then
      var n := DigitRun(u[2..], true);
      if n == 0 then None else Some(Value(u[2..][..n], 16))
    else
      var n := DigitRun(u, false);
      if n == 0 then None else Some(Value(u[..n], 10))
  }

  /** `parseInt(s)`: skip leading whitespace, then read a signed number. */
  function ParseInt(s: string): Option<int> {
    ParseSigned(s[SpaceRun(s)..])
  }

  /** An optional sign, then the digits. */
  function ParseSigned(t: string): (r: Option<int>) {
    if |t| > 0 && t[0] == '-' then
      match ParseDigits(t[1..])
      case None => None
      case Some(v) => Some(-(v as int))
    else if |t| > 0 && t[0] == '+' then
      match ParseDigits(t[1..])
      case None => None
      case Some(v) => Some(v)
    else
      match ParseDigits(t)
      case None => None
      case Some(v) => Some(v)
  }

  // ---- Properties -----------------------------------------------------------

  lemma {:induction false} ValueOfDigits(n: nat)
    ensures Value(Digits(n), 10) == n
    decreases n
  {
    var s := Digits(n);
    if n >= 10 {
      ValueOfDigits(n / 10);
      assert s[..|s| - 1] == Digits(n / 10);
    }
  }

  /** What may follow the digits without being read as part of the number:
      not a digit, and not an 'x' that would make a lone "0" a hex prefix. */
  predicate Stops(rest: string) {
    rest == [] || (!IsDigit(rest[0]) && rest[0] != 'x' && rest[0] != 'X')
  }

  /** The digits of a number, followed by a stop, read back as it. */
  lemma ParseDigitsOf(n: nat, rest: string)
    requires Stops(rest)
    ensures ParseDigits(Digits(n) + rest) == Some(n)
  {
    var ds := Digits(n);
    var u := ds + rest;
    assert u[..|ds|] == ds;
    assert !HexPrefixed(u) by {
      if |ds| == 1 {
        assert rest == [] || u[1] == rest[0];
      }
    }
    DigitRunIs(u, |ds|);
    ValueOfDigits(n);
  }

  /** Leading whitespace is skipped. */
  lemma ParseIntAfterSpace(w: string, t: string)
    requires forall i | 0 <= i < |w| :: JsSpace(w[i])
    requires |t| > 0 && !JsSpace(t[0])
    ensures ParseInt(w + t) == ParseSigned(t)
  {
    SpaceRunIs(w + t, |w|);
    assert (w + t)[|w|..] == t;
  }

  /** Leading whitespace and anything after the digits are ignored. */
  lemma ParseIntSurroundings(w: string, n: nat, rest: string)
    requires forall i | 0 <= i < |w| :: JsSpace(w[i])
    requires Stops(rest)
    ensures ParseInt(w + (Digits(n) + rest)) == Some(n)
  {
    var u := Digits(n) + rest;
    assert u[0] == Digits(n)[0];
    ParseIntAfterSpace(w, u);
    ParseDigitsOf(n, rest);
  }

  /** The same after a minus sign. */
  lemma ParseIntNegative(w: string, n: nat, rest: string)
    requires forall i | 0 <= i < |w| :: JsSpace(w[i])
    requires Stops(rest)
    ensures ParseInt(w + ("-" + (Digits(n) + rest))) == Some(-(n as int))
  {
    var u := Digits(n) + rest;
    ParseIntAfterSpace(w, "-" + u);
    ParseDigitsOf(n, rest);
    ParseSignedMinus(u, n);
  }

  lemma ParseSignedMinus(u: string, n: nat)
    requires ParseDigits(u) == Some(n)
    ensures ParseSigned("-" + u) == Some(-(n as int))
  {
    assert ("-" + u)[1..] == u;
  }

  /** Reading back the text of an integer gives the integer: an expiry stored
      as text is compared as the number it was. */
  lemma ParseIntOfToString(n: int)
    ensures ParseInt(ToString(n)) == Some(n)
  {
    if n >= 0 {
      ParseIntSurroundings([], n, []);
      assert [] + (Digits(n) + []) == Digits(n);
    } else {
      ParseIntNegative([], -n, []);
      assert [] + ("-" + (Digits(-n) + [])) == "-" + Digits(-n);
    }
  }

  /** Text that does not start with a digit, a sign or whitespace is `NaN`. */
  lemma ParseIntNaN(s: string)
    requires |s| > 0 && !IsDigit(s[0]) && !JsSpace(s[0]) && s[0] != '-' && s[0] != '+'
    ensures ParseInt(s).None?
  {
    assert s[SpaceRun(s)..] == s;
  }

  lemma {:induction false} SpaceRunIs(x: string, k: nat)
    requires k <= |x|
    requires forall i | 0 <= i < k :: JsSpace(x[i])
    requires k < |x| ==> !JsSpace(x[k])
    ensures SpaceRun(x) == k
    decreases k
  {
    if k > 0 {
      SpaceRunIs(x[1..], k - 1);
    }
  }

  lemma {:induction false} DigitRunIs(x: string, k: nat)
    requires k <= |x|
    requires forall i | 0 <= i < k :: IsDigit(x[i])
    requires k < |x| ==> !IsDigit(x[k])
    ensures DigitRun(x, false) == k
    decreases k
  {
    if k > 0 {
      DigitRunIs(x[1..], k - 1);
    }
  }
}
