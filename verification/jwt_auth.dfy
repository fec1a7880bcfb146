/** `JwtAuthenticatable`: the bearer token of the `Authorization` header and
    the request-authentication decision. Token decoding (`JWT.decode`, run
    without signature verification) is a parameter: it either yields the
    payload hash or raises `JWT::DecodeError` (`None`). */
module JwtAuth {
  import opened Values

  /** The whitespace of Ruby's awk-style `split(' ')`: space, and '\t' to '\r'. */
  predicate AwkSpace(c: char) {
    c == ' ' || ('\t' <= c <= '\r')
  }

  predicate NoSpace(w: string) {
    forall i | 0 <= i < |w| :: !AwkSpace(w[i])
  }

  predicate AllSpace(w: string) {
    forall i | 0 <= i < |w| :: AwkSpace(w[i])
  }

  /** The length of the longest prefix of `s` without whitespace. */
  function WordRun(s: string): (n: nat)
    ensures n <= |s|
    ensures forall i | 0 <= i < n :: !AwkSpace(s[i])
    ensures n < |s| ==> AwkSpace(s[n])
  {
    if |s| == 0 || AwkSpace(s[0]) then 0 else 1 + WordRun(s[1..])
  }

  /** `s` with its whitespace removed. */
  function Squeeze(s: string): string {
    if s == [] then []
    else (if AwkSpace(s[0]) then [] else [s[0]]) + Squeeze(s[1..])
  }

  /** The fields run together. */
  function Concat(fs: seq<string>): string {
    if fs == [] then [] else fs[0] + Concat(fs[1..])
  }

  lemma {:induction false} SqueezeAppend(x: string, y: string)
    ensures Squeeze(x + y) == Squeeze(x) + Squeeze(y)
    decreases |x|
  {
    if x != [] {
      assert (x + y)[1..] == x[1..] + y;
      SqueezeAppend(x[1..], y);
    } else {
      assert x + y == y;
    }
  }

  lemma {:induction false} SqueezeWord(w: string)
    requires NoSpace(w)
    ensures Squeeze(w) == w
    decreases |w|
  {
    if w != [] {
      SqueezeWord(w[1..]);
    }
  }

  /** Ruby's `String#split(' ')`: the maximal runs of non-whitespace, in order;
      leading and trailing whitespace yield no empty field. */
  function Fields(s: string): (fs: seq<string>)
    ensures forall i | 0 <= i < |fs| :: |fs[i]| > 0 && NoSpace(fs[i])
    ensures Concat(fs) == Squeeze(s)
    decreases |s|
  {
    if s == [] then []
    else if AwkSpace(s[0]) then Fields(s[1..])
    else
      var n := WordRun(s);
      var rest := Fields(s[n..]);
      assert s == s[..n] + s[n..];
      SqueezeAppend(s[..n], s[n..]);
      SqueezeWord(s[..n]);
      assert ([s[..n]] + rest)[1..] == rest;
      [s[..n]] + rest
  }

  /** A word-run length is fixed by where the first whitespace is. */
  lemma {:induction false} WordRunIs(x: string, k: nat)
    requires k <= |x|
    requires forall i | 0 <= i < k :: !AwkSpace(x[i])
    requires k < |x| ==> AwkSpace(x[k])
    ensures WordRun(x) == k
    decreases k
  {
    if k > 0 {
      WordRunIs(x[1..], k - 1);
    }
  }

  /** Text ending in whitespace splits apart from what follows it. */
  lemma {:induction false} FieldsAppend(a: string, b: string)
    requires a == [] || AwkSpace(a[|a| - 1])
    ensures Fields(a + b) == Fields(a) + Fields(b)
    decreases |a|
  {
    if a == [] {
      assert a + b == b;
    } else if AwkSpace(a[0]) {
      assert (a + b)[1..] == a[1..] + b;
      FieldsAppend(a[1..], b);
    } else {
      var n := WordRun(a);
      var x := a + b;
      WordRunIs(x, n);
      assert x[..n] == a[..n];
      assert x[n..] == a[n..] + b;
      FieldsAppend(a[n..], b);
    }
  }

  lemma {:induction false} FieldsOfSpace(q: string)
    requires AllSpace(q)
    ensures Fields(q) == []
    decreases |q|
  {
    if q != [] {
      FieldsOfSpace(q[1..]);
    }
  }

  /** A word followed only by whitespace is one field. */
  lemma FieldsWordSpace(w: string, q: string)
    requires |w| > 0 && NoSpace(w)
    requires AllSpace(q)
    ensures Fields(w + q) == [w]
  {
    var x := w + q;
    assert x[0] == w[0];
    WordRunIs(x, |w|);
    assert x[..|w|] == w;
    assert x[|w|..] == q;
    FieldsOfSpace(q);
  }

  /** The last field is the word before the trailing whitespace. */
  lemma FieldsEndWith(p: string, w: string, q: string)
    requires p == [] || AwkSpace(p[|p| - 1])
    requires |w| > 0 && NoSpace(w)
    requires AllSpace(q)
    ensures Fields(p + w + q) == Fields(p) + [w]
  {
    assert p + w + q == p + (w + q);
    FieldsAppend(p, w + q);
    FieldsWordSpace(w, q);
  }

  const Prefix := "Bearer "

  predicate StartsWith(s: string, p: string) {
    |p| <= |s| && s[..|p|] == p
  }

  /** `extract_token_from_header`: nil unless the header starts with exactly
      "Bearer "; otherwise the last field of the whole header. */
  function ExtractToken(header: Option<string>): (token: Option<string>)
    ensures token.Some? <==> header.Some? && StartsWith(header.value, Prefix)
    ensures token.Some? ==> |token.value| > 0 && NoSpace(token.value)
  {
    if header.None? || !StartsWith(header.value, Prefix) then None
    else
      var fs := Fields(header.value);
      FieldsOfPrefixed(header.value[|Prefix|..]);
      assert header.value == Prefix + header.value[|Prefix|..];
      Some(fs[|fs| - 1])
  }

  /** The prefix contributes the field "Bearer" ahead of the rest's fields. */
  lemma FieldsOfPrefixed(rest: string)
    ensures Fields(Prefix + rest) == ["Bearer"] + Fields(rest)
  {
    FieldsOfLeadingWord("Bearer", rest);
    assert "Bearer" + " " == Prefix;
  }

  /** A word and a space ahead of text add that word ahead of its fields. */
  lemma FieldsOfLeadingWord(w: string, rest: string)
    requires |w| > 0 && NoSpace(w)
    ensures Fields(w + " " + rest) == [w] + Fields(rest)
  {
    FieldsAppend(w + " ", rest);
    FieldsEndWith([], w, " ");
    assert [] + w + " " == w + " ";
  }

  /** The token is the rest's last field, or "Bearer" when the rest is blank. */
  lemma ExtractTokenOfRest(rest: string)
    ensures var fs := Fields(rest);
      ExtractToken(Some(Prefix + rest)) == Some(if fs == [] then "Bearer" else fs[|fs| - 1])
  {
    var h := Prefix + rest;
    assert h[..|Prefix|] == Prefix;
    assert h[|Prefix|..] == rest;
    FieldsOfPrefixed(rest);
  }

  /** A header of just "Bearer " yields the token "Bearer". */
  lemma BareBearer()
    ensures ExtractToken(Some(Prefix)) == Some("Bearer")
  {
    ExtractTokenOfRest([]);
    assert Prefix + [] == Prefix;
  }

  /** Any header "Bearer " + p + w + q, with w a word after whitespace (or
      directly after the prefix) and q trailing whitespace, yields w. */
  lemma ExtractTokenIsLastWord(p: string, w: string, q: string)
    requires p == [] || AwkSpace(p[|p| - 1])
    requires |w| > 0 && NoSpace(w)
    requires AllSpace(q)
    ensures ExtractToken(Some(Prefix + (p + w + q))) == Some(w)
  {
    FieldsEndWith(p, w, q);
    ExtractTokenOfRest(p + w + q);
  }

  /** What `authenticate_request` leaves behind: the user id, or the rendered
      401 error. */
  datatype AuthOutcome = Authenticated(userId: Json) | Rejected(status: int, error: string)

  const Unauthorized := 401
  const MissingHeader := "Authorization header is missing"
  const InvalidToken := "Invalid or expired token"

  /** `decode_token`: the payload's `sub`; a missing or nil `sub` raises
      `JWT::DecodeError` like an undecodable token. */
  function DecodeToken(token: string, decode: string -> Option<map<string, Json>>): (sub: Option<Json>)
    ensures sub.Some? <==> decode(token).Some? && Get(decode(token).value, "sub") != Null
    ensures sub.Some? ==> sub.value == decode(token).value["sub"]
  {
    match decode(token)
    case None => None
    case Some(payload) => if Get(payload, "sub") == Null then None else Some(payload["sub"])
  }

  /** `authenticate_request`. */
  function Authenticate(header: Option<string>, decode: string -> Option<map<string, Json>>): (r: AuthOutcome)
    ensures ExtractToken(header).None? ==> r == Rejected(Unauthorized, MissingHeader)
    ensures ExtractToken(header).Some? ==>
      r == (match DecodeToken(ExtractToken(header).value, decode)
            case Some(sub) => Authenticated(sub)
            case None => Rejected(Unauthorized, InvalidToken))
  {
    match ExtractToken(header)
    case None => Rejected(Unauthorized, MissingHeader)
    case Some(token) =>
      match DecodeToken(token, decode)
      case Some(sub) => Authenticated(sub)
      case None => Rejected(Unauthorized, InvalidToken)
  }

  /** A request is authenticated exactly when its header carries the prefix and
      the payload of its token has a non-nil `sub`, and `current_user_id` is
      then that claim; every rejection is a 401. */
  lemma AuthenticatedIff(header: Option<string>, decode: string -> Option<map<string, Json>>)
    ensures var r := Authenticate(header, decode);
      && (r.Authenticated? <==>
           header.Some? && StartsWith(header.value, Prefix)
           && var p := decode(ExtractToken(header).value);
              p.Some? && Get(p.value, "sub") != Null)
      && (r.Authenticated? ==> r.userId == decode(ExtractToken(header).value).value["sub"] && r.userId != Null)
      && (r.Rejected? ==> r.status == Unauthorized)
  {
  }
}
