/** The frontend `AuthService`: the Hosted-UI URLs built from the build-time
    configuration, and the session kept in `localStorage`, modelled as a map
    from key to text. The clock is the parameter `now`, in milliseconds;
    decoding the ID token's payload is the parameter `decode`. */
module AuthService {
  import opened Values
  import opened TokenEndpoint
  import JsNumber
  import UriEncoding
  import SessionStore

  /** The `VITE_COGNITO_*` settings; an unset one is `undefined`. */
  datatype Config = Config(cognitoDomain: Option<string>, clientId: Option<string>,
                           redirectUri: Option<string>, scope: Option<string>,
                           responseType: Option<string>, tokenEndpoint: Option<string>)

  /** A value as a template literal or `+` writes it: `undefined` when unset. */
  function Text(o: Option<string>): string {
    if o.None? then "undefined" else o.value
  }

  /** The scope both URLs ask for, whatever `scope` is configured. */
  const Scope := "email openid phone"

  /** The query both URLs share. */
  function Query(c: Config): string {
    QueryHead(c) + UriEncoding.Encode(Text(c.redirectUri))
  }

  /** The query up to the redirect URI's value. */
  function QueryHead(c: Config): string {
    "client_id=" + Text(c.clientId) + "&response_type=code"
      + "&scope=" + UriEncoding.Encode(Scope)
      + "&redirect_uri="
  }

  /** A Hosted UI page's URL: the domain, the page's path, then the query. */
  function HostedUiUrl(domain: string, path: string, query: string): string {
    domain + path + "?" + query
  }

  /** `getLoginUrl`. */
  function LoginUrl(c: Config): string {
    HostedUiUrl(Text(c.cognitoDomain), "/login", Query(c))
  }

  /** `getSignupUrl`. */
  function SignupUrl(c: Config): string {
    HostedUiUrl(Text(c.cognitoDomain), "/signup", Query(c))
  }

  // ---- localStorage ---------------------------------------------------------

  type Storage = map<string, string>

  /** `localStorage.getItem`: null for a missing key. */
  function GetItem(st: Storage, key: string): Option<string> {
    if key in st then Some(st[key]) else None
  }

  /** The keys the service writes. */
  const SessionKeys: set<string> := {"id_token", "access_token", "refresh_token", "expires_at"}

  /** `saveTokens`: each truthy field is stored under its key, the expiry as the
      text of the instant; nothing else is touched. */
  function SaveTokens(st: Storage, t: Tokens, now: int): (r: Storage)
    ensures GetItem(r, "id_token") == (if JsTruthyString(t.idToken) then t.idToken else GetItem(st, "id_token"))
    ensures GetItem(r, "access_token") == (if JsTruthyString(t.accessToken) then t.accessToken else GetItem(st, "access_token"))
    ensures GetItem(r, "refresh_token") == (if JsTruthyString(t.refreshToken) then t.refreshToken else GetItem(st, "refresh_token"))
    ensures TruthyNumber(t.expiresIn) ==> GetItem(r, "expires_at") == Some(JsNumber.ToString(ExpiryAt(now, t.expiresIn.value)))
    ensures !TruthyNumber(t.expiresIn) ==> GetItem(r, "expires_at") == GetItem(st, "expires_at")
    ensures forall k | k !in SessionKeys :: GetItem(r, k) == GetItem(st, k)
  {
    var st1 := if JsTruthyString(t.idToken) then st["id_token" := t.idToken.value] else st;
    var st2 := if JsTruthyString(t.accessToken) then st1["access_token" := t.accessToken.value] else st1;
    var st3 := if JsTruthyString(t.refreshToken) then st2["refresh_token" := t.refreshToken.value] else st2;
    if TruthyNumber(t.expiresIn) then st3["expires_at" := JsNumber.ToString(ExpiryAt(now, t.expiresIn.value))] else st3
  }

  /** `logout`: removes the four session keys and nothing else. */
  function Logout(st: Storage): (r: Storage)
    ensures r.Keys == st.Keys - SessionKeys
    ensures forall k | k in r :: r[k] == st[k]
  {
    map k | k in st && k !in SessionKeys :: st[k]
  }

  /** The expiry test: `expiresAt && Date.now() > parseInt(expiresAt)`. A text
      that does not parse is `NaN`, and comparing with it is false. */
  predicate Expired(st: Storage, now: int) {
    var e := GetItem(st, "expires_at");
    JsTruthyString(e) && JsNumber.ParseInt(e.value).Some? && now > JsNumber.ParseInt(e.value).value
  }

  /** `isLoggedIn`: an access token that has not expired; an expired session is
      logged out. */
  function IsLoggedIn(st: Storage, now: int): (r: (bool, Storage))
    ensures r.0 <==> JsTruthyString(GetItem(st, "access_token")) && !Expired(st, now)
    ensures !JsTruthyString(GetItem(st, "access_token")) ==> r.1 == st
    ensures JsTruthyString(GetItem(st, "access_token")) && Expired(st, now) ==> r.1 == Logout(st)
    ensures r.0 ==> r.1 == st
  {
    if !JsTruthyString(GetItem(st, "access_token")) then (false, st)
    else if Expired(st, now) then (false, Logout(st))
    else (true, st)
  }

  /** `getUserInfo`: the decoded payload of the ID token, or null when there is
      no ID token or it does not decode. */
  function GetUserInfo(st: Storage, decode: string -> Option<Json>): (u: Json)
    ensures !JsTruthyString(GetItem(st, "id_token")) ==> u == Null
    ensures JsTruthyString(GetItem(st, "id_token")) && decode(st["id_token"]).Some? ==> u == decode(st["id_token"]).value
    ensures JsTruthyString(GetItem(st, "id_token")) && decode(st["id_token"]).None? ==> u == Null
  {
    var id := GetItem(st, "id_token");
    if !JsTruthyString(id) then Null
    else match decode(id.value)
      case None => Null
      case Some(payload) => payload
  }

  /** `refreshAccessToken`: nothing is sent and nothing changes without a
      refresh token; a rejected request logs out; an answer is saved. */
  function RefreshAccessToken(st: Storage, now: int, call: TokenCall): (r: (RefreshResult, Storage))
    ensures !JsTruthyString(GetItem(st, "refresh_token")) ==> r == (RefreshFailed(Str(NoRefreshToken)), st)
    ensures JsTruthyString(GetItem(st, "refresh_token")) && call.Rejected? ==> r == (RefreshFailed(call.error), Logout(st))
    ensures JsTruthyString(GetItem(st, "refresh_token")) && call.Answered? ==>
      r == (Refreshed(call.data), SaveTokens(st, call.data, now))
  {
    if !JsTruthyString(GetItem(st, "refresh_token")) then (RefreshFailed(Str(NoRefreshToken)), st)
    else match call
      case Rejected(e) => (RefreshFailed(e), Logout(st))
      case Answered(data) => (Refreshed(data), SaveTokens(st, data, now))
  }

  // ---- Properties -----------------------------------------------------------

  /** The two URLs differ only in the path. */
  lemma UrlsDifferOnlyInPath(c: Config)
    ensures var d := Text(c.cognitoDomain);
      && LoginUrl(c)[..|d|] == SignupUrl(c)[..|d|] == d
      && LoginUrl(c)[|d|..|d| + 6] == "/login"
      && SignupUrl(c)[|d|..|d| + 7] == "/signup"
      && LoginUrl(c)[|d| + 6..] == SignupUrl(c)[|d| + 7..]
  {
    HostedUiParts(Text(c.cognitoDomain), "/login", Query(c));
    HostedUiParts(Text(c.cognitoDomain), "/signup", Query(c));
  }

  /** A Hosted UI URL splits back into its domain, path and the rest. */
  lemma HostedUiParts(d: string, path: string, q: string)
    ensures var u := HostedUiUrl(d, path, q);
      && u[..|d|] == d
      && u[|d|..|d| + |path|] == path
      && u[|d| + |path|..] == "?" + q
  {
    var u := HostedUiUrl(d, path, q);
    assert u == d + path + ("?" + q);
  }

  /** The configured scope and response type have no effect on either URL. */
  lemma UrlsIgnoreScopeAndResponseType(c: Config, scope: Option<string>, responseType: Option<string>)
    ensures LoginUrl(c.(scope := scope, responseType := responseType)) == LoginUrl(c)
    ensures SignupUrl(c.(scope := scope, responseType := responseType)) == SignupUrl(c)
  {
  }

  /** The redirect URI, encoded, is the last thing in the URL; it decodes back
      to the configured text (`undefined` when unset), and no character of it
      can end the parameter early or start another. */
  lemma RedirectRecoverable(c: Config)
    ensures var u := LoginUrl(c);
      var e := UriEncoding.Encode(Text(c.redirectUri));
      && |e| <= |u| && u[|u| - |e|..] == e
      && UriEncoding.Decode(e) == Some(Text(c.redirectUri))
      && (forall i | 0 <= i < |e| :: e[i] != '&' && e[i] != '=' && e[i] != '?' && e[i] != '#')
  {
    var e := UriEncoding.Encode(Text(c.redirectUri));
    HostedUiAppend(Text(c.cognitoDomain), "/login", QueryHead(c), e);
    UriEncoding.DecodeEncode(Text(c.redirectUri));
    UriEncoding.EncodeQuerySafe(Text(c.redirectUri));
  }

  /** Text appended to a query is appended to the URL. */
  lemma HostedUiAppend(d: string, path: string, h: string, e: string)
    ensures HostedUiUrl(d, path, h + e) == HostedUiUrl(d, path, h) + e
  {
  }

  /** A session saved with an access token and a lifetime is logged in up to
      and including its expiry instant, and not after: the stored text reads
      back as the instant. */
  lemma SavedSessionLifetime(st: Storage, t: Tokens, now: int, later: int)
    requires JsTruthyString(t.accessToken)
    requires TruthyNumber(t.expiresIn)
    ensures IsLoggedIn(SaveTokens(st, t, now), later).0 <==> later <= ExpiryAt(now, t.expiresIn.value)
  {
    JsNumber.ParseIntOfToString(ExpiryAt(now, t.expiresIn.value));
  }

  /** After logging out nobody is logged in, and no user can be read. */
  lemma LoggedOutStaysOut(st: Storage, now: int, decode: string -> Option<Json>)
    ensures !IsLoggedIn(Logout(st), now).0
    ensures GetUserInfo(Logout(st), decode) == Null
  {
  }

  // ---- Agreement with the session store -------------------------------------

  /** A store session and a storage hold the same tokens and expiry. */
  predicate Agree(s: SessionStore.Session, st: Storage) {
    && GetItem(st, "id_token") == s.idToken
    && GetItem(st, "access_token") == s.accessToken
    && GetItem(st, "refresh_token") == s.refreshToken
    && (s.expiresAt.None? <==> "expires_at" !in st)
    && (s.expiresAt.Some? ==> st["expires_at"] == JsNumber.ToString(s.expiresAt.value))
  }

  /** Saving the same answer keeps the two in agreement. */
  lemma SaveTokensAgree(s: SessionStore.Session, st: Storage, t: Tokens, now: int, decodeUser: string -> Option<Json>)
    requires Agree(s, st)
    ensures Agree(SessionStore.SaveTokens(s, t, now, decodeUser), SaveTokens(st, t, now))
  {
  }

  /** Logging out keeps the two in agreement: neither holds any session field. */
  lemma LogoutAgree(s: SessionStore.Session, st: Storage)
    ensures Agree(SessionStore.Logout(s), Logout(st))
  {
  }

  /** In agreement, the two refreshes with the same token-endpoint outcome give
      the same result and stay in agreement. */
  lemma RefreshAgree(s: SessionStore.Session, st: Storage, now: int, call: TokenCall,
                     decodeUser: string -> Option<Json>)
    requires Agree(s, st)
    ensures var (r1, s1) := SessionStore.RefreshAccessToken(s, now, call, decodeUser);
      var (r2, st1) := RefreshAccessToken(st, now, call);
      r1 == r2 && Agree(s1, st1)
  {
    if JsTruthyString(s.refreshToken) {
      match call
      case Rejected(_) => LogoutAgree(s, st);
      case Answered(data) => SaveTokensAgree(s, st, data, now, decodeUser);
    }
  }

  /** In agreement, the two give the same login verdict, except that the store
      treats an expiry at instant 0 as no expiry (the number 0 is falsy, the
      text "0" is not). */
  lemma IsLoggedInAgree(s: SessionStore.Session, st: Storage, now: int)
    requires Agree(s, st)
    requires s.expiresAt != Some(0)
    ensures SessionStore.IsLoggedIn(s, now).0 == IsLoggedIn(st, now).0
  {
    if s.expiresAt.Some? {
      JsNumber.ParseIntOfToString(s.expiresAt.value);
    }
  }
}
