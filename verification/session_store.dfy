/** The Pinia `auth` store: the session the frontend keeps, as an immutable
    record; each action returns the new record. The clock (`Date.now()`) is the
    parameter `now`, in milliseconds. Decoding the ID token's payload (split,
    `atob`, `JSON.parse`) is the parameter `decodeUser`, `None` when it throws. */
module SessionStore {
  import opened Values
  import opened TokenEndpoint

  datatype Session = Session(user: Json, idToken: Option<string>, accessToken: Option<string>,
                             refreshToken: Option<string>, expiresAt: Option<int>)

  /** The state of a fresh store, and of one logged out. */
  const Empty := Session(Null, None, None, None, None)

  /** `logout`: every field back to null. */
  function Logout(s: Session): (r: Session)
    ensures r.user == Null && r.idToken.None? && r.accessToken.None?
    ensures r.refreshToken.None? && r.expiresAt.None?
  {
    Empty
  }

  /** The expiry test shared by `isLoggedIn` and `isAuthenticated`:
      `expiresAt && Date.now() > expiresAt`. */
  predicate Expired(s: Session, now: int) {
    TruthyNumber(s.expiresAt) && now > s.expiresAt.value
  }

  /** `saveTokens`: each truthy field of the answer replaces the stored one;
      the ID token's payload, when it decodes, becomes the user. */
  function SaveTokens(s: Session, t: Tokens, now: int, decodeUser: string -> Option<Json>): (r: Session)
    ensures JsTruthyString(t.idToken) ==> r.idToken == t.idToken
    ensures !JsTruthyString(t.idToken) ==> r.idToken == s.idToken && r.user == s.user
    ensures JsTruthyString(t.idToken) && decodeUser(t.idToken.value).Some? ==> r.user == decodeUser(t.idToken.value).value
    ensures JsTruthyString(t.idToken) && decodeUser(t.idToken.value).None? ==> r.user == s.user
    ensures r.accessToken == (if JsTruthyString(t.accessToken) then t.accessToken else s.accessToken)
    ensures r.refreshToken == (if JsTruthyString(t.refreshToken) then t.refreshToken else s.refreshToken)
    ensures TruthyNumber(t.expiresIn) ==> r.expiresAt == Some(ExpiryAt(now, t.expiresIn.value))
    ensures !TruthyNumber(t.expiresIn) ==> r.expiresAt == s.expiresAt
  {
    var user := if JsTruthyString(t.idToken) && decodeUser(t.idToken.value).Some?
                then decodeUser(t.idToken.value).value else s.user;
    Session(
      user,
      if JsTruthyString(t.idToken) then t.idToken else s.idToken,
      if JsTruthyString(t.accessToken) then t.accessToken else s.accessToken,
      if JsTruthyString(t.refreshToken) then t.refreshToken else s.refreshToken,
      if TruthyNumber(t.expiresIn) then Some(ExpiryAt(now, t.expiresIn.value)) else s.expiresAt)
  }

  /** `isLoggedIn`: an access token that has not expired. An expired session
      is logged out as a side effect. */
  function IsLoggedIn(s: Session, now: int): (r: (bool, Session))
    ensures r.0 <==> JsTruthyString(s.accessToken) && !Expired(s, now)
    ensures !JsTruthyString(s.accessToken) ==> r.1 == s
    ensures JsTruthyString(s.accessToken) && Expired(s, now) ==> r.1 == Empty
    ensures r.0 ==> r.1 == s
  {
    if !JsTruthyString(s.accessToken) then (false, s)
    else if Expired(s, now) then (false, Logout(s))
    else (true, s)
  }

  /** The `isAuthenticated` getter: like `isLoggedIn`, and a user is also required. */
  function IsAuthenticated(s: Session, now: int): (r: (bool, Session))
    ensures r.0 <==> JsTruthy(s.user) && IsLoggedIn(s, now).0
    ensures !JsTruthy(s.user) ==> r.1 == s
    ensures JsTruthy(s.user) ==> r.1 == IsLoggedIn(s, now).1
  {
    if !JsTruthy(s.user) then (false, s)
    else if !JsTruthyString(s.accessToken) then (false, s)
    else if Expired(s, now) then (false, Logout(s))
    else (true, s)
  }

  /** `checkAuth`: when logged in, asks the backend for the user (`me` is the
      `user` of its answer, `None` when the request fails). */
  function CheckAuth(s: Session, now: int, me: Option<Json>): (r: (bool, Session))
    ensures r.0 <==> IsLoggedIn(s, now).0 && me.Some?
    ensures r.0 ==> r.1 == s.(user := me.value)
    ensures !IsLoggedIn(s, now).0 ==> r.1 == IsLoggedIn(s, now).1
    ensures IsLoggedIn(s, now).0 && me.None? ==> r.1 == Empty
  {
    var (ok, s1) := IsLoggedIn(s, now);
    if !ok then (false, s1)
    else if me.None? then (false, Logout(s1))
    else (true, s1.(user := me.value))
  }

  /** `refreshAccessToken`: without a refresh token nothing is sent and nothing
      changes; a rejected request logs out; an answer is saved. */
  function RefreshAccessToken(s: Session, now: int, call: TokenCall, decodeUser: string -> Option<Json>): (r: (RefreshResult, Session))
    ensures !JsTruthyString(s.refreshToken) ==> r == (RefreshFailed(Str(NoRefreshToken)), s)
    ensures JsTruthyString(s.refreshToken) && call.Rejected? ==> r == (RefreshFailed(call.error), Empty)
    ensures JsTruthyString(s.refreshToken) && call.Answered? ==>
      r == (Refreshed(call.data), SaveTokens(s, call.data, now, decodeUser))
  {
    if !JsTruthyString(s.refreshToken) then (RefreshFailed(Str(NoRefreshToken)), s)
    else match call
      case Rejected(e) => (RefreshFailed(e), Logout(s))
      case Answered(data) => (Refreshed(data), SaveTokens(s, data, now, decodeUser))
  }

  // ---- Properties -----------------------------------------------------------

  /** A session saved with an access token and a lifetime is logged in up to and
      including its expiry instant and not after it. */
  lemma SavedSessionLifetime(s: Session, t: Tokens, now: int, later: int, decodeUser: string -> Option<Json>)
    requires JsTruthyString(t.accessToken)
    requires TruthyNumber(t.expiresIn) && ExpiryAt(now, t.expiresIn.value) != 0
    ensures var s1 := SaveTokens(s, t, now, decodeUser);
      IsLoggedIn(s1, later).0 <==> later <= ExpiryAt(now, t.expiresIn.value)
  {
  }

  /** Asking twice gives the same answer and leaves the same state. */
  lemma IsLoggedInStable(s: Session, now: int)
    ensures var (ok, s1) := IsLoggedIn(s, now);
      IsLoggedIn(s1, now) == (ok, s1)
  {
  }

  /** After logging out no one is logged in, at any time. */
  lemma LoggedOutStaysOut(s: Session, now: int)
    ensures !IsLoggedIn(Logout(s), now).0
    ensures !IsAuthenticated(Logout(s), now).0
  {
  }

  /** A refresh whose answer carries no refresh token keeps the stored one,
      so the session can be refreshed again. */
  lemma RefreshKeepsRefreshToken(s: Session, now: int, data: Tokens, decodeUser: string -> Option<Json>)
    requires JsTruthyString(s.refreshToken)
    requires data.refreshToken.None?
    ensures var r := RefreshAccessToken(s, now, Answered(data), decodeUser);
      r.0.Refreshed? && r.1.refreshToken == s.refreshToken
  {
  }
}
