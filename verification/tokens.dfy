/** What the frontend receives from the identity provider's token endpoint,
    shared by the session store and `AuthService`. */
module TokenEndpoint {
  import opened Values

  /** The token endpoint's JSON answer. A missing field is `None`; the tokens
      are strings and `expires_in` an integer number of seconds. */
  datatype Tokens = Tokens(idToken: Option<string>, accessToken: Option<string>,
                           refreshToken: Option<string>, expiresIn: Option<int>)

  /** The outcome of the POST to the token endpoint: its data, or the error
      (`error.response?.data || error.message`) it was rejected with. */
  datatype TokenCall = Answered(data: Tokens) | Rejected(error: Json)

  /** The object a refresh returns: `{success: true, data}` or `{success: false, error}`. */
  datatype RefreshResult = Refreshed(data: Tokens) | RefreshFailed(error: Json)

  const NoRefreshToken := "リフレッシュトークンがありません"

  /** JavaScript truthiness of a number that may be null. */
  predicate TruthyNumber(n: Option<int>) {
    n.Some? && n.value != 0
  }

  /** `Date.now() + tokens.expires_in * 1000`: the expiry instant, in milliseconds. */
  function ExpiryAt(now: int, expiresIn: int): (at: int)
    ensures expiresIn > 0 ==> at > now
  {
    now + expiresIn * 1000
  }
}
