# quack-note authentication and user store, in Dafny

This project models the authentication core of quack-note, a meeting-notes
application. The backend is Rails and the frontend is Vue. The modelled parts are:

- **The user table.** `UserRepository` and `UserSettingsRepository` both write to one
  DynamoDB table, keyed by the Cognito user id (`user_id`). The table is a `map` from
  key to item. The user repository has a conditional `create`, an `update_status`, an
  `update` that builds a `SET` expression from an allow-list, a `delete`, and a
  projection (`normalize_item`). The settings repository has a `create_or_update` that
  puts a whole item, so it replaces the user record stored under the same key.
- **`CognitoService`.**
  - Email validation: the regular expression, recognised by hand over characters
    (`EmailFormat`), and proved equal to the pattern it spells out.
  - Password validation.
  - How each outcome of the identity provider becomes a result hash with
    `success`, `error_code` and `error_message`.
- **`Api::AuthController`.** The parameter guard of each action, and the table from the
  service's error code to an HTTP status. It is composed with the service, so the
  statuses each action can reach are stated exactly.
- **`JwtAuthenticatable`.** Bearer-token extraction with Ruby's awk-style
  `split(' ')`, the `sub` check, and the resulting 401 or authenticated decision.
- **The frontend router.**
  - The route table's meta fields.
  - The `beforeEach` guard, over the route's meta and the login state.
- **The Pinia `auth` store (`SessionStore`).** An immutable session record with
  `saveTokens`, `isLoggedIn`, `isAuthenticated`, `checkAuth`, `logout` and
  `refreshAccessToken`. The clock is a parameter.
- **`AuthService`.**
  - The Hosted UI login and sign-up URLs. These use `encodeURIComponent`
    (section 19.2.6.4 of ECMA-262), modelled with UTF-8 and `%XX` escapes in
    `UriEncoding`.
  - The same session kept in `localStorage`, a map from key to text. The expiry is
    written with `Number.prototype.toString` and read back with `parseInt`
    (section 19.2.5 of ECMA-262), both in `JsNumber`.
  - A proof that this `AuthService` session agrees with the store's session.

Each file is one module:

| file | module | models |
|---|---|---|
| `values.dfy` | `Values` | `Option`, `Result`, a JSON-like value type, and Ruby and JS truthiness and `blank?` |
| `dynamo.dfy` | `Dynamo` | the table |
| `update_expression.dfy` | `UpdateExpression` | `SET` clauses and how the service applies them |
| `user_store.dfy` | `UserStore` | the user repository |
| `settings_store.dfy` | `SettingsStore` | the settings repository |
| `email_format.dfy` | `EmailFormat` | the email regex |
| `cognito.dfy` | `Cognito` | the service |
| `auth_controller.dfy` | `AuthController` | the controller |
| `jwt_auth.dfy` | `JwtAuth` | the concern |
| `tokens.dfy` | `TokenEndpoint` | the token endpoint's answer |
| `session_store.dfy` | `SessionStore` | the Pinia store |
| `router.dfy` | `Router` | the router |
| `js_number.dfy` | `JsNumber` | JS number text |
| `uri_encoding.dfy` | `UriEncoding` | `encodeURIComponent` |
| `auth_service.dfy` | `AuthService` | `AuthService` |

Things from outside the model are parameters:

- **Provider calls.** Each provider call is a value `Call<T>`: either the reply, or the
  exception (`Fault`) it raised.
- **Clocks.**
  - `now: string` is the ISO-8601 text each save writes: `Time.now.getlocal('+09:00').iso8601`
    in `UserRepository#create`, and `Time.current.iso8601` in `create_or_update`.
  - `zone: string` is `Time.current.zone`. `update` and `update_status` write this
    zone name as `updated_at`, exactly as the code does.
  - `now: int` is `Date.now()`.
- **Decoding.** Decoding a JWT payload is a function parameter that returns `None`
  when decoding throws.
- **Confirmation and the user table.** `confirm_sign_up` never touches the user
  table: a confirmation changes no stored status and counts no attempts.

## Model

| member | source | states |
|---|---|---|
| Dynamo.Current | backend/app/repositories/user_repository.rb:104-118 | `UpdateItem` starts from the stored item, or from the bare key when the user is absent (the write creates it) |
| Dynamo.PutItem | backend/app/services/user_settings_repository.rb:49-52 | a put replaces the item under its key and nothing else; an item carrying its own key keeps the table keyed correctly |
| Dynamo.DeleteItem | backend/app/repositories/user_repository.rb:178-185 | removes the key and nothing else; keying is preserved (the delete of both repositories; user_settings_repository.rb:62-67 is the same call) |
| Dynamo.Find | backend/app/repositories/user_repository.rb:55-70 | a read finds nothing iff the key is absent; otherwise exactly the requested attributes, each as stored or nil (the settings read, user_settings_repository.rb:11-27, is the same) |
| Dynamo.FindAfterDelete | backend/app/repositories/user_repository.rb:178-190 | after a delete the key is not found and every other key reads as before (likewise user_settings_repository.rb:62-72) |
| UserStore.Create | backend/app/repositories/user_repository.rb:19-50 | on an existing id: `DuplicateUserError` and the table unchanged; otherwise exactly the eight attributes, with workspace_id always "1" whatever the argument, name/role/status defaulting to test/member/pending, created_at == updated_at == now, and the table keyed correctly |
| UserStore.CreateThenFind | backend/app/repositories/user_repository.rb:19-70 | a created user reads back with its email, status and created_at, and with nil settings fields |
| UserStore.Normalize | backend/app/repositories/user_repository.rb:197-211 | the view has exactly the eight listed attributes, each read from the item (nil when absent) |
| UserStore.FindByUserId | backend/app/repositories/user_repository.rb:55-70 | nil exactly when the id is absent; otherwise the eight projected attributes, never name, role or workspace_id |
| UserStore.UpdateStatus | backend/app/repositories/user_repository.rb:101-125 | sets status and updated_at (creating the item if absent); every other attribute and every other item is unchanged; returns the normalized new item |
| UserStore.Eligible | backend/app/repositories/user_repository.rb:140-142 | a pair is written iff its name is allowed and its value non-nil; distinct keys stay distinct |
| UserStore.EligibleAppend | backend/app/repositories/user_repository.rb:140-151 | filtering preserves input order: it distributes over concatenation |
| UserStore.WrittenIff | backend/app/repositories/user_repository.rb:135-151 | an attribute is written iff some input pair has that allowed name and a non-nil value |
| UserStore.KeyNotWritten | backend/app/repositories/user_repository.rb:135 | `update` never writes user_id |
| UserStore.Written | backend/app/repositories/user_repository.rb:149-150 | the written attributes are exactly the eligible keys, each with its input value |
| UserStore.NamesOf | backend/app/repositories/user_repository.rb:149 | each `#k` placeholder names attribute k |
| UserStore.ValuesOf | backend/app/repositories/user_repository.rb:150 | each `:k` placeholder holds the value given for k; distinct keys give distinct placeholders |
| UserStore.RequestValues | backend/app/repositories/user_repository.rb:137-150 | the request's values hold every written value and `:updated_at`, which no allowed attribute's placeholder overwrites |
| UserStore.PartsOf | backend/app/repositories/user_repository.rb:148-155 | one `#k = :k` text per written pair in order, then `updated_at = :updated_at` |
| UserStore.UpdateParts | backend/app/repositories/user_repository.rb:140-155 | the clause texts for an input: one `#k = :k` per eligible pair in input order, `updated_at = :updated_at` last |
| UserStore.UpdateExpressionText | backend/app/repositories/user_repository.rb:155-156 | the expression is "SET " followed by the clause texts joined with ", " |
| UserStore.ApplyWritten | backend/app/repositories/user_repository.rb:158-167 | applying the `#k = :k` clauses with the request's names and values overlays exactly the written pairs on the item |
| UserStore.ApplyUpdatedAt | backend/app/repositories/user_repository.rb:155 | the final clause sets updated_at to the zone text |
| UserStore.UpdatedItem | backend/app/repositories/user_repository.rb:153-167 | the request is fully resolvable and the service's result is the item overlaid with the written pairs, then updated_at |
| UserStore.WrittenItem | backend/app/repositories/user_repository.rb:131-170 | after `update` each eligible input pair is stored, updated_at is the zone, user_id and every attribute not written keep their value |
| UserStore.UpdatedRecord | backend/app/repositories/user_repository.rb:131-170 | the stored item after a non-empty update: eligible pairs written, updated_at set, everything else (including user_id) kept |
| UserStore.Update | backend/app/repositories/user_repository.rb:131-174 | with nothing eligible, no write and the result of `find_by_user_id`; otherwise only the user's item changes, to the updated record, and its normalized view is returned; the table stays keyed correctly |
| SettingsStore.Normalize | backend/app/services/user_settings_repository.rb:79-90 | exactly the six settings attributes, each read from the item |
| SettingsStore.FindByUserId | backend/app/services/user_settings_repository.rb:11-27 | nil exactly when absent; otherwise exactly the six fields |
| SettingsStore.KeptCreatedAt | backend/app/services/user_settings_repository.rb:36-38 | the stored created_at when there is a truthy one, else now |
| SettingsStore.SettingsItem | backend/app/services/user_settings_repository.rb:40-47 | the put item has exactly the six attributes: the key, the three settings (nil when missing), created_at and updated_at == now |
| SettingsStore.CreateOrUpdate | backend/app/services/user_settings_repository.rb:33-58 | the whole item under the user is replaced by the returned item; no profile attribute survives; other items unchanged; keying preserved |
| SettingsStore.SaveThenFind | backend/app/services/user_settings_repository.rb:49-54 | the hash returned by a save is what a later read returns |
| SettingsStore.SaveErasesUserRecord | backend/app/services/user_settings_repository.rb:40-52 | a settings save after sign-up makes the user repository read nil email and status, while created_at survives |
| EmailFormat.AcceptsIffPattern | backend/app/services/cognito_service.rb:182 | the character-level recogniser accepts exactly the strings local@label(.label)*.tld of the pattern |
| EmailFormat.AcceptsMatchesPattern | backend/app/services/cognito_service.rb:182 | every accepted string splits into the pattern's pieces |
| EmailFormat.PatternAccepted | backend/app/services/cognito_service.rb:182 | every string built from the pattern's pieces is accepted, despite the greedy label runs |
| EmailFormat.DomainLabels | backend/app/services/cognito_service.rb:182 | an accepted domain is two or more labels joined by dots, the last all letters |
| Cognito.ValidEmailIffPattern | backend/app/services/cognito_service.rb:180-183 | an email validates iff it is a string matching the pattern (a blank one never does) |
| Cognito.ValidPasswordString | backend/app/services/cognito_service.rb:186-189 | a string password validates iff it is not blank and has at least 8 characters |
| Cognito.Rescue | backend/app/services/cognito_service.rb:41-76 | a rescued provider exception is reported under its own name, any other provider error as ServiceError, anything else as UnexpectedError, always with that code's message |
| Cognito.SignUp | backend/app/services/cognito_service.rb:19-77 | invalid input fails with UnexpectedError; success iff the input is valid and the provider returns, carrying its reply; a provider exception is rescued |
| Cognito.InvalidInputSkipsProvider | backend/app/services/cognito_service.rb:19-21 | with invalid input the result does not depend on the provider at all, and is UnexpectedError |
| Cognito.ConfirmSignUp | backend/app/services/cognito_service.rb:83-130 | success with the confirmation message iff the provider returns; otherwise CodeMismatch, ExpiredCode and NotAuthorized by name, the rest ServiceError or UnexpectedError |
| Cognito.ResendConfirmationCode | backend/app/services/cognito_service.rb:135-175 | success with the delivery details iff the provider returns; otherwise LimitExceeded and UserNotFound by name, the rest ServiceError or UnexpectedError |
| Cognito.RescueCodeIn | backend/app/services/cognito_service.rb:62-76 | the code of a rescued failure lies in any set holding the rescued names and the two catch-all codes |
| Cognito.SignUpFailuresReported | backend/app/services/cognito_service.rb:41-76 | every sign-up failure carries one of its five codes and that code's message |
| Cognito.ConfirmFailuresReported | backend/app/services/cognito_service.rb:94-129 | every confirmation failure carries one of its five codes and that code's message |
| Cognito.ResendFailuresReported | backend/app/services/cognito_service.rb:146-174 | every resend failure carries one of its four codes and that code's message |
| AuthController.SignupAsWritten | backend/app/controllers/api/auth_controller.rb:10-62 | as written: 400 when a parameter is blank, otherwise 500 InternalError, because the service call passes an undeclared keyword |
| AuthController.SignupAsWrittenNeverCreates | backend/app/controllers/api/auth_controller.rb:24-61 | as written, no request ever gets 201 |
| AuthController.SignupDiverges | backend/app/controllers/api/auth_controller.rb:24-28 | for valid input and a provider that succeeds, the code as written answers 500 where the intended action answers 201 |
| AuthController.SignupAsWrittenCounterexample | backend/app/controllers/api/auth_controller.rb:24-28 | a concrete request (name "Taro", email "taro@example.com", password "password1") that gets 500 as written and 201 as intended |
| AuthController.Signup | backend/app/controllers/api/auth_controller.rb:10-62 | 400 MissingParameters when name, email or password is blank, without calling the service; otherwise the service result rendered |
| AuthController.SignupStatusOfFault | backend/app/controllers/api/auth_controller.rb:39-46 | composed with the service, UsernameExists gives 409, InvalidPassword and InvalidParameter 422, every other fault 500 |
| AuthController.SignupResultStatus | backend/app/controllers/api/auth_controller.rb:30-46 | the service result renders to 201 iff valid and returned, 409 iff valid and UsernameExists, 422 iff valid and InvalidPassword or InvalidParameter, else 500 |
| AuthController.SignupStatuses | backend/app/controllers/api/auth_controller.rb:15-46 | the signup action's status is one of 201/400/409/422/500, each iff its stated condition |
| AuthController.FailureEchoed | backend/app/controllers/api/auth_controller.rb:48-52 | every failure body (here and at lines 101-105 and 152-156) echoes the service's error code and message unchanged |
| AuthController.ConfirmSignupAsWritten | backend/app/controllers/api/auth_controller.rb:68-115 | as written the guard only checks the confirmation code; a blank username reaches the service |
| AuthController.ConfirmGuardMissesUsername | backend/app/controllers/api/auth_controller.rb:72-79 | a request with a code and no username is passed to the service as written, never answered 400, and answered 500 when the SDK or Cognito rejects the blank user name; 400 as intended |
| AuthController.ConfirmStatusesAsWritten | backend/app/controllers/api/auth_controller.rb:72-99 | as written: the status is one of 200/400/403/422/500, 400 iff the code is blank, and every other status iff a code is present and the provider answers accordingly |
| AuthController.ConfirmDiffersIff | backend/app/controllers/api/auth_controller.rb:72 | the written and the intended confirmation differ exactly when the user name is blank and the code is not |
| AuthController.ConfirmSignup | backend/app/controllers/api/auth_controller.rb:68-115 | 400 when the username or the code is blank; otherwise the service result rendered |
| AuthController.ConfirmStatusOfFault | backend/app/controllers/api/auth_controller.rb:92-99 | composed with the service, CodeMismatch and ExpiredCode give 422, NotAuthorized 403, every other fault 500 |
| AuthController.ConfirmStatuses | backend/app/controllers/api/auth_controller.rb:72-99 | the status is one of 200/400/403/422/500, each iff its stated condition |
| AuthController.ResendConfirmationCode | backend/app/controllers/api/auth_controller.rb:120-166 | 400 when the username is blank; otherwise the service result rendered |
| AuthController.ResendStatusOfFault | backend/app/controllers/api/auth_controller.rb:143-150 | composed with the service, LimitExceeded gives 429, UserNotFound 404, every other fault 500 |
| AuthController.ResendStatuses | backend/app/controllers/api/auth_controller.rb:123-150 | the status is one of 200/400/404/429/500, each iff its stated condition |
| JwtAuth.Fields | backend/app/controllers/concerns/jwt_authenticatable.rb:32 | the fields are non-empty, contain no whitespace, and concatenate to the text with its whitespace removed |
| JwtAuth.FieldsAppend | backend/app/controllers/concerns/jwt_authenticatable.rb:32 | splitting distributes over concatenation at a whitespace boundary |
| JwtAuth.FieldsEndWith | backend/app/controllers/concerns/jwt_authenticatable.rb:32 | a word followed only by whitespace is the last field |
| JwtAuth.ExtractToken | backend/app/controllers/concerns/jwt_authenticatable.rb:28-33 | a token exists iff the header starts with exactly "Bearer "; it is then non-empty and free of whitespace |
| JwtAuth.ExtractTokenOfRest | backend/app/controllers/concerns/jwt_authenticatable.rb:30-32 | after the prefix, the token is the last field of the rest, or "Bearer" when the rest has none |
| JwtAuth.BareBearer | backend/app/controllers/concerns/jwt_authenticatable.rb:30-32 | the header "Bearer " alone yields the token "Bearer" |
| JwtAuth.ExtractTokenIsLastWord | backend/app/controllers/concerns/jwt_authenticatable.rb:32 | the last whitespace-separated word of the header is the token, whatever comes before it |
| JwtAuth.DecodeToken | backend/app/controllers/concerns/jwt_authenticatable.rb:36-53 | a user id exactly when the payload decodes and has a non-nil sub, and it is that sub |
| JwtAuth.Authenticate | backend/app/controllers/concerns/jwt_authenticatable.rb:11-25 | no token: 401 missing header; a token that fails decoding or lacks sub: 401 invalid token; else authenticated with the sub |
| JwtAuth.AuthenticatedIff | backend/app/controllers/concerns/jwt_authenticatable.rb:11-58 | authenticated iff the header has the prefix and its token's payload has a sub; the current user id is then that sub; every rejection is 401 |
| Router.Guard | frontend/src/router/index.js:50-65 | public routes proceed; login redirect (with the full path) iff auth is required and logged out; home redirect iff a guest route while logged in; no other redirect |
| Router.BeforeEach | frontend/src/router/index.js:46-66 | the guard decides on the store's login verdict, and the store's expiry side effect is kept |
| Router.MetaOf | frontend/src/router/index.js:12-41 | a path matching a route up to ASCII case and one trailing slash gets that route's meta; any other path gets none |
| Router.MatchesShape | frontend/src/router/index.js:12-41 | a matching path is the route path up to case, plus at most one trailing slash the route path does not end in |
| Router.RoutesDisjoint | frontend/src/router/index.js:12-41 | no path matches two routes of the table |
| Router.MetaOfRoute | frontend/src/router/index.js:12-41 | every path matching a route, in any case and with or without a trailing slash, gets exactly that route's meta |
| Router.RouteTable | frontend/src/router/index.js:12-41 | /login and /signup are guest-only, /auth/callback public, / and /record need a login |
| Router.NeverWrongRedirect | frontend/src/router/index.js:46-66 | a logged-in user is never sent to login, a logged-out one never to home |
| Router.TableGuard | frontend/src/router/index.js:12-66 | for any path matching a route of the table: home and record redirect iff logged out, login and signup iff logged in, the callback always proceeds |
| Router.RecordVariant | frontend/src/router/index.js:36-65 | a logged-out visit to "/Record/" is redirected to login with its full path |
| Router.FreshLoginLeavesLoginPage | frontend/src/router/index.js:59-60 | right after tokens with a lifetime are saved, and until expiry, visiting /login redirects home, including when the expiry instant is the falsy 0 |
| TokenEndpoint.ExpiryAt | frontend/src/stores/auth.js:73 | a positive lifetime puts the expiry after now |
| SessionStore.Logout | frontend/src/stores/auth.js:24-31 | every session field is null afterwards |
| SessionStore.SaveTokens | frontend/src/stores/auth.js:53-75 | each truthy token replaces the stored one and nothing else; the user changes only when the ID token decodes; the expiry is set iff expires_in is truthy |
| SessionStore.IsLoggedIn | frontend/src/stores/auth.js:78-90 | true iff there is an access token and the expiry has not passed; an expired session is logged out; otherwise nothing changes |
| SessionStore.IsLoggedInStable | frontend/src/stores/auth.js:78-90 | asking again gives the same answer and state |
| SessionStore.SavedSessionLifetime | frontend/src/stores/auth.js:53-90 | a session saved with an access token and lifetime is logged in exactly up to and including its expiry instant |
| SessionStore.IsAuthenticated | frontend/src/stores/auth.js:13-21 | the login verdict, additionally requiring a user |
| SessionStore.LoggedOutStaysOut | frontend/src/stores/auth.js:13-31 | after logout nobody is logged in or authenticated, at any time |
| SessionStore.CheckAuth | frontend/src/stores/auth.js:33-50 | true iff logged in and the request succeeded; the answer's `user` (possibly null) is then stored; a failed request logs out |
| SessionStore.RefreshAccessToken | frontend/src/stores/auth.js:105-137 | no refresh token: failure and nothing changes; rejected: failure and logout; answered: saved |
| SessionStore.RefreshKeepsRefreshToken | frontend/src/stores/auth.js:105-137 | an answer without a refresh token keeps the stored one |
| JsNumber.ParseIntOfToString | frontend/src/services/AuthService.js:135 | the expiry text written by `toString` reads back as the same integer |
| JsNumber.ParseIntSurroundings | frontend/src/services/AuthService.js:135 | leading whitespace and anything after the digits are ignored |
| JsNumber.ParseIntNegative | frontend/src/services/AuthService.js:135 | the same after a minus sign |
| JsNumber.ParseIntNaN | frontend/src/services/AuthService.js:135 | text starting with anything but whitespace, a sign or a digit is NaN |
| UriEncoding.DecodeEncode | frontend/src/services/AuthService.js:23 | decoding the encoded redirect URI (percent escapes, then UTF-8) gives it back |
| UriEncoding.Utf8RoundTrip | frontend/src/services/AuthService.js:23 | the UTF-8 bytes of a string decode back to it |
| UriEncoding.EncodeInjective | frontend/src/services/AuthService.js:23 | different texts encode differently |
| UriEncoding.EncodeAppend | frontend/src/services/AuthService.js:23 | encoding is character by character: it distributes over concatenation |
| UriEncoding.EncodeAlphabet | frontend/src/services/AuthService.js:23 | the output has only unreserved characters, '%' and upper-case hex digits |
| UriEncoding.EncodeQuerySafe | frontend/src/services/AuthService.js:23 | the output never contains '&', '=', '?' or '#' |
| UriEncoding.EncodeUnreserved | frontend/src/services/AuthService.js:22 | text of unreserved characters is unchanged |
| UriEncoding.EncodeSpace | frontend/src/services/AuthService.js:22 | a space becomes "%20" |
| AuthService.UrlsDifferOnlyInPath | frontend/src/services/AuthService.js:16-41 | both URLs start with the domain and agree after the path; the paths are /login and /signup |
| AuthService.UrlsIgnoreScopeAndResponseType | frontend/src/services/AuthService.js:19-23 | the configured scope and response type do not affect either URL |
| AuthService.RedirectRecoverable | frontend/src/services/AuthService.js:19-25 | the URL ends with the encoded redirect URI, which decodes back to it and cannot end the parameter early |
| AuthService.SaveTokens | frontend/src/services/AuthService.js:82-96 | each truthy token is stored under its key, the expiry as text, and no other key changes |
| AuthService.Logout | frontend/src/services/AuthService.js:168-173 | removes exactly the four session keys |
| AuthService.IsLoggedIn | frontend/src/services/AuthService.js:126-142 | true iff an access token is stored and the parsed expiry has not passed; an expired session is logged out |
| AuthService.GetUserInfo | frontend/src/services/AuthService.js:148-163 | null without an ID token or when it does not decode; else the payload |
| AuthService.RefreshAccessToken | frontend/src/services/AuthService.js:179-212 | no refresh token: failure and nothing changes; rejected: failure and logout; answered: saved |
| AuthService.SavedSessionLifetime | frontend/src/services/AuthService.js:92-142 | a saved session is logged in exactly up to and including its expiry instant, through the text round trip |
| AuthService.LoggedOutStaysOut | frontend/src/services/AuthService.js:126-173 | after logout nobody is logged in and no user info can be read |
| AuthService.SaveTokensAgree | frontend/src/services/AuthService.js:82-96 | the service's and the store's saves keep the two sessions in agreement |
| AuthService.LogoutAgree | frontend/src/services/AuthService.js:168-173 | the service's and the store's logouts leave the two sessions in agreement |
| AuthService.RefreshAgree | frontend/src/services/AuthService.js:179-212 | with agreeing sessions and the same token-endpoint outcome, the service's and the store's refreshes give the same result and stay in agreement |
| AuthService.IsLoggedInAgree | frontend/src/services/AuthService.js:126-142 | agreeing sessions give the same login verdict |

## Left out

- Calls to the AWS SDK are left out: the DynamoDB client and the Cognito identity
  provider client. Tables are maps, provider calls are parameters, and each write is
  applied atomically, one at a time. The SDK's `ServiceError`s from DynamoDB are
  logged and re-raised by the code, so the model has no error path for them.
- `UserRepository#find_by_email` is left out. It needs a secondary index outside the
  table model, and it swallows every service error.
- `JWT.decode`, `atob` and `JSON.parse` are left out; the decoded payload is a
  parameter, and a payload that is not a hash is not covered: on an array or an
  integer Ruby's `[]` raises `TypeError`, and on a string it returns a substring or nil.
- The clock is left out: `Time.current`, `Time.current.zone` and `Date.now()` are
  parameters.
- Floating point is left out. `expires_in * 1000` and the JS number of `expiresAt`
  are integers, with no precision limit. `expires_in` is an integer or absent. Tokens
  are strings or absent.
- The `/i` flag of the email regex is modelled for ASCII letters only; the pattern's
  classes are ASCII.
- `Cognito.ValidPasswordString`: only a string password is stated. For an array or a
  hash, the model uses its element count as `length`; for other values it reports
  `NoMethodError`.
- `Cognito.Length`: `ActionController::Parameters` is treated as a hash.
- `UserStore.Update` takes the attributes as pairs with distinct names. A Ruby hash
  holding both `:email` and `"email"` has two keys with one `to_s`; `update` would send
  the clause twice, and DynamoDB rejects overlapping paths. That case is not modelled.
- Exceptions that are not `StandardError` (which `rescue => e` does not catch) are
  left out.
- `AuthService.IsLoggedInAgree` assumes the stored expiry is not the instant 0. At 0
  the two disagree: the store's number 0 is falsy and never expires, while the
  service's text "0" is truthy and expires.
- `SessionStore.SavedSessionLifetime` assumes an expiry instant other than 0, for the
  same reason. `AuthService.SavedSessionLifetime`
  needs no such assumption: the text "0" is truthy.
- `AuthService.LoginUrl` and `AuthService.SignupUrl` carry no contract of their own.
  Their shape is stated by `UrlsDifferOnlyInPath`, `UrlsIgnoreScopeAndResponseType`
  and `RedirectRecoverable`. The literal encoded scope is not computed: it is left
  as `Encode("email openid phone")`.
- `exchangeCodeForToken`, `setAuthorizationHeader` and `removeAuthorizationHeader`
  are left out. They are network and axios-header glue.
- `getIdToken`, `getAccessToken` and `getRefreshToken` appear only as `GetItem`.
- `backend/app/controllers/api/settings_controller.rb` is not part of this model.
  It is HTTP and Slack glue.
- `frontend/src/services/ApiService.js` and `frontend/src/services/CognitoService.js`
  are not part of this model. They are fetch and SDK wrappers.
- The configuration files are not part of this model. `backend/config/routes.rb`
  defines no `/api/auth/me`, which `checkAuth` calls, so `CheckAuth` takes the
  answer as a parameter.
- `SessionStore.IsAuthenticated` is recomputed at every instant in the model. In the
  store it is a Vue `computed`, cached until `user`, `accessToken` or `expiresAt` changes;
  `Date.now()` does not invalidate it, so after expiry it can stay true until something
  else logs the session out. That caching is not modelled.
- `Router.Matches` folds ASCII letters only and compares the path as given: the
  router's percent-decoding of the path and its handling of repeated slashes are not
  modelled.
- Logging, and persisting Pinia and `localStorage` across page loads, are left out.

## Findings

| source | as written | input that shows it | evidently intended | confidence | as-written member | corrected member |
|---|---|---|---|---|---|---|
| backend/app/controllers/api/auth_controller.rb:24-28 | `signup` calls `sign_up(email:, password:, name:)` but the service declares only `email:` and `password:`, so Ruby raises `ArgumentError` and the catch-all renders 500 | name "Taro", email "taro@example.com", password "password1", provider succeeds: 500 | call the service with email and password only, giving 201 on success | not executed | AuthController.SignupAsWritten (AuthController.SignupAsWrittenCounterexample) | AuthController.Signup (AuthController.SignupStatuses) |
| backend/app/controllers/api/auth_controller.rb:72 | the guard tests `confirmation_code` twice and never `username` | confirmation_code "123456" without username: passed to the service, where the SDK or Cognito rejects the blank user name, so 500 instead of 400 | 400 MissingParameters when the username is blank | not executed | AuthController.ConfirmSignupAsWritten (AuthController.ConfirmGuardMissesUsername, AuthController.ConfirmDiffersIff) | AuthController.ConfirmSignup (AuthController.ConfirmStatuses) |
