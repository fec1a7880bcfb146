/** `Api::AuthController`: the sign-up, confirmation and resend actions. Each
    checks its parameters, calls the service, and maps the service's error code
    to an HTTP status; any exception that escapes becomes 500 `InternalError`.
    The service's provider call is a parameter, as in `Cognito`. */
module AuthController {
  import opened Values
  import opened Cognito

  /** The request parameters, by name. */
  type Params = map<string, Json>

  /** A rendered response: HTTP status and JSON body. */
  datatype Response = Response(status: int, body: map<string, Json>)

  const Ok := 200
  const Created := 201
  const BadRequest := 400
  const Forbidden := 403
  const NotFound := 404
  const Conflict := 409
  const UnprocessableEntity := 422
  const TooManyRequests := 429
  const InternalServerError := 500

  /** The body of every failure response. */
  function FailureBody(code: string, message: string): map<string, Json> {
    map["success" := Bool(false), "error_code" := Str(code), "error_message" := Str(message)]
  }

  /** A failed service result, echoed with the action's status. */
  function Echo(status: int, r: ServiceResult): Response
    requires r.Failed?
  {
    Response(status, FailureBody(r.errorCode, r.errorMessage))
  }

  /** What the `rescue => e` clause of every action renders. */
  const InternalError := Response(InternalServerError, FailureBody("InternalError", "サーバーエラーが発生しました"))

  const SignupMissing := Response(BadRequest, FailureBody("MissingParameters", "名前とメールアドレスとパスワードは必須です"))
  const ConfirmMissing := Response(BadRequest, FailureBody("MissingParameters", "ユーザー名と確認コードは必須です"))
  const ResendMissing := Response(BadRequest, FailureBody("MissingParameters", "ユーザー名は必須です"))

  // ---- signup ---------------------------------------------------------------

  /** The guard of `signup`: name, email and password are all present. */
  predicate SignupParamsPresent(p: Params) {
    !Blank(Get(p, "name")) && !Blank(Get(p, "email")) && !Blank(Get(p, "password"))
  }

  /** The status `signup` gives a failed service result. */
  function SignupStatus(code: string): int {
    if code == "UsernameExistsException" then Conflict
    else if code == "InvalidPasswordException" || code == "InvalidParameterException" then UnprocessableEntity
    else InternalServerError
  }

  /** What `signup` renders for a service result. */
  function SignupRender(r: ServiceResult): Response {
    if r.SignedUp? then
      Response(Created, map["success" := Bool(true), "user_sub" := r.userSub,
                            "user_confirmed" := r.userConfirmed,
                            "code_delivery_details" := r.codeDeliveryDetails])
    else if r.Failed? then Echo(SignupStatus(r.errorCode), r)
    else InternalError
  }

  /** `signup` as written: the service is called with a `name:` keyword that
      `sign_up(email:, password:)` does not declare, so Ruby raises
      `ArgumentError` before the method runs, and the action's rescue renders
      `InternalError`. */
  function SignupAsWritten(p: Params, provider: Call<SignUpReply>): (resp: Response)
    ensures !SignupParamsPresent(p) ==> resp == SignupMissing
    ensures SignupParamsPresent(p) ==> resp == InternalError
  {
    if !SignupParamsPresent(p) then SignupMissing
    else InternalError
  }

  /** `signup` with the service called as it declares, on email and password. */
  function Signup(p: Params, provider: Call<SignUpReply>): (resp: Response)
    ensures !SignupParamsPresent(p) ==> resp == SignupMissing
    ensures SignupParamsPresent(p) ==> resp == SignupRender(SignUp(Get(p, "email"), Get(p, "password"), provider))
  {
    if !SignupParamsPresent(p) then SignupMissing
    else SignupRender(SignUp(Get(p, "email"), Get(p, "password"), provider))
  }

  // ---- confirm_signup -------------------------------------------------------

  /** The status `confirm_signup` gives a failed service result. */
  function ConfirmStatus(code: string): int {
    if code == "CodeMismatchException" || code == "ExpiredCodeException" then UnprocessableEntity
    else if code == "NotAuthorizedException" then Forbidden
    else InternalServerError
  }

  function ConfirmRender(r: ServiceResult): Response {
    if r.Confirmed? then Response(Ok, map["success" := Bool(true), "message" := Str(r.message)])
    else if r.Failed? then Echo(ConfirmStatus(r.errorCode), r)
    else InternalError
  }

  /** `confirm_signup` as written: the guard tests the confirmation code twice
      and never the user name. */
  function ConfirmSignupAsWritten(p: Params, provider: Call<()>): (resp: Response)
    ensures Blank(Get(p, "confirmation_code")) ==> resp == ConfirmMissing
    ensures !Blank(Get(p, "confirmation_code")) ==> resp == ConfirmRender(ConfirmSignUp(provider))
  {
    var code := Get(p, "confirmation_code");
    if Blank(code) || Blank(code) then ConfirmMissing
    else ConfirmRender(ConfirmSignUp(provider))
  }

  /** `confirm_signup` with the guard its message describes: user name and
      confirmation code are both required. */
  function ConfirmSignup(p: Params, provider: Call<()>): (resp: Response)
    ensures Blank(Get(p, "username")) || Blank(Get(p, "confirmation_code")) ==> resp == ConfirmMissing
    ensures !Blank(Get(p, "username")) && !Blank(Get(p, "confirmation_code")) ==>
      resp == ConfirmRender(ConfirmSignUp(provider))
  {
    if Blank(Get(p, "username")) || Blank(Get(p, "confirmation_code")) then ConfirmMissing
    else ConfirmRender(ConfirmSignUp(provider))
  }

  // ---- resend_confirmation_code ---------------------------------------------

  /** The status `resend_confirmation_code` gives a failed service result. */
  function ResendStatus(code: string): int {
    if code == "LimitExceededException" then TooManyRequests
    else if code == "UserNotFoundException" then NotFound
    else InternalServerError
  }

  function ResendRender(r: ServiceResult): Response {
    if r.CodeResent? then
      Response(Ok, map["success" := Bool(true), "message" := Str(r.message),
                       "code_delivery_details" := r.codeDeliveryDetails])
    else if r.Failed? then Echo(ResendStatus(r.errorCode), r)
    else InternalError
  }

  function ResendConfirmationCode(p: Params, provider: Call<Json>): (resp: Response)
    ensures Blank(Get(p, "username")) ==> resp == ResendMissing
    ensures !Blank(Get(p, "username")) ==> resp == ResendRender(Cognito.ResendConfirmationCode(provider))
  {
    if Blank(Get(p, "username")) then ResendMissing
    else ResendRender(Cognito.ResendConfirmationCode(provider))
  }

  // ---- Properties of the actions composed with the service ------------------

  /** Failure bodies carry the service's code and message unchanged. */
  lemma FailureEchoed(r: ServiceResult)
    requires r.Failed?
    ensures SignupRender(r).body["error_code"] == Str(r.errorCode)
    ensures SignupRender(r).body["error_message"] == Str(r.errorMessage)
    ensures ConfirmRender(r).body["error_code"] == Str(r.errorCode)
    ensures ConfirmRender(r).body["error_message"] == Str(r.errorMessage)
    ensures ResendRender(r).body["error_code"] == Str(r.errorCode)
    ensures ResendRender(r).body["error_message"] == Str(r.errorMessage)
  {
  }

  /** As written, `signup` can never create a user: every request ends in 400
      or 500, even one the service would accept. */
  lemma SignupAsWrittenNeverCreates(p: Params, provider: Call<SignUpReply>)
    ensures SignupAsWritten(p, provider).status in {BadRequest, InternalServerError}
    ensures SignupParamsPresent(p) && provider.Returned? ==> SignupAsWritten(p, provider).status != Created
  {
  }

  /** The sample address of the counterexample passes `validate_email!`. */
  lemma SampleEmailValid()
    ensures ValidateEmail(Str("taro@example.com")).Ok?
  {
    var e := EmailFormat.Assemble("taro", ["example"], "com");
    assert e == "taro@example.com";
    assert EmailFormat.Pieces("taro", ["example"], "com");
    ValidEmailIffPattern(Str(e));
  }

  /** A request with the three parameters and inputs the service accepts is
      refused as written and succeeds once corrected. */
  lemma SignupDiverges(p: Params, reply: SignUpReply)
    requires SignupParamsPresent(p)
    requires ValidateEmail(Get(p, "email")).Ok? && ValidatePassword(Get(p, "password")).Ok?
    ensures SignupAsWritten(p, Returned(reply)).status == InternalServerError
    ensures Signup(p, Returned(reply)).status == Created
  {
  }

  /** A sign-up request with a name, a well-formed address and an 8-character password. */
  const SampleSignup: Params :=
    map["name" := Str("Taro"), "email" := Str("taro@example.com"), "password" := Str("password1")]

  /** The three steps of the counterexample, each proved on its own: the
      sample request passes the parameter check, and the service accepts its
      address and its password. */
  lemma SampleSignupPresent()
    ensures SignupParamsPresent(SampleSignup)
  {
    assert !IsSpace("password1"[0]);
    assert !IsSpace("Taro"[0]);
    assert !IsSpace("taro@example.com"[0]);
  }

  lemma SampleSignupEmailValid()
    ensures ValidateEmail(Get(SampleSignup, "email")).Ok?
  {
    SampleEmailValid();
  }

  lemma SamplePasswordValid()
    ensures ValidatePassword(Get(SampleSignup, "password")).Ok?
  {
    assert !IsSpace("password1"[0]);
  }

  /** The sample request, which the service would accept: as written the
      action answers 500, corrected it answers 201. */
  lemma SignupAsWrittenCounterexample(reply: SignUpReply)
    ensures SignupAsWritten(SampleSignup, Returned(reply)).status == InternalServerError
    ensures Signup(SampleSignup, Returned(reply)).status == Created
  {
    SampleSignupPresent();
    SampleSignupEmailValid();
    SamplePasswordValid();
    SignupDiverges(SampleSignup, reply);
  }

  /** The statuses `signup` can give, each tied to its cause. */
  lemma SignupStatuses(p: Params, provider: Call<SignUpReply>)
    ensures var resp := Signup(p, provider);
      var valid := ValidateEmail(Get(p, "email")).Ok? && ValidatePassword(Get(p, "password")).Ok?;
      && resp.status in {Created, BadRequest, Conflict, UnprocessableEntity, InternalServerError}
      && (resp.status == BadRequest <==> !SignupParamsPresent(p))
      && (resp.status == Created <==> SignupParamsPresent(p) && valid && provider.Returned?)
      && (resp.status == Conflict <==> SignupParamsPresent(p) && valid && provider == Threw(UsernameExists))
      && (resp.status == UnprocessableEntity <==>
            SignupParamsPresent(p) && valid && provider.Threw? && provider.fault in {InvalidPassword, InvalidParameter})
  {
    if SignupParamsPresent(p) {
      SignupResultStatus(Get(p, "email"), Get(p, "password"), provider);
    }
  }

  /** The status of the rendered service result, once the parameters are present. */
  lemma SignupResultStatus(email: Json, password: Json, provider: Call<SignUpReply>)
    ensures var status := SignupRender(SignUp(email, password, provider)).status;
      var valid := ValidateEmail(email).Ok? && ValidatePassword(password).Ok?;
      && status in {Created, Conflict, UnprocessableEntity, InternalServerError}
      && (status == Created <==> valid && provider.Returned?)
      && (status == Conflict <==> valid && provider == Threw(UsernameExists))
      && (status == UnprocessableEntity <==>
            valid && provider.Threw? && provider.fault in {InvalidPassword, InvalidParameter})
  {
    var r := SignUp(email, password, provider);
    if ValidateEmail(email).Err? || ValidatePassword(password).Err? {
      assert r.errorCode == UnexpectedErrorCode;
    } else if provider.Threw? {
      SignupStatusOfFault(provider.fault);
    }
  }

  /** The status each fault the provider raises ends as, per action. */
  lemma SignupStatusOfFault(f: Fault)
    ensures SignupStatus(Rescue(SignUpRescued, f).errorCode) ==
      (if f == UsernameExists then Conflict
       else if f == InvalidPassword || f == InvalidParameter then UnprocessableEntity
       else InternalServerError)
  {
    match f
    case UsernameExists =>
    case InvalidPassword =>
    case InvalidParameter =>
    case _ =>
  }

  lemma ConfirmStatusOfFault(f: Fault)
    ensures ConfirmStatus(Rescue(ConfirmRescued, f).errorCode) ==
      (if f == CodeMismatch || f == ExpiredCode then UnprocessableEntity
       else if f == NotAuthorized then Forbidden
       else InternalServerError)
  {
    match f
    case CodeMismatch =>
    case ExpiredCode =>
    case NotAuthorized =>
    case _ =>
  }

  lemma ResendStatusOfFault(f: Fault)
    ensures ResendStatus(Rescue(ResendRescued, f).errorCode) ==
      (if f == LimitExceeded then TooManyRequests
       else if f == UserNotFound then NotFound
       else InternalServerError)
  {
    match f
    case LimitExceeded =>
    case UserNotFound =>
    case _ =>
  }

  /** As written, a request with a code and no user name is not refused: it
      reaches the provider. The provider rejects the blank name (the SDK's
      parameter check for nil, Cognito for an empty name), so the answer is
      500 where 400 was intended. */
  lemma ConfirmGuardMissesUsername(provider: Call<()>)
    ensures var p := map["confirmation_code" := Str("123456")];
      && ConfirmSignupAsWritten(p, provider) == ConfirmRender(ConfirmSignUp(provider))
      && ConfirmSignupAsWritten(p, provider).status != BadRequest
      && ConfirmSignup(p, provider) == ConfirmMissing
    ensures var p := map["confirmation_code" := Str("123456")];
      RejectsBlankUsername(provider) ==> ConfirmSignupAsWritten(p, provider).status == InternalServerError
  {
    var p := map["confirmation_code" := Str("123456")];
    assert !IsSpace("123456"[0]);
    if provider.Threw? {
      ConfirmStatusOfFault(provider.fault);
    }
  }

  /** The statuses `confirm_signup` gives as written: only a blank code is
      refused, and otherwise the provider's outcome decides. */
  lemma ConfirmStatusesAsWritten(p: Params, provider: Call<()>)
    ensures var resp := ConfirmSignupAsWritten(p, provider);
      var present := !Blank(Get(p, "confirmation_code"));
      && resp.status in {Ok, BadRequest, Forbidden, UnprocessableEntity, InternalServerError}
      && (resp.status == BadRequest <==> !present)
      && (resp.status == Ok <==> present && provider.Returned?)
      && (resp.status == Forbidden <==> present && provider == Threw(NotAuthorized))
      && (resp.status == UnprocessableEntity <==>
            present && provider.Threw? && provider.fault in {CodeMismatch, ExpiredCode})
  {
    if provider.Threw? {
      ConfirmStatusOfFault(provider.fault);
    }
  }

  /** The action as written and as intended answer differently exactly when
      the user name is blank and the code is not. */
  lemma ConfirmDiffersIff(p: Params, provider: Call<()>)
    ensures ConfirmSignupAsWritten(p, provider) != ConfirmSignup(p, provider) <==>
      Blank(Get(p, "username")) && !Blank(Get(p, "confirmation_code"))
  {
    ConfirmStatusesAsWritten(p, provider);
  }

  /** The statuses `confirm_signup` can give, each tied to its cause. */
  lemma ConfirmStatuses(p: Params, provider: Call<()>)
    ensures var resp := ConfirmSignup(p, provider);
      var present := !Blank(Get(p, "username")) && !Blank(Get(p, "confirmation_code"));
      && resp.status in {Ok, BadRequest, Forbidden, UnprocessableEntity, InternalServerError}
      && (resp.status == BadRequest <==> !present)
      && (resp.status == Ok <==> present && provider.Returned?)
      && (resp.status == Forbidden <==> present && provider == Threw(NotAuthorized))
      && (resp.status == UnprocessableEntity <==>
            present && provider.Threw? && provider.fault in {CodeMismatch, ExpiredCode})
  {
    if provider.Threw? {
      ConfirmStatusOfFault(provider.fault);
    }
  }

  /** The statuses `resend_confirmation_code` can give, each tied to its cause. */
  lemma ResendStatuses(p: Params, provider: Call<Json>)
    ensures var resp := ResendConfirmationCode(p, provider);
      var present := !Blank(Get(p, "username"));
      && resp.status in {Ok, BadRequest, NotFound, TooManyRequests, InternalServerError}
      && (resp.status == BadRequest <==> !present)
      && (resp.status == Ok <==> present && provider.Returned?)
      && (resp.status == TooManyRequests <==> present && provider == Threw(LimitExceeded))
      && (resp.status == NotFound <==> present && provider == Threw(UserNotFound))
  {
    if provider.Threw? {
      ResendStatusOfFault(provider.fault);
    }
  }
}
