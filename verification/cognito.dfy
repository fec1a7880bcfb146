/** `CognitoService`: input validation for sign-up and the translation of what
    the identity provider does into a result hash. The provider itself is not
    modelled: each operation takes as a parameter what the provider call would
    do if it were made — return a reply, or raise. */
module Cognito {
  import opened Values
  import EmailFormat

  /** What a call can raise. The first eight are the SDK's exception classes
      the service rescues by name; all of them, and `OtherServiceError`, are
      subclasses of the SDK's `ServiceError`. `OtherError` is any other
      `StandardError`. */
  datatype Fault =
    | UsernameExists
    | InvalidPassword
    | InvalidParameter
    | CodeMismatch
    | ExpiredCode
    | NotAuthorized
    | LimitExceeded
    | UserNotFound
    | OtherServiceError
    | OtherError

  /** The outcome of a provider call: its reply, or the fault it raised. */
  datatype Call<T> = Returned(value: T) | Threw(fault: Fault)

  /** The fields of the provider's sign-up reply the service passes on. */
  datatype SignUpReply = SignUpReply(userSub: Json, userConfirmed: Json, codeDeliveryDetails: Json)

  /** The hash a service method returns. `success` is true for the first three
      shapes and false for `Failed`, which carries `error_code` and `error_message`. */
  datatype ServiceResult =
    | SignedUp(userSub: Json, userConfirmed: Json, codeDeliveryDetails: Json)
    | Confirmed(message: string)
    | CodeResent(message: string, codeDeliveryDetails: Json)
    | Failed(errorCode: string, errorMessage: string)
  {
    predicate Success() {
      !Failed?
    }
  }

  /** Whether a fault is one of the provider's exceptions. */
  predicate FromProvider(f: Fault) {
    f != OtherError
  }

  /** The class name of a provider exception, which is also the error code the
      service reports when it rescues that exception by name. */
  function ExceptionName(f: Fault): string {
    match f
    case UsernameExists => "UsernameExistsException"
    case InvalidPassword => "InvalidPasswordException"
    case InvalidParameter => "InvalidParameterException"
    case CodeMismatch => "CodeMismatchException"
    case ExpiredCode => "ExpiredCodeException"
    case NotAuthorized => "NotAuthorizedException"
    case LimitExceeded => "LimitExceededException"
    case UserNotFound => "UserNotFoundException"
    case OtherServiceError => "ServiceError"
    case OtherError => "StandardError"
  }

  const ServiceErrorCode := "ServiceError"
  const UnexpectedErrorCode := "UnexpectedError"

  /** The faults each operation rescues by name. */
  const SignUpRescued: set<Fault> := {UsernameExists, InvalidPassword, InvalidParameter}
  const ConfirmRescued: set<Fault> := {CodeMismatch, ExpiredCode, NotAuthorized}
  const ResendRescued: set<Fault> := {LimitExceeded, UserNotFound}

  /** The user-facing message that goes with each error code. */
  function MessageFor(code: string): string {
    if code == "UsernameExistsException" then "このメールアドレスは既に登録されています"
    else if code == "InvalidPasswordException" then "パスワードがポリシー要件を満たしていません"
    else if code == "InvalidParameterException" then "入力パラメータが不正です"
    else if code == "CodeMismatchException" then "確認コードが正しくありません"
    else if code == "ExpiredCodeException" then "確認コードの有効期限が切れています"
    else if code == "NotAuthorizedException" then "ユーザーは既に確認済みです"
    else if code == "LimitExceededException" then "再送信の試行回数が上限に達しました。しばらく待ってから再度お試しください"
    else if code == "UserNotFoundException" then "ユーザーが見つかりません"
    else if code == "ServiceError" then "サーバーエラーが発生しました"
    else "予期しないエラーが発生しました"
  }

  /** A method's rescue chain: the exceptions it names first, then any other
      provider exception, then any other error. */
  function Rescue(rescued: set<Fault>, f: Fault): (r: ServiceResult)
    ensures r.Failed? && r.errorMessage == MessageFor(r.errorCode)
    ensures f in rescued ==> r.errorCode == ExceptionName(f)
    ensures f !in rescued && FromProvider(f) ==> r.errorCode == ServiceErrorCode
    ensures f !in rescued && !FromProvider(f) ==> r.errorCode == UnexpectedErrorCode
  {
    var code := if f in rescued then ExceptionName(f)
                else if FromProvider(f) then ServiceErrorCode
                else UnexpectedErrorCode;
    Failed(code, MessageFor(code))
  }

  /** Why `validate_email!` or `validate_password!` raised. `NoMethod` is the
      `NoMethodError` of calling `match?` or `length` on a value without it. */
  datatype Invalid = EmailRequired | InvalidEmailFormat | PasswordRequired | PasswordTooShort | NoMethod

  /** `validate_email!`: blank is rejected first, then anything that is not a
      string matching the e-mail pattern. */
  function ValidateEmail(email: Json): Result<(), Invalid> {
    if Blank(email) then Err(EmailRequired)
    else if !email.Str? then Err(NoMethod)
    else if !EmailFormat.Accepts(email.s) then Err(InvalidEmailFormat)
    else Ok(())
  }

  /** Ruby's `length` on a parameter value: strings, arrays and hashes have one. */
  function Length(v: Json): Option<nat> {
    match v
    case Str(s) => Some(|s|)
    case Arr(items) => Some(|items|)
    case Obj(fields) => Some(|fields|)
    case _ => None
  }

  /** `validate_password!`: blank is rejected, then anything shorter than 8. */
  function ValidatePassword(password: Json): Result<(), Invalid> {
    if Blank(password) then Err(PasswordRequired)
    else if Length(password).None? then Err(NoMethod)
    else if Length(password).value < 8 then Err(PasswordTooShort)
    else Ok(())
  }

  /** `sign_up`: validation, then the provider call. A validation error is a
      `StandardError` and is reported as unexpected. */
  function SignUp(email: Json, password: Json, provider: Call<SignUpReply>): (r: ServiceResult)
    ensures ValidateEmail(email).Err? || ValidatePassword(password).Err? ==>
      r == Failed(UnexpectedErrorCode, MessageFor(UnexpectedErrorCode))
    ensures r.Success() <==> ValidateEmail(email).Ok? && ValidatePassword(password).Ok? && provider.Returned?
    ensures r.Success() ==> r == SignedUp(provider.value.userSub, provider.value.userConfirmed, provider.value.codeDeliveryDetails)
    ensures ValidateEmail(email).Ok? && ValidatePassword(password).Ok? && provider.Threw? ==> r == Rescue(SignUpRescued, provider.fault)
  {
    if ValidateEmail(email).Err? || ValidatePassword(password).Err? then
      Rescue(SignUpRescued, OtherError)
    else
      match provider
      case Returned(reply) => SignedUp(reply.userSub, reply.userConfirmed, reply.codeDeliveryDetails)
      case Threw(f) => Rescue(SignUpRescued, f)
  }

  /** What the confirmation call does with a blank user name: the SDK's
      check of required parameters raises `ArgumentError` (a plain
      `StandardError`) for nil, and Cognito rejects an empty or all-whitespace
      name with `InvalidParameterException`. */
  predicate RejectsBlankUsername(provider: Call<()>) {
    provider == Threw(OtherError) || provider == Threw(InvalidParameter)
  }

  const ConfirmedMessage := "アカウントの確認が完了しました"
  const ResentMessage := "確認コードを再送信しました"

  /** `confirm_sign_up`: the provider call and its rescue chain. */
  function ConfirmSignUp(provider: Call<()>): (r: ServiceResult)
    ensures r.Success() <==> provider.Returned?
    ensures r.Success() ==> r == Confirmed(ConfirmedMessage)
    ensures provider.Threw? ==> r == Rescue(ConfirmRescued, provider.fault)
  {
    match provider
    case Returned(_) => Confirmed(ConfirmedMessage)
    case Threw(f) => Rescue(ConfirmRescued, f)
  }

  /** `resend_confirmation_code`: the provider call and its rescue chain. */
  function ResendConfirmationCode(provider: Call<Json>): (r: ServiceResult)
    ensures r.Success() <==> provider.Returned?
    ensures r.Success() ==> r == CodeResent(ResentMessage, provider.value)
    ensures provider.Threw? ==> r == Rescue(ResendRescued, provider.fault)
  {
    match provider
    case Returned(details) => CodeResent(ResentMessage, details)
    case Threw(f) => Rescue(ResendRescued, f)
  }

  // ---- Properties ---------------------------------------------------------

  /** The e-mail rule in terms of the pattern: a string of the form
      local@label(.label)*.tld; such a string is never blank. */
  lemma ValidEmailIffPattern(email: Json)
    ensures ValidateEmail(email).Ok? <==> email.Str? && EmailFormat.Pattern(email.s)
  {
    if email.Str? {
      EmailFormat.AcceptsIffPattern(email.s);
      if EmailFormat.Accepts(email.s) {
        var n := EmailFormat.LocalRun(email.s);
        assert !IsSpace(email.s[n]);
      }
    }
  }

  /** The password rule on strings: not blank and at least 8 characters. */
  lemma ValidPasswordString(s: string)
    ensures ValidatePassword(Str(s)).Ok? <==> !BlankString(s) && |s| >= 8
  {
  }

  /** A rejected input never reaches the provider: the result is the same
      whatever the provider would have done. */
  lemma InvalidInputSkipsProvider(email: Json, password: Json, p1: Call<SignUpReply>, p2: Call<SignUpReply>)
    requires ValidateEmail(email).Err? || ValidatePassword(password).Err?
    ensures SignUp(email, password, p1) == SignUp(email, password, p2)
    ensures SignUp(email, password, p1).errorCode == UnexpectedErrorCode
  {
  }

  /** The error codes a failure can carry. */
  const SignUpCodes: set<string> :=
    {"UsernameExistsException", "InvalidPasswordException", "InvalidParameterException", "ServiceError", "UnexpectedError"}
  const ConfirmCodes: set<string> :=
    {"CodeMismatchException", "ExpiredCodeException", "NotAuthorizedException", "ServiceError", "UnexpectedError"}
  const ResendCodes: set<string> :=
    {"LimitExceededException", "UserNotFoundException", "ServiceError", "UnexpectedError"}

  /** A rescue chain reports a code from a set that holds the names of the
      exceptions it rescues and the two catch-all codes. */
  lemma RescueCodeIn(rescued: set<Fault>, f: Fault, codes: set<string>)
    requires forall g | g in rescued :: ExceptionName(g) in codes
    requires ServiceErrorCode in codes && UnexpectedErrorCode in codes
    ensures Rescue(rescued, f).errorCode in codes
  {
  }

  /** No method raises: every outcome is a result, and every failure of
      `sign_up` carries one of its codes with that code's message. */
  lemma SignUpFailuresReported(email: Json, password: Json, provider: Call<SignUpReply>)
    ensures var x := SignUp(email, password, provider);
      x.Failed? ==> x.errorCode in SignUpCodes && x.errorMessage == MessageFor(x.errorCode)
  {
    if provider.Threw? {
      RescueCodeIn(SignUpRescued, provider.fault, SignUpCodes);
    }
    RescueCodeIn(SignUpRescued, OtherError, SignUpCodes);
  }

  /** The same for `confirm_sign_up`. */
  lemma ConfirmFailuresReported(provider: Call<()>)
    ensures var x := ConfirmSignUp(provider);
      x.Failed? ==> x.errorCode in ConfirmCodes && x.errorMessage == MessageFor(x.errorCode)
  {
    if provider.Threw? {
      RescueCodeIn(ConfirmRescued, provider.fault, ConfirmCodes);
    }
  }

  /** The same for `resend_confirmation_code`. */
  lemma ResendFailuresReported(provider: Call<Json>)
    ensures var x := ResendConfirmationCode(provider);
      x.Failed? ==> x.errorCode in ResendCodes && x.errorMessage == MessageFor(x.errorCode)
  {
    if provider.Threw? {
      RescueCodeIn(ResendRescued, provider.fault, ResendCodes);
    }
  }
}
