/**
 * The login form's submit handler (`Login.tsx`). The backend's answers —
 * to the login request and to the optional resend of the verification
 * code — and the user's answer to the confirmation dialog are inputs; the
 * requests, stored values, alerts and navigation are returned as effects.
 */
module Login {
  import opened Wrappers
  import opened Text
  import opened Effects

  /** How the login request ended: a 2xx reply, an error response, or no response at all. */
  datatype LoginReply =
    | Replied(message: string, token: string)
    | Rejected(httpStatus: int, message: string, needsVerification: bool)
    | NoResponse

  datatype ResendReply = ResendReplied(message: string) | ResendFailed

  /** The final status line, the error line, and the effects in order. */
  datatype LoginResult = LoginResult(statusMessage: string, errorMessage: string, effects: seq<Effect>)

  const SuccessMessage: string := "Login successful"
  const InvalidCredentials: string := "Invalid email or password. Please try again."
  const GenericError: string := "An error occurred during login. Please try again."
  const VerifyPrompt: string := "Your email has not been verified. Would you like to resend the verification email?"

  /** The address sent to the backend: trimmed, then lower-cased. */
  function NormalizeEmail(email: string): (r: string)
    ensures exists a :: LowerMiddleOf(email, r, a)
    ensures |r| <= |email| && !HasUpper(r)
    ensures |r| == 0 <==> AllSpace(email)
    ensures |r| > 0 ==> !IsSpace(r[0]) && !IsSpace(r[|r| - 1])
  {
    NormalizedSpec(email);
    Lower(Trim(email))
  }

  /** What trimming then lower-casing gives, as the contract of `NormalizeEmail` states it. */
  lemma NormalizedSpec(email: string)
    ensures var r := Lower(Trim(email));
            && |r| <= |email| && !HasUpper(r)
            && (|r| > 0 ==> !IsSpace(r[0]) && !IsSpace(r[|r| - 1]))
            && (|r| == 0 <==> AllSpace(email))
            && exists a :: LowerMiddleOf(email, r, a)
  {
    NormalizedEnds(email);
    NormalizedMiddle(email);
  }

  /** Lower-casing the trimmed address keeps its length and its white space at the ends. */
  lemma NormalizedEnds(email: string)
    ensures var r := Lower(Trim(email));
            && |r| <= |email| && !HasUpper(r)
            && (|r| > 0 ==> !IsSpace(r[0]) && !IsSpace(r[|r| - 1]))
            && (|r| == 0 <==> AllSpace(email))
  {
    var t := Trim(email);
    LowerSpec(t);
    TrimEmptyIffAllSpace(email);
  }

  /**
   * `r` is the run of `email` starting at `a`, lower-cased character by
   * character, and everything before and after that run is white space.
   */
  predicate LowerMiddleOf(email: string, r: string, a: int) {
    && 0 <= a <= |email| - |r|
    && AllSpace(email[..a]) && AllSpace(email[a + |r|..])
    && forall i :: 0 <= i < |r| ==> r[i] == LowerChar(email[a + i])
  }

  /** The lower-cased trim maps, character by character, a middle run of the address. */
  lemma NormalizedMiddle(email: string)
    ensures exists a :: LowerMiddleOf(email, Lower(Trim(email)), a)
  {
    var t := Trim(email);
    var a :| MiddleOf(email, t, a);
    LowerOfRun(email, t, a);
    var r := Lower(t);
    assert |r| == |t| && email[a + |r|..] == email[a + |t|..];
    assert LowerMiddleOf(email, r, a);
  }

  /** Lower-casing a run of a string lower-cases the string's characters at the run's positions. */
  lemma LowerOfRun(s: string, t: string, a: nat)
    requires a + |t| <= |s| && t == s[a..a + |t|]
    ensures forall i :: 0 <= i < |t| ==> Lower(t)[i] == LowerChar(s[a + i])
  {
    forall i | 0 <= i < |t| ensures Lower(t)[i] == LowerChar(s[a + i]) {
      assert t[i] == s[a..a + |t|][i];
    }
  }

  /** Normalizing a normalized address changes nothing. */
  lemma NormalizeIdempotent(email: string)
    ensures NormalizeEmail(NormalizeEmail(email)) == NormalizeEmail(email)
  {
    var t := Trim(email);
    var n := Lower(t);
    LowerSpec(t);
    TrimOfTrimmed(n);
    LowerSpec(n);
  }

  /** The stored username: the address up to its first "@", or all of it. */
  function UsernameOf(normalizedEmail: string): (r: string)
    ensures !Contains(r, '@')
    ensures |r| <= |normalizedEmail| && r == normalizedEmail[..|r|]
    ensures |r| < |normalizedEmail| ==> normalizedEmail[|r|] == '@'
    ensures !Contains(normalizedEmail, '@') ==> r == normalizedEmail
  {
    Before(normalizedEmail, '@')
  }

  /**
   * The error-response branch: the error line shows the backend's message or
   * the generic one; a 403 that asks for verification opens the dialog, and
   * a confirmed dialog requests a new code.
   */
  function Refused(normalized: string, httpStatus: int, message: string, needsVerification: bool,
                   confirmResend: bool, resend: ResendReply): (r: LoginResult)
    ensures |r.effects| > 0 && r.effects[0] == Post("/login", normalized)
    ensures r.errorMessage == (if message != "" then message else GenericError)
  {
    var login := Post("/login", normalized);
    var error := if message != "" then message else GenericError;
    if httpStatus == 403 && needsVerification then
      var ask := Confirm(VerifyPrompt);
      if confirmResend then
        // the resend handler normalizes the typed address again, the same way
        var request := Post("/resend-otp", normalized);
        match resend
        case ResendReplied(m) =>
          LoginResult("Resending verification code...", error,
                      [login, ask, request,
                       Alert(if m != "" then m else "Verification email sent. Please check your inbox."),
                       Navigate("/register", NoState)])
        case ResendFailed =>
          LoginResult("Failed to resend verification code.", error,
                      [login, ask, request, Alert("Failed to resend verification email. Please try again.")])
      else
        LoginResult("Error encountered during authentication process.", error, [login, ask])
    else
      LoginResult("Error encountered during authentication process.", error, [login])
  }

  /** The handler's outcome for one submission, given the normalized address it computes first. */
  function Submit(normalized: string, reply: LoginReply, confirmResend: bool, resend: ResendReply): (r: LoginResult)
    ensures |r.effects| > 0 && r.effects[0] == Post("/login", normalized)
    ensures reply.Replied? && reply.message != SuccessMessage ==>
              r == LoginResult("Authentication failed. Invalid credentials.", InvalidCredentials,
                               [Post("/login", normalized)])
    ensures reply.NoResponse? ==> r.errorMessage == GenericError && |r.effects| == 1
    ensures reply.Rejected? ==> r.errorMessage == (if reply.message != "" then reply.message else GenericError)
  {
    var login := Post("/login", normalized);
    match reply
    case Replied(message, token) =>
      if message == SuccessMessage then
        LoginResult("Connection established. Initializing room creation interface...", "",
                    [login,
                     StoreSet(LocalStorage, "authToken", token),
                     StoreSet(LocalStorage, "username", UsernameOf(normalized)),
                     Alert("Login successful!"),
                     Navigate("/HomePage", NoState)])
      else
        LoginResult("Authentication failed. Invalid credentials.", InvalidCredentials, [login])
    case Rejected(httpStatus, message, needsVerification) =>
      Refused(normalized, httpStatus, message, needsVerification, confirmResend, resend)
    case NoResponse =>
      LoginResult("Error encountered during authentication process.", GenericError, [login])
  }

  /**
   * `handleSubmit`: normalize the typed address, then act on the replies.
   * The login request goes out first, with no upper-case letter and no
   * surrounding white space in its address.
   */
  function HandleSubmit(email: string, reply: LoginReply, confirmResend: bool, resend: ResendReply): (r: LoginResult)
    ensures |r.effects| > 0 && r.effects[0].Post? && r.effects[0].endpoint == "/login"
    ensures r.effects[0].email == NormalizeEmail(email) && !HasUpper(r.effects[0].email)
  {
    Submit(NormalizeEmail(email), reply, confirmResend, resend)
  }

  /** Surrounding white space in the typed address never changes the outcome. */
  lemma SubmitIgnoresPadding(email: string, reply: LoginReply, confirmResend: bool, resend: ResendReply)
    ensures HandleSubmit(Trim(email), reply, confirmResend, resend) == HandleSubmit(email, reply, confirmResend, resend)
  {
    TrimIdempotent(email);
  }

  /** The username is stored exactly when the backend answered "Login successful". */
  lemma StoresUsernameIffSuccess(normalized: string, reply: LoginReply, confirmResend: bool, resend: ResendReply)
    ensures TouchesStorage(Submit(normalized, reply, confirmResend, resend).effects) <==>
              reply.Replied? && reply.message == SuccessMessage
    ensures reply.Replied? && reply.message == SuccessMessage ==>
              var effects := Submit(normalized, reply, confirmResend, resend).effects;
              && StoreSet(LocalStorage, "username", UsernameOf(normalized)) in effects
              && StoreSet(LocalStorage, "authToken", reply.token) in effects
              && Navigate("/HomePage", NoState) in effects
  {
    var effects := Submit(normalized, reply, confirmResend, resend).effects;
    if reply.Replied? && reply.message == SuccessMessage {
      assert effects[1].StoreSet?;
    }
  }

  /** The stored username never contains "@" and is a prefix of the normalized address. */
  lemma StoredUsernameHasNoAt(normalized: string, reply: LoginReply, confirmResend: bool, resend: ResendReply, i: nat)
    requires i < |Submit(normalized, reply, confirmResend, resend).effects|
    requires Submit(normalized, reply, confirmResend, resend).effects[i].StoreSet?
    requires Submit(normalized, reply, confirmResend, resend).effects[i].key == "username"
    ensures !Contains(Submit(normalized, reply, confirmResend, resend).effects[i].value, '@')
    ensures var v := Submit(normalized, reply, confirmResend, resend).effects[i].value;
            v == normalized[..|v|]
  {
    match reply
    case Replied(message, token) =>
      if message == SuccessMessage {
        assert i == 2;
      }
    case Rejected(_, _, _) =>
    case NoResponse =>
  }

  /** Every request a submission sends — login and resend — carries the address it was given. */
  lemma RequestsCarryAddress(normalized: string, reply: LoginReply, confirmResend: bool, resend: ResendReply, i: nat)
    requires i < |Submit(normalized, reply, confirmResend, resend).effects|
    requires Submit(normalized, reply, confirmResend, resend).effects[i].Post?
    ensures Submit(normalized, reply, confirmResend, resend).effects[i].email == normalized
  {
    match reply
    case Replied(message, token) =>
      if message == SuccessMessage {
        assert i == 0;
      }
    case Rejected(_, _, _) =>
      assert i <= 2;
    case NoResponse =>
  }

  /** Whatever was typed, both requests carry the same trimmed, lower-cased address. */
  lemma RequestsUseNormalizedEmail(email: string, reply: LoginReply, confirmResend: bool, resend: ResendReply, i: nat)
    requires i < |HandleSubmit(email, reply, confirmResend, resend).effects|
    requires HandleSubmit(email, reply, confirmResend, resend).effects[i].Post?
    ensures HandleSubmit(email, reply, confirmResend, resend).effects[i].email == NormalizeEmail(email)
    ensures exists a :: LowerMiddleOf(email, HandleSubmit(email, reply, confirmResend, resend).effects[i].email, a)
  {
    RequestsCarryAddress(NormalizeEmail(email), reply, confirmResend, resend, i);
  }

  /**
   * The verification dialog appears exactly after a 403 that asks for
   * verification, and a resend is requested only once that dialog was
   * confirmed, right after it.
   */
  lemma ResendOnlyWhenAsked(normalized: string, reply: LoginReply, confirmResend: bool, resend: ResendReply)
    ensures var effects := Submit(normalized, reply, confirmResend, resend).effects;
            Confirm(VerifyPrompt) in effects <==> reply.Rejected? && reply.httpStatus == 403 && reply.needsVerification
    ensures Post("/resend-otp", normalized) in Submit(normalized, reply, confirmResend, resend).effects
            <==> reply.Rejected? && reply.httpStatus == 403 && reply.needsVerification && confirmResend
    ensures var effects := Submit(normalized, reply, confirmResend, resend).effects;
            Post("/resend-otp", normalized) in effects ==>
              effects[1] == Confirm(VerifyPrompt) && effects[2] == Post("/resend-otp", normalized)
  {
    var effects := Submit(normalized, reply, confirmResend, resend).effects;
    if reply.Rejected? && reply.httpStatus == 403 && reply.needsVerification {
      assert effects[1] == Confirm(VerifyPrompt);
      if confirmResend {
        assert effects[2] == Post("/resend-otp", normalized);
      } else {
        OnlyLoginRequest(normalized, reply, confirmResend, resend);
      }
    } else {
      OnlyLoginRequest(normalized, reply, confirmResend, resend);
      if reply.Replied? && reply.message == SuccessMessage {
        assert effects[4].Navigate? && effects[1..4] == [effects[1], effects[2], effects[3]];
      } else {
        assert effects == [Post("/login", normalized)];
      }
    }
  }

  /** Without a confirmed resend of a 403 that asks for verification, the login request is the only request. */
  lemma OnlyLoginRequest(normalized: string, reply: LoginReply, confirmResend: bool, resend: ResendReply)
    requires !(reply.Rejected? && reply.httpStatus == 403 && reply.needsVerification && confirmResend)
    ensures forall e :: e in Submit(normalized, reply, confirmResend, resend).effects && e.Post? ==> e == Post("/login", normalized)
  {
    var effects := Submit(normalized, reply, confirmResend, resend).effects;
    if reply.Replied? && reply.message == SuccessMessage {
      assert effects == [Post("/login", normalized),
                         StoreSet(LocalStorage, "authToken", reply.token),
                         StoreSet(LocalStorage, "username", UsernameOf(normalized)),
                         Alert("Login successful!"),
                         Navigate("/HomePage", NoState)];
    } else if reply.Rejected? && reply.httpStatus == 403 && reply.needsVerification {
      assert effects == [Post("/login", normalized), Confirm(VerifyPrompt)];
    } else {
      assert effects == [Post("/login", normalized)];
    }
  }
}
