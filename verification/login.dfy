/**
  The password recovery screens. Each checks its input, opens a popup in
  the "success" or "error" style, and moves on to the next screen when a
  successful popup is dismissed: ForgotPassword -> CodeVerification ->
  ResetPassword -> Login.
 */
module Login {
  import opened Common
  import opened Text

  /** The popup style, `alertType`. */
  datatype Outcome = Succeeded | Failed

  /** Pressing "OK" closes the popup and navigates to `next` only after a success. */
  function Dismiss(outcome: Outcome, next: Route): (r: Option<Route>)
    ensures r.Some? <==> outcome == Succeeded
    ensures r.Some? ==> r.value == next
  {
    if outcome == Succeeded then Some(next) else None
  }

  // Forgot password

  /** `handleSendLink`: any address with a non-blank character is accepted;
      there is no format check. */
  function SendLink(email: string): (r: Outcome)
    ensures r == Succeeded <==> exists i :: 0 <= i < |email| && !IsWhite(email[i])
  {
    TrimShape(email);
    if Trim(email) == "" then Failed else Succeeded
  }

  /** The popup's title and text for the outcome of `handleSendLink`. */
  function SendLinkPopup(outcome: Outcome): (p: (string, string))
    ensures outcome == Succeeded <==> p == ("Lien envoyé", "Un lien de réinitialisation a été envoyé à votre adresse e-mail.")
    ensures outcome == Failed <==> p == ("Erreur", "Veuillez entrer votre adresse e-mail.")
  {
    match outcome
    case Succeeded => ("Lien envoyé", "Un lien de réinitialisation a été envoyé à votre adresse e-mail.")
    case Failed => ("Erreur", "Veuillez entrer votre adresse e-mail.")
  }

  const AfterSendLink := CodeVerificationRoute

  /** White space around the address never changes the outcome. */
  lemma SendLinkIgnoresPadding(a: string, email: string, b: string)
    requires AllWhite(a) && AllWhite(b)
    ensures SendLink(a + email + b) == SendLink(email)
  {
    TrimIgnoresPadding(a, email, b);
  }

  // Code verification

  /** The input keeps at most this many UTF-16 code units (`maxLength`). */
  const CodeMaxLength := 6

  /** What the code field holds after the user types `typed`: the longest
      prefix that fits in six code units. */
  function CapCode(typed: string): (r: string)
    ensures Utf16Length(r) <= CodeMaxLength
    ensures |r| <= |typed| && r == typed[..|r|]
    ensures |r| < |typed| ==> Utf16Length(typed[..|r| + 1]) > CodeMaxLength
    ensures Utf16Length(typed) <= CodeMaxLength ==> r == typed
  {
    TakeUnits(typed, CodeMaxLength)
  }

  /** `handleVerify`: a `length` of at least four code units once trimmed.
      The code is not compared with anything and need not be made of digits. */
  function Verify(code: string): (r: Outcome)
    ensures r == Succeeded <==> Utf16Length(Trim(code)) >= 4
  {
    if Utf16Length(Trim(code)) < 4 then Failed else Succeeded
  }

  /** The popup's title and text for the outcome of `handleVerify`. */
  function VerifyPopup(outcome: Outcome): (p: (string, string))
    ensures outcome == Succeeded <==> p == ("Succès", "Code vérifié avec succès.")
    ensures outcome == Failed <==> p == ("Erreur", "Veuillez entrer un code valide.")
  {
    match outcome
    case Succeeded => ("Succès", "Code vérifié avec succès.")
    case Failed => ("Erreur", "Veuillez entrer un code valide.")
  }

  const AfterVerify := ResetPasswordRoute

  /** White space around the code never changes the outcome. */
  lemma VerifyIgnoresPadding(a: string, code: string, b: string)
    requires AllWhite(a) && AllWhite(b)
    ensures Verify(a + code + b) == Verify(code)
  {
    TrimIgnoresPadding(a, code, b);
  }

  /** A code typed into the field and accepted has between 4 and 6 code
      units once trimmed. */
  lemma AcceptedCodeLength(typed: string)
    requires Verify(CapCode(typed)) == Succeeded
    ensures 4 <= Utf16Length(Trim(CapCode(typed))) <= CodeMaxLength
  {
    TrimUtf16Length(CapCode(typed));
  }

  /** A code that starts and ends with a visible character passes exactly
      when its `length` is at least four. */
  lemma VisibleCodeLength(code: string)
    requires code != [] && !IsWhite(code[0]) && !IsWhite(code[|code| - 1])
    ensures Verify(code) == Succeeded <==> Utf16Length(code) >= 4
  {
    TrimVisibleEnds(code);
  }

  /** Letters are as good as digits. */
  lemma LettersAccepted()
    ensures Verify("abcd") == Succeeded
  {
    var code := "abcd";
    assert !IsWhite(code[0]) && !IsWhite(code[3]);
    VisibleCodeLength(code);
  }

  /** Two emoji fill four code units, so they pass as a code. */
  lemma TwoEmojiCodeAccepted()
    ensures Verify("\U{1F600}\U{1F600}") == Succeeded
  {
    var code := "\U{1F600}\U{1F600}";
    assert !IsWhite(code[0]) && !IsWhite(code[1]);
    VisibleCodeLength(code);
    assert code[1..][1..] == [];
  }

  // Reset password

  /** `handleReset`: both fields filled in and identical; nothing is trimmed. */
  function Reset(password: string, confirm: string): (r: Outcome)
    ensures r == Succeeded <==> password != "" && password == confirm
    ensures password == "" || confirm == "" ==> r == Failed
    ensures password != confirm ==> r == Failed
  {
    if password == "" || confirm == "" then Failed
    else if password != confirm then Failed
    else Succeeded
  }

  /** The popup text, chosen when the popup is drawn from the outcome and the
      two fields as they are. */
  function ResetMessage(outcome: Outcome, password: string, confirm: string): (m: string)
    ensures outcome == Succeeded <==> m == "Votre mot de passe a été réinitialisé avec succès."
    ensures m == "Les mots de passe ne correspondent pas." <==> outcome == Failed && password != confirm
    ensures m == "Veuillez remplir tous les champs." <==> outcome == Failed && password == confirm
  {
    match outcome
    case Succeeded => "Votre mot de passe a été réinitialisé avec succès."
    case Failed =>
      if password != confirm then "Les mots de passe ne correspondent pas."
      else "Veuillez remplir tous les champs."
  }

  const AfterReset := LoginRoute

  /** After `handleReset`, the mismatch text shows whenever the fields differ,
      one of them empty included; "remplir tous les champs" only when both
      are empty. */
  lemma ResetMessages(password: string, confirm: string)
    ensures var m := ResetMessage(Reset(password, confirm), password, confirm);
      && (m == "Les mots de passe ne correspondent pas." <==> password != confirm)
      && (m == "Veuillez remplir tous les champs." <==> password == "" && confirm == "")
      && (m == "Votre mot de passe a été réinitialisé avec succès." <==> password != "" && password == confirm)
  {
  }

  /** Each screen's popup leads on, once dismissed, exactly when its check
      passed: to the code screen, to the reset screen, then back to Login. */
  lemma RecoveryRoutes(email: string, code: string, password: string, confirm: string)
    ensures Dismiss(SendLink(email), AfterSendLink) == Some(CodeVerificationRoute) <==> SendLink(email) == Succeeded
    ensures Dismiss(Verify(code), AfterVerify) == Some(ResetPasswordRoute) <==> Verify(code) == Succeeded
    ensures Dismiss(Reset(password, confirm), AfterReset) == Some(LoginRoute) <==> Reset(password, confirm) == Succeeded
  {
  }

  /** Two identical blank passwords are accepted. */
  lemma BlankPasswordsAccepted()
    ensures Reset("  ", "  ") == Succeeded
    ensures Dismiss(Reset("  ", "  "), AfterReset) == Some(LoginRoute)
  {
  }
}
