/**
  Shared vocabulary of the screens: optional values, the alert popups the
  handlers raise, and the navigation targets they can request.
 */
module Common {

  datatype Option<+T> = None | Some(value: T)

  /** The four alert flavours of the request form; other screens use a subset. */
  datatype AlertKind = Success | Error | Warning | Info

  /** An alert as the handler raises it: its flavour and its text. */
  datatype Alert = Alert(kind: AlertKind, message: string)

  /** Screens a handler can navigate to. */
  datatype Route = LoginRoute | CodeVerificationRoute | ResetPasswordRoute
}
