/** What the session code does to the browser, seen from outside: the
    `localStorage` entries (each held as the JSON value written there, so that
    `JSON.parse(localStorage.getItem(k))` gives it back), the toasts shown or
    dismissed, and the paths navigated to, in order. */
module Browser {
  import opened Wrappers
  import opened JsValue

  /** One call into the toast library. */
  datatype Toast =
    | Warn(message: string, toastId: Option<string>)
    | Error(message: string)
    | Dismiss(id: string)

  const TenMinuteWarningId := "10-minute-session-expiration-warning"
  const FiveMinuteWarningId := "5-minute-session-expiration-warning"

  /** `dismissSessionExpirationWarnings()`: both countdown warnings are closed. */
  const SessionWarningDismissals := [Dismiss(TenMinuteWarningId), Dismiss(FiveMinuteWarningId)]

  class Window {
    var localStorage: map<string, Value>
    var toasts: seq<Toast>
    var navigations: seq<string>

    constructor (stored: map<string, Value>)
      ensures localStorage == stored && toasts == [] && navigations == []
    {
      localStorage := stored;
      toasts := [];
      navigations := [];
    }
  }
}
