/** The `UserPrivate` route guard: what it renders for the session state
    held by `AuthProvider`, and when its effect sends the visitor to the
    login page. */
module UserPrivate {
  import opened Browser
  import opened Auth

  /** The three things the guard can render. */
  datatype View = LoadingView | ChildrenView | NothingView

  /** The render: the loading screen while verifying, the children once
      logged in, nothing otherwise. */
  function GuardView(userIsLoggedIn: bool, isVerifyingUserLogin: bool): (view: View)
    ensures view == LoadingView <==> isVerifyingUserLogin
    ensures view == ChildrenView <==> userIsLoggedIn && !isVerifyingUserLogin
    ensures view == NothingView <==> !userIsLoggedIn && !isVerifyingUserLogin
  {
    if isVerifyingUserLogin then LoadingView
    else if userIsLoggedIn && !isVerifyingUserLogin then ChildrenView
    else NothingView
  }

  /** The condition of the guard's effect. */
  predicate RedirectsToLogin(userIsLoggedIn: bool, isVerifyingUserLogin: bool, isGettingFingerprint: bool) {
    !userIsLoggedIn && !isVerifyingUserLogin && !isGettingFingerprint
  }

  /** A redirect happens only while the guard renders nothing, and the guard
      renders nothing without redirecting only while the fingerprint is
      still being computed. */
  lemma RedirectMatchesView(userIsLoggedIn: bool, isVerifyingUserLogin: bool, isGettingFingerprint: bool)
    ensures RedirectsToLogin(userIsLoggedIn, isVerifyingUserLogin, isGettingFingerprint) <==>
      GuardView(userIsLoggedIn, isVerifyingUserLogin) == NothingView && !isGettingFingerprint
  {
  }

  /** The effect on the login and verifying flags, reading the provider's
      current state. */
  method OnLoginStateChanged(auth: AuthProvider)
    modifies auth.window
    ensures auth.window.navigations == old(auth.window.navigations) +
      (if RedirectsToLogin(auth.userIsLoggedIn, auth.isVerifyingUserLogin, auth.isGettingFingerprint) then ["/login"] else [])
    ensures auth.window.localStorage == old(auth.window.localStorage) && auth.window.toasts == old(auth.window.toasts)
  {
    if !auth.userIsLoggedIn && !auth.isVerifyingUserLogin && !auth.isGettingFingerprint {
      auth.window.navigations := auth.window.navigations + ["/login"];
    }
  }
}
