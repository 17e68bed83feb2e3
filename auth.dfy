/** The session handling of `AuthProvider`: logging in, verifying a stored
    token, the logout on an expired token, the per-resource permission
    check and the effects that tie them to the global state. Each network
    reply is an input value; each asynchronous callback is one step. */
module Auth {
  import opened Wrappers
  import opened JsText
  import opened JsValue
  import opened Browser
  import opened GlobalData

  const TokenKey := "userAuthToken"
  const ExpiredPhrase := "token has expired"
  const NotActivePhrase := "user is not active"
  const SessionExpiredMessage := "Tempo de sessão expirado!"
  const LoginExpiredToastId := "login-expired-toast"
  const NotActiveMessage := "Este usuário não está ativo!"
  const FetchErrorMessage := "Erro ao buscar os dados!"

  /** The reply to `userLoginPhp`: the parsed `{success, token}`, or a failed
      request or unreadable body. */
  datatype LoginResponse = LoginResult(success: Value, token: Value) | LoginFailure

  /** The reply to `verifyUserLogin.php`. */
  datatype VerifyResponse =
    | VerifyResult(success: Value, userId: Value, message: Option<string>, remainingTime: Option<int>)
    | VerifyFailure

  /** The reply to `hasResourcePermission.php` for one resource. */
  datatype PermissionResponse = PermissionResult(success: Value) | PermissionFailure

  predicate LoginSucceeds(response: LoginResponse) {
    response.LoginResult? && Truthy(response.success) && Truthy(response.token)
  }

  /** `!!(success && user_id)`. */
  predicate VerifiedLogin(response: VerifyResponse) {
    response.VerifyResult? && Truthy(response.success) && Truthy(response.userId)
  }

  /** `message ? message.toLowerCase() : ''`, lower-casing ASCII letters. */
  function LowerMessage(message: Option<string>): string {
    if message.Some? && message.value != [] then ToLowerAscii(message.value) else ""
  }

  predicate TokenExpired(message: Option<string>) {
    Contains(LowerMessage(message), ExpiredPhrase)
  }

  predicate UserNotActive(message: Option<string>) {
    Contains(LowerMessage(message), NotActivePhrase)
  }

  /** The expiry check ignores case: a message holding "token has expired" in
      any mix of upper and lower case counts as expired. */
  lemma ExpiredMessageIgnoresCase(message: string, i: nat)
    requires i + |ExpiredPhrase| <= |message|
    requires ToLowerAscii(message[i..i + |ExpiredPhrase|]) == ExpiredPhrase
    ensures TokenExpired(Some(message))
  {
    var lower := ToLowerAscii(message);
    var window := message[i..i + |ExpiredPhrase|];
    assert lower[i..i + |ExpiredPhrase|] == ToLowerAscii(window) by {
      forall k | 0 <= k < |ExpiredPhrase|
        ensures lower[i..i + |ExpiredPhrase|][k] == ToLowerAscii(window)[k]
      {
        assert window[k] == message[i + k];
      }
    }
    assert OccursAt(lower, ExpiredPhrase, i);
  }

  /** `!!result.success` for a resource, and false when the request failed. */
  predicate Granted(response: PermissionResponse) {
    response.PermissionResult? && Truthy(response.success)
  }

  /** The `permissions` record after the first `|names|` checks: later checks
      of a name overwrite earlier ones. */
  function Permissions(names: seq<string>, responses: seq<PermissionResponse>): map<string, bool>
    requires |names| == |responses|
    decreases |names|
  {
    if names == [] then map[]
    else Permissions(names[..|names| - 1], responses[..|names| - 1])[names[|names| - 1] := Granted(responses[|names| - 1])]
  }

  /** The record has exactly the requested names as keys, and each holds the
      verdict of the last check of that name. */
  lemma {:induction false} PermissionsLaws(names: seq<string>, responses: seq<PermissionResponse>)
    requires |names| == |responses|
    ensures Permissions(names, responses).Keys == set name | name in names
    ensures forall i :: 0 <= i < |names| && names[i] !in names[i + 1..] ==>
      Permissions(names, responses)[names[i]] == Granted(responses[i])
    decreases |names|
  {
    if names != [] {
      var n := |names| - 1;
      var init, initResponses := names[..n], responses[..n];
      PermissionsLaws(init, initResponses);
      assert names == init + [names[n]];
      forall i | 0 <= i < |names| && names[i] !in names[i + 1..]
        ensures Permissions(names, responses)[names[i]] == Granted(responses[i])
      {
        if i < n {
          assert names[n] == names[i + 1..][n - i - 1];
          assert init[i + 1..] == names[i + 1..n];
          assert init[i] == names[i] && initResponses[i] == responses[i];
        }
      }
    }
  }

  /** A caller's `setIsCheckingResources`, as the list of values it was given. */
  class FlagSetter {
    var writes: seq<bool>

    constructor ()
      ensures writes == []
    {
      writes := [];
    }
  }

  class AuthProvider {
    var loadingCount: int
    var userIsLoggedIn: bool
    var isVerifyingUserLogin: bool
    var userAuthToken: Value
    var isGettingFingerprint: bool
    const global: GlobalState
    const window: Window

    /** The initial state: no token, not logged in, not verifying, waiting
        for the fingerprint. */
    constructor (global: GlobalState, window: Window)
      ensures this.global == global && this.window == window
      ensures loadingCount == 0 && !userIsLoggedIn && !isVerifyingUserLogin
      ensures userAuthToken == Null && isGettingFingerprint
    {
      this.global := global;
      this.window := window;
      loadingCount := 0;
      userIsLoggedIn := false;
      isVerifyingUserLogin := false;
      userAuthToken := Null;
      isGettingFingerprint := true;
    }

    /** The children render only when the page is loaded and the fingerprint known. */
    predicate ShowsLoading()
      reads this, global
    {
      global.pageLoading || isGettingFingerprint
    }

    /** The synchronous start of `getUserAuthToken` and of `verifyUserLogin`. */
    method BeginVerifying()
      modifies this
      ensures isVerifyingUserLogin
      ensures userIsLoggedIn == old(userIsLoggedIn) && userAuthToken == old(userAuthToken)
      ensures loadingCount == old(loadingCount) && isGettingFingerprint == old(isGettingFingerprint)
    {
      isVerifyingUserLogin := true;
    }

    /** The settling of `getUserAuthToken`: a successful reply with a token
        stores the token in memory and in `localStorage` and resolves true;
        anything else resolves false and stores nothing; either way the
        verifying flag is cleared. */
    method SettleLogin(response: LoginResponse) returns (ok: bool)
      modifies this, window
      ensures ok <==> LoginSucceeds(response)
      ensures ok ==> userAuthToken == response.token && window.localStorage == old(window.localStorage)[TokenKey := response.token]
      ensures !ok ==> userAuthToken == old(userAuthToken) && window.localStorage == old(window.localStorage)
      ensures !isVerifyingUserLogin
      ensures userIsLoggedIn == old(userIsLoggedIn) && loadingCount == old(loadingCount)
      ensures isGettingFingerprint == old(isGettingFingerprint)
      ensures window.toasts == old(window.toasts) && window.navigations == old(window.navigations)
    {
      ok := false;
      if response.LoginResult? {
        if Truthy(response.success) && Truthy(response.token) {
          userAuthToken := response.token;
          window.localStorage := window.localStorage[TokenKey := response.token];
          ok := true;
        }
      }
      isVerifyingUserLogin := false;
    }

    /** `logoutUserWithExpiredLoginMessage`. */
    method LogoutUserWithExpiredLoginMessage()
      modifies this, window
      ensures window.toasts == old(window.toasts) + [Warn(SessionExpiredMessage, Some(LoginExpiredToastId))]
      ensures window.localStorage == old(window.localStorage) - {TokenKey}
      ensures userAuthToken == Null && !userIsLoggedIn
      ensures isVerifyingUserLogin == old(isVerifyingUserLogin) && loadingCount == old(loadingCount)
      ensures isGettingFingerprint == old(isGettingFingerprint) && window.navigations == old(window.navigations)
    {
      window.toasts := window.toasts + [Warn(SessionExpiredMessage, Some(LoginExpiredToastId))];
      window.localStorage := window.localStorage - {TokenKey};
      userAuthToken := Null;
      userIsLoggedIn := false;
    }

    /** The settling of `verifyUserLogin`. The login time is set whatever the
        verdict; an expired token logs out and an inactive user loses the
        stored token; the logged-in flag is then set from `success && user_id`
        even after a logout in the same reply; the expiry flag is cleared only
        on a verified login. A failed request shows an error and leaves the
        session as it was. The verifying flag is cleared on both paths. */
    method SettleVerify(response: VerifyResponse) returns (isLoggedIn: bool)
      modifies this, window, global
      ensures VerifySettled(response, isLoggedIn)
      ensures loadingCount == old(loadingCount) && window.navigations == old(window.navigations)
    {
      if response.VerifyFailure? {
        window.toasts := window.toasts + [Error(FetchErrorMessage)];
        isVerifyingUserLogin := false;
        return false;
      }
      global.userLoginTime := if response.remainingTime.Some? && response.remainingTime.value != 0
        then response.remainingTime.value else 0;
      var resultMessage := LowerMessage(response.message);
      if Contains(resultMessage, ExpiredPhrase) {
        LogoutUserWithExpiredLoginMessage();
      } else if Contains(resultMessage, NotActivePhrase) {
        window.toasts := window.toasts + [Error(NotActiveMessage)];
        window.localStorage := window.localStorage - {TokenKey};
      }
      isLoggedIn := Truthy(response.success) && Truthy(response.userId);
      if isLoggedIn {
        global.tokenHasExpired := false;
      }
      userIsLoggedIn := isLoggedIn;
      isVerifyingUserLogin := false;
    }

    /** The session state the settling of `verifyUserLogin` leaves, apart from
        the loading count and the navigation log. */
    twostate predicate VerifySettled(response: VerifyResponse, isLoggedIn: bool)
      reads this, window, global
    {
      && isLoggedIn == VerifiedLogin(response)
      && !isVerifyingUserLogin
      && (response.VerifyFailure? ==>
        && userIsLoggedIn == old(userIsLoggedIn) && userAuthToken == old(userAuthToken)
        && global.userLoginTime == old(global.userLoginTime) && global.tokenHasExpired == old(global.tokenHasExpired)
        && window.localStorage == old(window.localStorage)
        && window.toasts == old(window.toasts) + [Error(FetchErrorMessage)])
      && (response.VerifyResult? ==>
        && userIsLoggedIn == isLoggedIn
        && global.userLoginTime == response.remainingTime.GetOr(0)
        && global.tokenHasExpired == (if isLoggedIn then false else old(global.tokenHasExpired)))
      && (response.VerifyResult? && TokenExpired(response.message) ==>
        && userAuthToken == Null && window.localStorage == old(window.localStorage) - {TokenKey}
        && window.toasts == old(window.toasts) + [Warn(SessionExpiredMessage, Some(LoginExpiredToastId))])
      && (response.VerifyResult? && !TokenExpired(response.message) && UserNotActive(response.message) ==>
        && userAuthToken == old(userAuthToken) && window.localStorage == old(window.localStorage) - {TokenKey}
        && window.toasts == old(window.toasts) + [Error(NotActiveMessage)])
      && (response.VerifyResult? && !TokenExpired(response.message) && !UserNotActive(response.message) ==>
        && userAuthToken == old(userAuthToken) && window.localStorage == old(window.localStorage)
        && window.toasts == old(window.toasts))
      && isGettingFingerprint == old(isGettingFingerprint)
      && global.pageLoading == old(global.pageLoading) && global.activeLinkUrl == old(global.activeLinkUrl)
      && global.lastVisitedPages == old(global.lastVisitedPages) && global.userLoginData == old(global.userLoginData)
    }

    /** `checkResourcesPermission`: one check per name in order, each
        recording whether the reply's `success` was truthy, false when the
        request failed; the caller's flag is raised first and lowered last. */
    method CheckResourcesPermission(resourceNames: seq<string>, responses: seq<PermissionResponse>,
                                    setIsCheckingResources: FlagSetter)
      returns (permissions: map<string, bool>)
      requires |responses| == |resourceNames|
      modifies setIsCheckingResources
      ensures permissions == Permissions(resourceNames, responses)
      ensures setIsCheckingResources.writes == old(setIsCheckingResources.writes) + [true, false]
    {
      setIsCheckingResources.writes := setIsCheckingResources.writes + [true];
      permissions := map[];
      for k := 0 to |resourceNames|
        invariant permissions == Permissions(resourceNames[..k], responses[..k])
      {
        assert resourceNames[..k + 1][..k] == resourceNames[..k];
        assert responses[..k + 1][..k] == responses[..k];
        var resourceName := resourceNames[k];
        match responses[k] {
          case PermissionResult(success) => permissions := permissions[resourceName := Truthy(success)];
          case PermissionFailure => permissions := permissions[resourceName := false];
        }
      }
      assert resourceNames[..|resourceNames|] == resourceNames;
      assert responses[..|responses|] == responses;
      setIsCheckingResources.writes := setIsCheckingResources.writes + [false];
    }

    /** Whether the stored-token effect starts a verification. */
    predicate StartsVerification(fingerprint: string)
      reads this, window
    {
      TokenKey in window.localStorage && fingerprint != ""
    }

    /** The effect on `[userAuthToken, fingerprint]`: a stored token and a
        fingerprint start a verification (the token read back, the loading
        count raised, the verifying flag set); otherwise the session is
        logged out and its time cleared, and with neither a stored token nor
        a fingerprint the verifying flag is cleared. */
    method OnTokenOrFingerprintChanged(fingerprint: string)
      modifies this, global
      ensures StartsVerification(fingerprint) ==>
        && userAuthToken == window.localStorage[TokenKey] && loadingCount == old(loadingCount) + 1
        && isVerifyingUserLogin && userIsLoggedIn == old(userIsLoggedIn)
        && global.userLoginTime == old(global.userLoginTime)
      ensures !StartsVerification(fingerprint) ==>
        && !userIsLoggedIn && global.userLoginTime == 0
        && userAuthToken == old(userAuthToken) && loadingCount == old(loadingCount)
        && isVerifyingUserLogin == (if TokenKey !in window.localStorage && fingerprint == "" then false else old(isVerifyingUserLogin))
      ensures isGettingFingerprint == old(isGettingFingerprint)
      ensures global.pageLoading == old(global.pageLoading) && global.tokenHasExpired == old(global.tokenHasExpired)
      ensures global.activeLinkUrl == old(global.activeLinkUrl) && global.lastVisitedPages == old(global.lastVisitedPages)
      ensures global.userLoginData == old(global.userLoginData)
    {
      var stored := TokenKey in window.localStorage;
      if stored && fingerprint != "" {
        userAuthToken := window.localStorage[TokenKey];
        loadingCount := loadingCount + 1;
        BeginVerifying();
      } else {
        userIsLoggedIn := false;
        global.userLoginTime := 0;
      }
      if !stored && fingerprint == "" {
        isVerifyingUserLogin := false;
      }
    }

    /** The verification started by the stored-token effect: the reply
        settles as in `SettleVerify`, then its `finally` drops the loading
        count back and sends a visitor on the login page to "/usuario". */
    method SettleStoredTokenVerification(response: VerifyResponse, pathname: string) returns (isLoggedIn: bool)
      modifies this, window, global
      ensures VerifySettled(response, isLoggedIn)
      ensures loadingCount == old(loadingCount) - 1
      ensures window.navigations == old(window.navigations) + (if pathname == "/login" then ["/usuario"] else [])
    {
      isLoggedIn := SettleVerify(response);
      loadingCount := loadingCount - 1;
      if pathname == "/login" {
        window.navigations := window.navigations + ["/usuario"];
      }
    }

    /** Whether the expiry effect logs out: the token expired, the page is
        loaded, and there is a token or a logged-in user. */
    predicate ExpiryLogoutDue()
      reads this, global
    {
      global.tokenHasExpired && !global.pageLoading && (Truthy(userAuthToken) || userIsLoggedIn)
    }

    /** The effect on `tokenHasExpired`: when due, the expired-logout runs and
        both countdown warnings are dismissed; otherwise nothing happens. */
    method OnTokenHasExpiredChanged()
      modifies this, window
      ensures old(ExpiryLogoutDue()) ==>
        && userAuthToken == Null && !userIsLoggedIn
        && window.localStorage == old(window.localStorage) - {TokenKey}
        && window.toasts == old(window.toasts) + [Warn(SessionExpiredMessage, Some(LoginExpiredToastId))] + SessionWarningDismissals
      ensures !old(ExpiryLogoutDue()) ==> unchanged(this) && unchanged(window)
      ensures isVerifyingUserLogin == old(isVerifyingUserLogin) && loadingCount == old(loadingCount)
      ensures isGettingFingerprint == old(isGettingFingerprint) && window.navigations == old(window.navigations)
    {
      if global.tokenHasExpired && !global.pageLoading && (Truthy(userAuthToken) || userIsLoggedIn) {
        LogoutUserWithExpiredLoginMessage();
        window.toasts := window.toasts + SessionWarningDismissals;
      }
    }

    /** The effect on `loadingCount`: the page stops loading once no
        verification is pending. */
    method OnLoadingCountChanged()
      modifies global
      ensures global.pageLoading == (old(global.pageLoading) && loadingCount != 0)
      ensures global.tokenHasExpired == old(global.tokenHasExpired) && global.userLoginTime == old(global.userLoginTime)
      ensures global.activeLinkUrl == old(global.activeLinkUrl) && global.lastVisitedPages == old(global.lastVisitedPages)
      ensures global.userLoginData == old(global.userLoginData)
    {
      if loadingCount == 0 {
        global.pageLoading := false;
      }
    }

    /** The effect on `fingerprint`: once it is known, the provider stops waiting for it. */
    method OnFingerprintChanged(fingerprint: string)
      modifies this
      ensures isGettingFingerprint == (old(isGettingFingerprint) && fingerprint == "")
      ensures userIsLoggedIn == old(userIsLoggedIn) && isVerifyingUserLogin == old(isVerifyingUserLogin)
      ensures userAuthToken == old(userAuthToken) && loadingCount == old(loadingCount)
    {
      if fingerprint != "" {
        isGettingFingerprint := false;
      }
    }
  }
}
