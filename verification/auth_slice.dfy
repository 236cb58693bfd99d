/** The authentication slice of the store (app/src/store/slices/authSlice.ts):
    the `AuthState` record and the five actions that rewrite it. Each action
    is a pure function from the state before to the state after. */
module AuthSlice {
  import opened Wrappers
  import opened Users

  datatype AuthStatus = Idle | Pending | Succeeded | Failed

  /** The slice's state. `tokenExpiresAt` of the shared `AuthState` type is
      never written by the slice and is not part of it here. */
  datatype AuthState = AuthState(
    isAuthenticated: bool,
    user: Option<UserProfile>,
    authToken: Option<string>,
    authStatus: AuthStatus,
    authError: Option<string>)

  /** Signed out: no user, no token, no error, status idle. */
  predicate SignedOut(s: AuthState) {
    !s.isAuthenticated && s.user.None? && s.authToken.None? && s.authStatus == Idle && s.authError.None?
  }

  /** The invariant the actions keep: the session counts as authenticated
      exactly when a user profile is held. */
  predicate Consistent(s: AuthState) {
    s.isAuthenticated <==> s.user.Some?
  }

  /** `initialAuthState`. */
  function Initial(): (s: AuthState)
    ensures SignedOut(s) && Consistent(s)
  {
    AuthState(false, None, None, Idle, None)
  }

  /** `authToken || null`: an absent or empty token is stored as null. */
  function TokenOrNull(token: Option<string>): (r: Option<string>)
    ensures r.Some? <==> token.Some? && token.value != ""
    ensures r.Some? ==> r == token
  {
    if token.Some? && token.value != "" then token else None
  }

  /** `loginSuccess(user, authToken?)`. */
  function LoginSuccess(s: AuthState, user: UserProfile, token: Option<string>): (r: AuthState)
    ensures r.isAuthenticated && r.user == Some(user)
    ensures r.authStatus == Succeeded && r.authError.None?
    ensures r.authToken.Some? <==> token.Some? && token.value != ""
    ensures r.authToken.Some? ==> r.authToken == token
    ensures Consistent(r)
  {
    AuthState(true, Some(user), TokenOrNull(token), Succeeded, None)
  }

  /** `logout()`: every field goes back to its initial value. */
  function Logout(s: AuthState): (r: AuthState)
    ensures SignedOut(r) && Consistent(r)
  {
    Initial()
  }

  /** `setAuthStatus(status)`: only the status changes. */
  function SetAuthStatus(s: AuthState, status: AuthStatus): (r: AuthState)
    ensures r.authStatus == status
    ensures r.isAuthenticated == s.isAuthenticated && r.user == s.user
    ensures r.authToken == s.authToken && r.authError == s.authError
  {
    s.(authStatus := status)
  }

  /** `setAuthError(error)`: the error is stored as given; a non-empty
      message (a truthy string) also marks the status failed, while `null`
      and `''` leave the status alone. */
  function SetAuthError(s: AuthState, error: Option<string>): (r: AuthState)
    ensures r.authError == error
    ensures error.Some? && error.value != "" ==> r.authStatus == Failed
    ensures error.None? || error.value == "" ==> r.authStatus == s.authStatus
    ensures r.isAuthenticated == s.isAuthenticated && r.user == s.user && r.authToken == s.authToken
  {
    var s' := s.(authError := error);
    if error.Some? && error.value != "" then s'.(authStatus := Failed) else s'
  }

  /** `updateUserProfile(updates)`: without a user nothing happens; with one,
      the update is spread over it and no other field changes. */
  function UpdateUserProfile(s: AuthState, updates: ProfileUpdate): (r: AuthState)
    ensures s.user.None? ==> r == s
    ensures s.user.Some? ==> r.user == Some(Merge(s.user.value, updates))
    ensures r.isAuthenticated == s.isAuthenticated && r.authToken == s.authToken
    ensures r.authStatus == s.authStatus && r.authError == s.authError
  {
    if s.user.Some? then s.(user := Some(Merge(s.user.value, updates))) else s
  }

  // ---------------------------------------------------------------------------
  // Runs of actions

  datatype Action =
    | LoginSuccessAction(user: UserProfile, token: Option<string>)
    | LogoutAction
    | SetAuthStatusAction(status: AuthStatus)
    | SetAuthErrorAction(error: Option<string>)
    | UpdateUserProfileAction(updates: ProfileUpdate)

  function Step(s: AuthState, a: Action): AuthState {
    match a
    case LoginSuccessAction(u, t) => LoginSuccess(s, u, t)
    case LogoutAction => Logout(s)
    case SetAuthStatusAction(st) => SetAuthStatus(s, st)
    case SetAuthErrorAction(e) => SetAuthError(s, e)
    case UpdateUserProfileAction(p) => UpdateUserProfile(s, p)
  }

  function Run(s: AuthState, actions: seq<Action>): AuthState
    decreases |actions|
  {
    if |actions| == 0 then s else Run(Step(s, actions[0]), actions[1..])
  }

  /** Every action keeps "authenticated exactly when a user is held". */
  lemma StepConsistent(s: AuthState, a: Action)
    requires Consistent(s)
    ensures Consistent(Step(s, a))
  {
  }

  /** Every state reachable from the initial state is consistent. */
  lemma {:induction false} RunConsistent(s: AuthState, actions: seq<Action>)
    requires Consistent(s)
    ensures Consistent(Run(s, actions))
    decreases |actions|
  {
    if |actions| > 0 {
      StepConsistent(s, actions[0]);
      RunConsistent(Step(s, actions[0]), actions[1..]);
    }
  }

  lemma ReachableConsistent(actions: seq<Action>)
    ensures Consistent(Run(Initial(), actions))
  {
    RunConsistent(Initial(), actions);
  }

  /** `logout` forgets everything, whatever came before, and doing it twice
      is doing it once. */
  lemma LogoutResets(s: AuthState, t: AuthState)
    ensures Logout(s) == Logout(t) == Initial()
    ensures Logout(Logout(s)) == Logout(s)
  {
  }

  /** A run that ends with `logout` ends signed out, whatever it did before. */
  lemma {:induction false} RunEndingInLogout(s: AuthState, actions: seq<Action>)
    ensures SignedOut(Run(s, actions + [LogoutAction]))
    decreases |actions|
  {
    if |actions| > 0 {
      assert (actions + [LogoutAction])[1..] == actions[1..] + [LogoutAction];
      RunEndingInLogout(Step(s, actions[0]), actions[1..]);
    } else {
      assert actions + [LogoutAction] == [LogoutAction];
    }
  }

  /** Authentication does not imply a token: logging in without one (or with
      an empty one) gives an authenticated state with a null token. */
  lemma AuthenticatedWithoutToken(s: AuthState, user: UserProfile)
    ensures LoginSuccess(s, user, None).isAuthenticated
    ensures LoginSuccess(s, user, None).authToken.None?
    ensures LoginSuccess(s, user, Some("")).authToken.None?
  {
  }

  /** The status can be failed with no error recorded, and an error can be
      cleared without leaving the failed status. */
  lemma FailedWithoutError(s: AuthState)
    ensures SetAuthStatus(s, Failed).authStatus == Failed
    ensures SetAuthError(SetAuthError(s, Some("boom")), None).authStatus == Failed
    ensures SetAuthError(SetAuthError(s, Some("boom")), None).authError.None?
  {
  }
}
