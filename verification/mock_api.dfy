/** The mock backend (app/src/services/api/mockApiClient.ts): two module
    variables, the current user and the current token, and four calls that
    read and write them and answer with the `ApiResponse` union of
    app/src/types/api.ts. Each call is one atomic step; the simulated delay
    is not modelled. The clock is a parameter: `nowMs` stands for
    `Date.now()` and `iso` for `Date.prototype.toISOString`. */
module MockApi {
  import opened Wrappers
  import opened Strings
  import opened Users
  import AuthSlice

  /** `ApiSuccessResponse<T> | ApiErrorResponse`, with the status code the
      mock always sets. */
  datatype ApiResponse<T> =
    | ApiSuccess(data: T, statusCode: int)
    | ApiError(errorCode: string, errorMessage: string, statusCode: int)

  /** The module state `mockUser` / `mockAuthToken`. */
  datatype Backend = Backend(user: Option<UserProfile>, token: Option<string>)

  /** The state after the call and the call's answer. */
  datatype Outcome<T> = Outcome(backend: Backend, response: ApiResponse<T>)

  /** The `AuthState` a successful login answers with. */
  datatype LoginData = LoginData(
    isAuthenticated: bool,
    user: UserProfile,
    authToken: string,
    tokenExpiresAt: string,
    authStatus: AuthSlice.AuthStatus)

  const ValidEmail: string := "user@example.com"
  const ValidPassword: string := "password"
  const MockToken: string := "mock-auth-token-string"
  const ExistingEmail: string := "existing@example.com"
  const DefaultFullName: string := "New User"
  /** One hour, in milliseconds. */
  const TokenLifetimeMs: nat := 3600 * 1000

  const InvalidCredentials: string := "INVALID_CREDENTIALS"
  const EmailExists: string := "EMAIL_EXISTS"
  const Unauthenticated: string := "UNAUTHENTICATED"

  /** The module state at load: no user, no token. */
  const Empty: Backend := Backend(None, None)

  /** The fixed profile a successful login installs. */
  function LoginUser(nowIso: string): UserProfile {
    UserProfile(IdText("user-123"), ValidEmail, Some("Test User"), Some("TestUser"),
      Some("https://via.placeholder.com/150"), [Editor], true, nowIso, nowIso, None, true)
  }

  /** `login(credentials)`. */
  function Login(b: Backend, email: string, password: string, nowMs: nat, iso: nat -> string)
    : (o: Outcome<LoginData>)
    ensures email == ValidEmail && password == ValidPassword ==>
      && o.response.ApiSuccess? && o.response.statusCode == 200
      && o.response.data.isAuthenticated
      && o.response.data.user.email == email
      && o.response.data.authToken == MockToken
      && o.response.data.authStatus == AuthSlice.Succeeded
      && o.response.data.tokenExpiresAt == iso(nowMs + TokenLifetimeMs)
      && o.response.data.user.createdAt == iso(nowMs)
      && o.response.data.user.lastUpdatedAt == iso(nowMs)
      && o.backend == Backend(Some(o.response.data.user), Some(MockToken))
    ensures !(email == ValidEmail && password == ValidPassword) ==>
      o == Outcome(b, ApiError(InvalidCredentials, "Invalid email or password.", 401))
  {
    if email == ValidEmail && password == ValidPassword then
      var user := LoginUser(iso(nowMs));
      var data := LoginData(true, user, MockToken, iso(nowMs + TokenLifetimeMs), AuthSlice.Succeeded);
      Outcome(Backend(Some(user), Some(MockToken)), ApiSuccess(data, 200))
    else
      Outcome(b, ApiError(InvalidCredentials, "Invalid email or password.", 401))
  }

  /** `logout()`: always succeeds, with null data, and forgets both. */
  function Logout(b: Backend): (o: Outcome<()>)
    ensures o.backend == Empty
    ensures o.response == ApiSuccess((), 200)
  {
    Outcome(Empty, ApiSuccess((), 200))
  }

  /** The profile a registration installs; a missing or empty full name
      becomes the default (`details.fullName || 'New User'`). */
  function RegisteredUser(email: string, fullName: Option<string>, nowMs: nat, nowIso: string)
    : (u: UserProfile)
    ensures u.email == email
    ensures u.fullName == Some(if fullName.Some? && fullName.value != "" then fullName.value else DefaultFullName)
    ensures u.roles == [Viewer] && !u.isEmailVerified && u.isActive
    ensures u.id == IdText("user-" + NatToString(nowMs))
  {
    var name := if fullName.Some? && fullName.value != "" then fullName.value else DefaultFullName;
    UserProfile(IdText("user-" + NatToString(nowMs)), email, Some(name), None, None,
      [Viewer], false, nowIso, nowIso, None, true)
  }

  /** `register(details)`: the one taken address is refused; any other
      address replaces the current user and leaves the token as it was. */
  function Register(b: Backend, email: string, password: string, fullName: Option<string>,
                    nowMs: nat, iso: nat -> string): (o: Outcome<UserProfile>)
    ensures email == ExistingEmail ==>
      o == Outcome(b, ApiError(EmailExists, "An account with this email already exists.", 409))
    ensures email != ExistingEmail ==>
      && o.response.ApiSuccess? && o.response.statusCode == 201
      && o.response.data == RegisteredUser(email, fullName, nowMs, iso(nowMs))
      && o.backend == Backend(Some(o.response.data), b.token)
  {
    if email == ExistingEmail then
      Outcome(b, ApiError(EmailExists, "An account with this email already exists.", 409))
    else
      var user := RegisteredUser(email, fullName, nowMs, iso(nowMs));
      Outcome(b.(user := Some(user)), ApiSuccess(user, 201))
  }

  /** `fetchUserProfile()`: the stored user when both a user and a
      (non-empty) token are held; never changes the state. */
  function FetchUserProfile(b: Backend): (o: Outcome<UserProfile>)
    ensures o.backend == b
    ensures o.response.ApiSuccess? <==> b.user.Some? && b.token.Some? && b.token.value != ""
    ensures o.response.ApiSuccess? ==> o.response == ApiSuccess(b.user.value, 200)
    ensures o.response.ApiError? ==> o.response == ApiError(Unauthenticated, "User is not authenticated.", 401)
  {
    if b.user.Some? && b.token.Some? && b.token.value != "" then Outcome(b, ApiSuccess(b.user.value, 200))
    else Outcome(b, ApiError(Unauthenticated, "User is not authenticated.", 401))
  }

  // ---------------------------------------------------------------------------
  // Sequences of calls

  datatype Call =
    | LoginCall(email: string, password: string, nowMs: nat)
    | LogoutCall
    | RegisterCall(email: string, password: string, fullName: Option<string>, nowMs: nat)
    | FetchCall

  function Apply(b: Backend, c: Call, iso: nat -> string): Backend {
    match c
    case LoginCall(e, p, t) => Login(b, e, p, t, iso).backend
    case LogoutCall => Logout(b).backend
    case RegisterCall(e, p, n, t) => Register(b, e, p, n, t, iso).backend
    case FetchCall => FetchUserProfile(b).backend
  }

  function ApplyAll(b: Backend, calls: seq<Call>, iso: nat -> string): Backend
    decreases |calls|
  {
    if |calls| == 0 then b else ApplyAll(Apply(b, calls[0], iso), calls[1..], iso)
  }

  /** A token is only ever held together with a user, and it is always the
      mock token. */
  predicate WellFormed(b: Backend) {
    b.token.Some? ==> b.user.Some? && b.token.value == MockToken
  }

  lemma ApplyWellFormed(b: Backend, c: Call, iso: nat -> string)
    requires WellFormed(b)
    ensures WellFormed(Apply(b, c, iso))
  {
  }

  /** Every state the mock reaches from module load is well formed. */
  lemma {:induction false} ApplyAllWellFormed(b: Backend, calls: seq<Call>, iso: nat -> string)
    requires WellFormed(b)
    ensures WellFormed(ApplyAll(b, calls, iso))
    decreases |calls|
  {
    if |calls| > 0 {
      ApplyWellFormed(b, calls[0], iso);
      ApplyAllWellFormed(Apply(b, calls[0], iso), calls[1..], iso);
    }
  }

  /** On a well-formed state, fetching succeeds exactly when a token is held. */
  lemma FetchIffToken(b: Backend)
    requires WellFormed(b)
    ensures FetchUserProfile(b).response.ApiSuccess? <==> b.token.Some?
  {
  }

  /** The taken address fails on every attempt, however often it is tried,
      and the state is never touched. */
  lemma {:induction false} RegisterExistingAlwaysFails(b: Backend, n: nat, nowMs: nat, iso: nat -> string)
    ensures ApplyAll(b, seq(n, i => RegisterCall(ExistingEmail, "password", None, nowMs)), iso) == b
    decreases n
  {
    if n > 0 {
      var calls := seq(n, i => RegisterCall(ExistingEmail, "password", None, nowMs));
      assert calls[1..] == seq(n - 1, i => RegisterCall(ExistingEmail, "password", None, nowMs));
      RegisterExistingAlwaysFails(b, n - 1, nowMs, iso);
    }
  }

  /** Logging in and fetching returns the login's profile; logging out
      afterwards makes the next fetch fail. */
  lemma LoginFetchLogout(b: Backend, nowMs: nat, iso: nat -> string)
    ensures var afterLogin := Login(b, ValidEmail, ValidPassword, nowMs, iso).backend;
      && FetchUserProfile(afterLogin).response.ApiSuccess?
      && FetchUserProfile(afterLogin).response.data.email == ValidEmail
      && FetchUserProfile(Logout(afterLogin).backend).response.ApiError?
      && FetchUserProfile(Logout(afterLogin).backend).response.errorCode == Unauthenticated
  {
  }

  /** Registering while logged in keeps the old token, so the next fetch
      succeeds and answers with the newly registered profile. */
  lemma RegisterSwitchesIdentity(b: Backend, email: string, nowMs: nat, later: nat, iso: nat -> string)
    requires email != ExistingEmail
    ensures var loggedIn := Login(b, ValidEmail, ValidPassword, nowMs, iso).backend;
      var registered := Register(loggedIn, email, "pw", None, later, iso).backend;
      && FetchUserProfile(registered).response.ApiSuccess?
      && FetchUserProfile(registered).response.data.email == email
      && FetchUserProfile(registered).response.data.roles == [Viewer]
  {
  }

  /** Registering from a logged-out state stores a profile that cannot be
      fetched: no token is issued. */
  lemma RegisterIssuesNoToken(email: string, nowMs: nat, iso: nat -> string)
    requires email != ExistingEmail
    ensures var b := Register(Empty, email, "pw", None, nowMs, iso).backend;
      b.user.Some? && FetchUserProfile(b).response.ApiError?
  {
  }

  /** A successful login answer, handed to the auth slice's `loginSuccess`,
      gives an authenticated, consistent slice that holds the token. */
  lemma LoginFeedsSlice(b: Backend, s: AuthSlice.AuthState, nowMs: nat, iso: nat -> string)
    ensures var o := Login(b, ValidEmail, ValidPassword, nowMs, iso);
      var r := AuthSlice.LoginSuccess(s, o.response.data.user, Some(o.response.data.authToken));
      && AuthSlice.Consistent(r) && r.isAuthenticated && r.authToken == Some(MockToken)
      && r.user == o.backend.user
  {
  }
}
