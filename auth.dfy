/**
 * The authentication state: the signed-in user, the bearer token, a loading
 * flag and the last error, changed only through `authReducer`; and the
 * state outcomes of `signup` and `logout` around the server calls.
 */
module Auth {
  import opened Optional

  /** The user as the client holds it; after a signup it is exactly `{ name, email }`. */
  datatype AuthUser = AuthUser(name: string, email: string)

  datatype AuthState = AuthState(
    user: Option<AuthUser>,
    token: Option<string>,
    isLoading: bool,
    error: Option<string>)

  const InitialAuthState: AuthState := AuthState(None, None, false, None)

  datatype AuthAction =
    | SetLoading(loading: bool)
    | SetUser(newUser: AuthUser, newToken: string)
    | SetError(message: string)
    | Logout
    | UnknownAuth

  /** `authReducer(state, action)` */
  function AuthReduce(s: AuthState, a: AuthAction): AuthState {
    match a
    case SetLoading(loading) => s.(isLoading := loading, error := None)
    case SetUser(u, t) => AuthState(Some(u), Some(t), false, None)
    case SetError(m) => s.(error := Some(m), isLoading := false)
    case Logout => s.(user := None, token := None, error := None)
    case UnknownAuth => s
  }

  /** SET_LOADING sets the flag and clears the error; user and token stay. */
  lemma SetLoadingKeepsSession(s: AuthState, loading: bool)
    ensures var r := AuthReduce(s, SetLoading(loading));
      r.isLoading == loading && r.error.None? && r.user == s.user && r.token == s.token
  {
  }

  /** SET_USER signs in: user and token set, not loading, no error, whatever came before. */
  lemma SetUserSignsIn(s: AuthState, u: AuthUser, t: string)
    ensures AuthReduce(s, SetUser(u, t)) == AuthState(Some(u), Some(t), false, None)
  {
  }

  /** SET_ERROR records the error and ends loading, keeping the session. */
  lemma SetErrorKeepsSession(s: AuthState, m: string)
    ensures var r := AuthReduce(s, SetError(m));
      r.error == Some(m) && !r.isLoading && r.user == s.user && r.token == s.token
  {
  }

  /**
   * LOGOUT clears user, token and error but leaves the loading flag as it
   * was; an unknown action changes nothing.
   */
  lemma LogoutKeepsLoading(s: AuthState)
    ensures var r := AuthReduce(s, Logout);
      r.user.None? && r.token.None? && r.error.None? && r.isLoading == s.isLoading
    ensures AuthReduce(s, UnknownAuth) == s
  {
  }

  /** Only SET_USER can sign a user in. */
  lemma OnlySetUserSignsIn(s: AuthState, a: AuthAction)
    requires s.user.None? && AuthReduce(s, a).user.Some?
    ensures a.SetUser? && AuthReduce(s, a).user == Some(a.newUser)
  {
  }

  /** The result of the registration request: a token, or the server's error text (if any). */
  datatype SignupResponse = Registered(token: string) | Rejected(serverError: Option<string>)

  /**
   * The results of a login: rejected with the server's error text (if any),
   * or accepted with a token, followed by the `/api/me` answer, which is the
   * user when that request succeeds and None when it does not.
   */
  datatype LoginResponse = LoginRejected(serverError: Option<string>) | LoggedIn(token: string, me: Option<AuthUser>)

  /** The `/api/me` answer to a stored token: the user, or a refusal. */
  datatype VerifyResponse = Verified(user: AuthUser) | Invalid

  /** `AuthProvider`: the reducer's state and the token kept in local storage. */
  class AuthProvider {
    var state: AuthState
    var storedToken: Option<string>

    constructor(storedToken: Option<string>)
      ensures state == InitialAuthState && this.storedToken == storedToken
    {
      state := InitialAuthState;
      this.storedToken := storedToken;
    }

    /**
     * `signup({ name, email, password })`: loading first; on success the
     * token is stored and the user is the submitted name and email (not a
     * user echoed by the server); on failure the error is the server's
     * message or the fixed fallback, and the stored token is untouched.
     */
    method Signup(name: string, email: string, response: SignupResponse) returns (ok: bool)
      modifies this
      ensures ok <==> response.Registered?
      ensures response.Registered? ==>
                && storedToken == Some(response.token)
                && state == AuthState(Some(AuthUser(name, email)), Some(response.token), false, None)
      ensures response.Rejected? ==>
                && storedToken == old(storedToken)
                && state == old(state).(isLoading := false, error := Some(ErrorOr(response.serverError, SignupFallback)))
    {
      state := AuthReduce(state, SetLoading(true));
      match response {
        case Registered(token) =>
          storedToken := Some(token);
          state := AuthReduce(state, SetUser(AuthUser(name, email), token));
          ok := true;
        case Rejected(serverError) =>
          state := AuthReduce(state, SetError(ErrorOr(serverError, SignupFallback)));
          ok := false;
      }
    }

    /**
     * `login({ email, password })`: loading first; a rejection sets the
     * server's message or the login fallback. An accepted login stores the
     * token at once; the user is then the one `/api/me` returns, and when
     * that request fails nothing more is dispatched, so the state stays
     * loading, without a user and without an error.
     */
    method Login(response: LoginResponse) returns (ok: bool)
      modifies this
      ensures ok <==> response.LoggedIn?
      ensures response.LoginRejected? ==>
                && storedToken == old(storedToken)
                && state == old(state).(isLoading := false, error := Some(ErrorOr(response.serverError, LoginFallback)))
      ensures response.LoggedIn? ==> storedToken == Some(response.token)
      ensures response.LoggedIn? && response.me.Some? ==>
                state == AuthState(Some(response.me.value), Some(response.token), false, None)
      ensures response.LoggedIn? && response.me.None? ==>
                state == old(state).(isLoading := true, error := None)
    {
      state := AuthReduce(state, SetLoading(true));
      match response {
        case LoginRejected(serverError) =>
          state := AuthReduce(state, SetError(ErrorOr(serverError, LoginFallback)));
          ok := false;
        case LoggedIn(token, me) =>
          storedToken := Some(token);
          if me.Some? {
            state := AuthReduce(state, SetUser(me.value, token));
          }
          ok := true;
      }
    }

    /**
     * `verifyToken(token)`, run at start-up for a stored token: a valid
     * token signs its user in without touching the loading flag first; a
     * refused one is removed from storage and the state is left as it was.
     */
    method VerifyToken(token: string, response: VerifyResponse)
      modifies this
      ensures response.Verified? ==>
                && storedToken == old(storedToken)
                && state == AuthState(Some(response.user), Some(token), false, None)
      ensures response.Invalid? ==> storedToken.None? && state == old(state)
    {
      match response {
        case Verified(user) =>
          state := AuthReduce(state, SetUser(user, token));
        case Invalid =>
          storedToken := None;
      }
    }

    /** `logout()`: the stored token is removed and LOGOUT is dispatched. */
    method Logout()
      modifies this
      ensures storedToken.None?
      ensures state == AuthReduce(old(state), AuthAction.Logout)
    {
      storedToken := None;
      state := AuthReduce(state, AuthAction.Logout);
    }
  }

  const SignupFallback: string := "登録に失敗しました"
  const LoginFallback: string := "ログインに失敗しました"

  /** `data.error || fallback`: the server's message when it is truthy, else the fallback. */
  function ErrorOr(serverError: Option<string>, fallback: string): (r: string)
    ensures fallback != "" ==> r != ""
    ensures serverError.Some? && serverError.value != "" ==> r == serverError.value
    ensures serverError.None? || serverError.value == "" ==> r == fallback
  {
    if serverError.Some? && serverError.value != "" then serverError.value
    else fallback
  }
}
