/**
 * The admin gate: `adminAuth` compares the login body with the configured credentials,
 * and `requireAdmin` compares the authorization header with the fixed session token.
 */
module Auth {
  import opened Wrappers

  /** The process environment; an unset or empty value falls back to the default (`||`). */
  datatype Env = Env(adminUsername: Option<string>, adminPassword: Option<string>)

  const DefaultUsername: string := "admin"
  const DefaultPassword: string := "admin123"

  /** The token the login route hands out and `requireAdmin` expects. */
  const LoginToken: string := "admin-authenticated"

  /** `value || fallback` on an optional string: `undefined` and "" are both falsy. */
  function OrDefault(value: Option<string>, fallback: string): (r: string)
    ensures value.Some? && value.value != [] ==> r == value.value
    ensures value.None? || value.value == [] ==> r == fallback
  {
    match value
    case Some(v) => if v != [] then v else fallback
    case None => fallback
  }

  /** `process.env.ADMIN_USERNAME || 'admin'`. */
  function ConfiguredUsername(env: Env): string {
    OrDefault(env.adminUsername, DefaultUsername)
  }

  /** `process.env.ADMIN_PASSWORD || 'admin123'`. */
  function ConfiguredPassword(env: Env): string {
    OrDefault(env.adminPassword, DefaultPassword)
  }

  /** Strict equality with the configured strings; an absent body field never equals a string. */
  predicate CredentialsMatch(env: Env, username: Option<string>, password: Option<string>) {
    username == Some(ConfiguredUsername(env)) && password == Some(ConfiguredPassword(env))
  }

  /** `adminAuth` as a gate: on to the handler, or 401. */
  function AdminAuthGate(env: Env, username: Option<string>, password: Option<string>): (g: Gate)
    ensures g.Next? <==> CredentialsMatch(env, username, password)
    ensures g.Halt? ==> g.error == Unauthorized
  {
    if CredentialsMatch(env, username, password) then Next else Halt(Unauthorized)
  }

  /** `requireAdmin`: on to the handler exactly when the header is the token. */
  function RequireAdmin(authorization: Option<string>): (g: Gate)
    ensures g.Next? <==> authorization == Some(LoginToken)
    ensures g.Halt? ==> g.error == Unauthorized
  {
    if authorization == Some(LoginToken) then Next else Halt(Unauthorized)
  }

  /** `POST /admin/login`: the token, behind `adminAuth`. */
  function Login(env: Env, username: Option<string>, password: Option<string>): (r: Result<string>)
    ensures r.Ok? <==> AdminAuthGate(env, username, password).Next?
    ensures r.Err? ==> r.error == Unauthorized
  {
    match AdminAuthGate(env, username, password)
    case Next => Ok(LoginToken)
    case Halt(e) => Err(e)
  }

  /** A token obtained from a successful login is accepted by every protected route. */
  lemma LoginTokenAccepted(env: Env, username: Option<string>, password: Option<string>)
    requires Login(env, username, password).Ok?
    ensures RequireAdmin(Some(Login(env, username, password).value)) == Next
  {
  }

  /** Without environment values, exactly admin / admin123 log in. */
  lemma DefaultCredentials(env: Env, username: Option<string>, password: Option<string>)
    requires env.adminUsername.None? || env.adminUsername == Some("")
    requires env.adminPassword.None? || env.adminPassword == Some("")
    ensures Login(env, username, password).Ok? <==> username == Some("admin") && password == Some("admin123")
  {
  }

  /** Non-empty environment values replace the defaults, which then no longer log in. */
  lemma ConfiguredCredentials(user: string, pass: string, username: Option<string>, password: Option<string>)
    requires user != [] && pass != []
    ensures Login(Env(Some(user), Some(pass)), username, password).Ok? <==> username == Some(user) && password == Some(pass)
    ensures user != DefaultUsername ==> Login(Env(Some(user), Some(pass)), Some(DefaultUsername), Some(DefaultPassword)).Err?
  {
  }

  /** The express request object as the middleware sees it. */
  class Request {
    var username: Option<string>
    var password: Option<string>
    var isAdmin: bool

    constructor (username: Option<string>, password: Option<string>)
      ensures this.username == username && this.password == password && !isAdmin
    {
      this.username := username;
      this.password := password;
      this.isAdmin := false;
    }
  }

  /** `adminAuth`: marks the request as an admin one and continues, or answers 401 and leaves it alone. */
  method AdminAuth(req: Request, env: Env) returns (g: Gate)
    modifies req
    ensures g == AdminAuthGate(env, req.username, req.password)
    ensures req.username == old(req.username) && req.password == old(req.password)
    ensures req.isAdmin == (old(req.isAdmin) || g.Next?)
  {
    if req.username == Some(ConfiguredUsername(env)) && req.password == Some(ConfiguredPassword(env)) {
      req.isAdmin := true;
      g := Next;
    } else {
      g := Halt(Unauthorized);
    }
  }
}
