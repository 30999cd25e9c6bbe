/** middleware.ts: the session gate in front of every page and API route.
    It carries its own copy of the signer (built on `btoa`, lines 6-28), of
    `verify` (lines 30-39) and of `validateSession` (lines 41-62); the model
    proves the copies agree with app/lib/auth.ts. */
module Middleware {
  import opened Base
  import opened Text
  import opened Base64
  import Auth

  /** Lines 6-28: the HMAC bytes, `btoa`, then `+` to `-`, `/` to `_` and the
      trailing `=` dropped. */
  function Sign(message: string, secret: string, hmac: (string, string) -> seq<byte>): string {
    StdToUrl(EncodeStd(hmac(secret, message)))
  }

  /** The edge signer and the server signer produce the same signature. */
  lemma SignAgrees(message: string, secret: string, hmac: (string, string) -> seq<byte>)
    ensures Sign(message, secret, hmac) == Auth.Sign(message, secret, hmac)
  {
    StdToUrlIsEncodeUrl(hmac(secret, message));
  }

  /** Lines 30-39: `verify`, with the same timing-safe comparison as the server. */
  function Verify(message: string, signature: string, secret: string, hmac: (string, string) -> seq<byte>): (r: bool)
    ensures r <==> signature == Sign(message, secret, hmac)
  {
    Auth.SafeEqual(signature, Sign(message, secret, hmac))
  }

  /** Lines 41-62: the edge `validateSession` at instant `now`. */
  function ValidateSession(token: string, secret: Option<string>, now: nat, hmac: (string, string) -> seq<byte>): bool {
    if !Truthy(secret) then false
    else
      var parts := Split(token, '.');
      if |parts| != 2 then false
      else if !Verify(parts[0], parts[1], secret.value, hmac) then false
      else match Auth.ParseSessionPayload(parts[0])
        case None => false
        case Some(expiresAt) => !(now > expiresAt)
  }

  /** The edge and server checks agree on every token. */
  lemma ValidateSessionAgrees(token: string, secret: Option<string>, now: nat, hmac: (string, string) -> seq<byte>)
    ensures ValidateSession(token, secret, now, hmac) == Auth.ValidateSession(token, secret, now, hmac)
  {
    var parts := Split(token, '.');
    if Truthy(secret) && |parts| == 2 {
      SignAgrees(parts[0], secret.value, hmac);
    }
  }

  /** A token the login route issued passes the gate until it expires. */
  lemma IssuedTokenPasses(secret: Option<string>, created: nat, now: nat, hmac: (string, string) -> seq<byte>)
    requires Truthy(secret)
    ensures ValidateSession(Auth.CreateSession(secret, created, hmac).value, secret, now, hmac)
            <==> now <= created + Auth.SessionDuration
  {
    Auth.SessionRoundTrip(secret, created, now, hmac);
    ValidateSessionAgrees(Auth.CreateSession(secret, created, hmac).value, secret, now, hmac);
  }

  // ---------------------------------------------------------------------------
  // The gate (lines 64-97)
  // ---------------------------------------------------------------------------

  /** Lines 68-75: the paths served without a session. */
  predicate IsPublicPath(path: string) {
    || path == "/login"
    || StartsWith(path, "/api/auth/")
    || StartsWith(path, "/_next/")
    || StartsWith(path, "/favicon")
    || EndsWith(path, ".svg")
    || EndsWith(path, ".ico")
  }

  /** The request's path and the value of its `myway_session` cookie, if any. */
  datatype Request = Request(pathname: string, sessionCookie: Option<string>)

  /** `NextResponse.next()`, or a redirect to `/login` that may also delete the cookie. */
  datatype Response = PassThrough | RedirectToLogin(deleteCookie: bool)

  const LoginPath: string := "/login"

  /** Lines 64-97: `middleware`. */
  function Gate(request: Request, secret: Option<string>, now: nat, hmac: (string, string) -> seq<byte>): (r: Response)
    ensures r == PassThrough <==>
              IsPublicPath(request.pathname)
              || (Truthy(request.sessionCookie) && Auth.ValidateSession(request.sessionCookie.value, secret, now, hmac))
    ensures r.RedirectToLogin? ==> (r.deleteCookie <==> Truthy(request.sessionCookie))
  {
    if IsPublicPath(request.pathname) then PassThrough
    else if !Truthy(request.sessionCookie) then RedirectToLogin(false)
    else
      ValidateSessionAgrees(request.sessionCookie.value, secret, now, hmac);
      if !ValidateSession(request.sessionCookie.value, secret, now, hmac) then RedirectToLogin(true)
      else PassThrough
  }

  /** The login page and the login route never redirect, so a visitor without a
      session can always reach them. */
  lemma LoginReachable(cookie: Option<string>, rest: string, secret: Option<string>, now: nat,
                       hmac: (string, string) -> seq<byte>)
    ensures Gate(Request(LoginPath, cookie), secret, now, hmac) == PassThrough
    ensures Gate(Request("/api/auth/" + rest, cookie), secret, now, hmac) == PassThrough
  {
    assert ("/api/auth/" + rest)[..10] == "/api/auth/";
  }

  /** A path under `/api/` is public exactly when it is under `/api/auth/` or
      names an `.svg` or `.ico` file. */
  lemma ApiPathPublic(rest: string)
    ensures IsPublicPath("/api/" + rest) <==>
              StartsWith(rest, "auth/") || EndsWith(rest, ".svg") || EndsWith(rest, ".ico")
  {
    var path := "/api/" + rest;
    assert path[1] == 'a';
    assert path != LoginPath by { assert LoginPath[1] != path[1]; }
    assert "/api/auth/" == "/api/" + "auth/";
    StartsWithBehind("/api/", rest, "auth/");
    assert !StartsWith(path, "/_next/") by {
      if |path| >= 7 { assert path[..7][1] == path[1]; }
    }
    assert !StartsWith(path, "/favicon") by {
      if |path| >= 8 { assert path[..8][1] == path[1]; }
    }
    EndsWithBehind("/api/", rest, ".svg");
    EndsWithBehind("/api/", rest, ".ico");
  }

  /** Without a cookie, an API route outside `/api/auth/` that names no icon
      file redirects to the login page without touching cookies. */
  lemma ApiRouteGuarded(rest: string, secret: Option<string>, now: nat, hmac: (string, string) -> seq<byte>)
    requires !StartsWith(rest, "auth/") && !EndsWith(rest, ".svg") && !EndsWith(rest, ".ico")
    ensures Gate(Request("/api/" + rest, None), secret, now, hmac) == RedirectToLogin(false)
  {
    ApiPathPublic(rest);
  }

  /** A route whose first character differs from `a` and whose last from `g`
      and `o` is not under `auth/` and names no icon file. */
  lemma PlainRoute(rest: string)
    requires rest != [] && rest[0] != 'a' && rest[|rest| - 1] != 'g' && rest[|rest| - 1] != 'o'
    ensures !StartsWith(rest, "auth/") && !EndsWith(rest, ".svg") && !EndsWith(rest, ".ico")
  {
    if |rest| >= 5 { assert rest[..5][0] == rest[0]; }
    if |rest| >= 4 { assert rest[|rest| - 4..][3] == rest[|rest| - 1]; }
  }

  /** The generation routes, `/api/generate` and `/api/visualize`, and the home
      page are behind the gate: without a cookie they redirect. */
  lemma GenerationRoutesGuarded(secret: Option<string>, now: nat, hmac: (string, string) -> seq<byte>)
    ensures Gate(Request("/api/" + "generate", None), secret, now, hmac) == RedirectToLogin(false)
    ensures Gate(Request("/api/" + "visualize", None), secret, now, hmac) == RedirectToLogin(false)
    ensures Gate(Request("/", None), secret, now, hmac) == RedirectToLogin(false)
  {
    PlainRoute("generate");
    ApiRouteGuarded("generate", secret, now, hmac);
    PlainRoute("visualize");
    ApiRouteGuarded("visualize", secret, now, hmac);
    assert !IsPublicPath("/") by { assert "/" != LoginPath; }
  }

  /** An invalid cookie is deleted on the way to the login page. */
  lemma InvalidSessionCleared(request: Request, secret: Option<string>, now: nat, hmac: (string, string) -> seq<byte>)
    requires !IsPublicPath(request.pathname) && Truthy(request.sessionCookie)
    requires !Auth.ValidateSession(request.sessionCookie.value, secret, now, hmac)
    ensures Gate(request, secret, now, hmac) == RedirectToLogin(true)
  {}
}
