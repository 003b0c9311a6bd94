/**
 * The route admission gate: the Next.js middleware that runs before every
 * request whose path the matcher selects, lets public paths and assets
 * through, and sends requests without a verifiable `session` cookie to
 * `/login`.
 */
module Middleware {

  import opened Wrappers
  import opened JsStrings
  import Auth

  /** Paths that need no session, matched by prefix. */
  const PublicRoutes: seq<string> := ["/login", "/register", "/api/auth/login", "/api/auth/register"]
  const NextAssetsPrefix: string := "/_next"
  const FaviconPrefix: string := "/favicon"

  const LoginPath: string := "/login"
  const SessionCookie: string := "session"
  const FromParam: string := "from"

  /** The matcher `/((?!api/movies).*)` keeps the middleware off every path under this prefix. */
  const MatcherExemptPrefix: string := "/api/movies"

  /** A query string as URLSearchParams holds it: name/value pairs in order, names may repeat. */
  type Query = seq<(string, string)>

  /** The parts of `req.nextUrl` the gate reads or rewrites. */
  datatype Url = Url(pathname: string, query: Query)

  /** A request as the gate sees it: its URL and its cookies by name. */
  datatype Request = Request(url: Url, cookies: map<string, string>)

  /** `NextResponse.next()` or `NextResponse.redirect(location)`. */
  datatype Decision = Next | Redirect(location: Url)

  /** The `(name, value)` pairs of `q` whose name is not `name`, in order. */
  function Without(q: Query, name: string): (r: Query)
    ensures forall i | 0 <= i < |r| :: r[i].0 != name
    ensures forall p | p in q && p.0 != name :: p in r
    ensures forall p | p in r :: p in q
  {
    if q == [] then []
    else if q[0].0 == name then Without(q[1..], name)
    else [q[0]] + Without(q[1..], name)
  }

  /** `searchParams.get(name)`: the value of the first pair named `name`. */
  function Get(q: Query, name: string): (r: Option<string>)
    ensures r.Some? <==> exists i | 0 <= i < |q| :: q[i].0 == name
    ensures r.Some? ==> (name, r.value) in q
    ensures r.Some? ==> exists i | 0 <= i < |q| :: q[i] == (name, r.value) && forall j | 0 <= j < i :: q[j].0 != name
  {
    if q == [] then None
    else if q[0].0 == name then Some(q[0].1)
    else Get(q[1..], name)
  }

  /**
   * `searchParams.set(name, value)`: the first pair named `name` takes the new
   * value and the other pairs of that name are removed; with no such pair, one
   * is appended.
   */
  function Set(q: Query, name: string, value: string): (r: Query)
    ensures Get(r, name) == Some(value)
    ensures Without(r, name) == Without(q, name)
    ensures forall i, j | 0 <= i < j < |r| && r[i].0 == name :: r[j].0 != name
  {
    if q == [] then [(name, value)]
    else if q[0].0 == name then
      WithoutOfClean(Without(q[1..], name), name);
      [(name, value)] + Without(q[1..], name)
    else [q[0]] + Set(q[1..], name, value)
  }

  /** Removing a name that does not occur changes nothing. */
  lemma {:induction false} WithoutOfClean(q: Query, name: string)
    requires forall i | 0 <= i < |q| :: q[i].0 != name
    ensures Without(q, name) == q
  {
    if q != [] {
      WithoutOfClean(q[1..], name);
    }
  }

  /** The path needs no session: a public route, a Next.js asset or the favicon, by prefix. */
  predicate IsPublic(pathname: string) {
    || (exists i | 0 <= i < |PublicRoutes| :: StartsWith(pathname, PublicRoutes[i]))
    || StartsWith(pathname, NextAssetsPrefix)
    || StartsWith(pathname, FaviconPrefix)
  }

  /** `req.cookies.get("session")?.value`, read as a JavaScript truthiness test. */
  predicate HasSession(req: Request) {
    SessionCookie in req.cookies && req.cookies[SessionCookie] != ""
  }

  /** `middleware(req)`: admit or redirect. */
  function Gate(req: Request, verify: Auth.Verifier): (d: Decision)
    ensures d.Next? <==> IsPublic(req.url.pathname) || (HasSession(req) && verify(req.cookies[SessionCookie]))
    ensures d.Redirect? ==> d.location.pathname == LoginPath
  {
    var pathname := req.url.pathname;
    if IsPublic(pathname) then Next
    else if !HasSession(req) then
      Redirect(Url(LoginPath, Set(req.url.query, FromParam, pathname)))
    else if verify(req.cookies[SessionCookie]) then Next
    else Redirect(Url(LoginPath, req.url.query))
  }

  /** What serves a request: the matcher exempts `/api/movies...`, every other path goes through the gate. */
  function Serve(req: Request, verify: Auth.Verifier): (d: Decision)
    ensures StartsWith(req.url.pathname, MatcherExemptPrefix) ==> d == Next
    ensures !StartsWith(req.url.pathname, MatcherExemptPrefix) ==> d == Gate(req, verify)
  {
    if StartsWith(req.url.pathname, MatcherExemptPrefix) then Next else Gate(req, verify)
  }

  /** The public routes match by prefix: longer paths that begin with one pass too. */
  lemma PrefixMatchExamples()
    ensures IsPublic("/registered") && IsPublic("/login/x") && IsPublic("/_next/static/a.js") && IsPublic("/favicon.ico")
  {
    assert StartsWith("/registered", PublicRoutes[1]);
    assert StartsWith("/login/x", PublicRoutes[0]);
  }

  /** Application pages such as the home page, the profile and the favorites page are protected. */
  lemma ProtectedExamples()
    ensures !IsPublic("/") && !IsPublic("/profile") && !IsPublic("/favorites")
  {
    forall i | 0 <= i < |PublicRoutes|
      ensures !StartsWith("/profile", PublicRoutes[i]) && !StartsWith("/favorites", PublicRoutes[i])
    {
      assert PublicRoutes[i][1] != 'p' && PublicRoutes[i][1] != 'f';
    }
    assert "/profile"[1] != NextAssetsPrefix[1] && "/profile"[1] != FaviconPrefix[1];
    assert "/favorites"[1] != NextAssetsPrefix[1] && "/favorites"[4] != FaviconPrefix[4];
  }

  /** A public path passes whatever the cookies and whatever the verifier says. */
  lemma PublicPathPasses(req: Request, verify: Auth.Verifier)
    requires IsPublic(req.url.pathname)
    ensures Gate(req, verify) == Next
  {
  }

  /**
   * A protected path with no (or an empty) `session` cookie goes to `/login`
   * with `from` set to the path asked for and every other query pair kept.
   */
  lemma MissingSessionRedirectsWithFrom(req: Request, verify: Auth.Verifier)
    requires !IsPublic(req.url.pathname) && !HasSession(req)
    ensures Gate(req, verify).Redirect?
    ensures Gate(req, verify).location.pathname == LoginPath
    ensures Get(Gate(req, verify).location.query, FromParam) == Some(req.url.pathname)
    ensures Without(Gate(req, verify).location.query, FromParam) == Without(req.url.query, FromParam)
  {
  }

  /** A protected path whose cookie verifies is passed through. */
  lemma VerifiedSessionPasses(req: Request, verify: Auth.Verifier)
    requires HasSession(req) && verify(req.cookies[SessionCookie])
    ensures Gate(req, verify) == Next
  {
  }

  /** A protected path whose cookie fails verification goes to `/login` with the query untouched: no `from`. */
  lemma FailedVerificationRedirectsPlain(req: Request, verify: Auth.Verifier)
    requires !IsPublic(req.url.pathname) && HasSession(req) && !verify(req.cookies[SessionCookie])
    ensures Gate(req, verify) == Redirect(Url(LoginPath, req.url.query))
  {
  }

  /** Every redirect lands on `/login`, which is public, so following it is admitted: no redirect loop. */
  lemma {:induction false} NoRedirectLoop(req: Request, verify: Auth.Verifier, next: Request, verify': Auth.Verifier)
    requires Gate(req, verify).Redirect?
    requires next.url == Gate(req, verify).location
    ensures Gate(next, verify') == Next
    ensures Serve(next, verify') == Next
  {
    LoginPathAdmitted(next, verify');
  }

  /** A request for `/login` is admitted by the gate and served, whatever its cookies. */
  lemma {:induction false} LoginPathAdmitted(req: Request, verify: Auth.Verifier)
    requires req.url.pathname == LoginPath
    ensures Gate(req, verify) == Next
    ensures Serve(req, verify) == Next
  {
    assert StartsWith(req.url.pathname, PublicRoutes[0]);
    assert !StartsWith(req.url.pathname, MatcherExemptPrefix) by {
      assert req.url.pathname[1] != MatcherExemptPrefix[1];
    }
  }

  /** Paths under `/api/movies`, the favorites API included, are served without any session. */
  lemma MovieApiIsOpen(req: Request, verify: Auth.Verifier)
    requires StartsWith(req.url.pathname, MatcherExemptPrefix)
    ensures Serve(req, verify) == Next
  {
  }

  lemma FavoritesApiIsOpen(query: Query, cookies: map<string, string>, verify: Auth.Verifier)
    ensures Serve(Request(Url("/api/movies/api/favorites", query), cookies), verify) == Next
  {
    assert StartsWith("/api/movies/api/favorites", MatcherExemptPrefix);
  }

  /**
   * The decision depends on the path, the query, the `session` cookie and the
   * verification outcome for that cookie alone: two verifiers that agree on it
   * and cookie jars that agree on `session` give the same decision.
   */
  lemma {:induction false} DecisionDependsOnlyOnOutcome(url: Url, cookies: map<string, string>, cookies': map<string, string>,
                                                        verify: Auth.Verifier, verify': Auth.Verifier)
    requires (SessionCookie in cookies) == (SessionCookie in cookies')
    requires SessionCookie in cookies ==> cookies[SessionCookie] == cookies'[SessionCookie]
    requires SessionCookie in cookies ==> verify(cookies[SessionCookie]) == verify'(cookies[SessionCookie])
    ensures Gate(Request(url, cookies), verify) == Gate(Request(url, cookies'), verify')
  {
    var req, req' := Request(url, cookies), Request(url, cookies');
    assert HasSession(req) == HasSession(req');
  }
}
