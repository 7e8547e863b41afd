/**
 The edge middleware that runs before every page: the production redirect to the
 www host, the `/home` alias, and the guard in front of `/admin`. The session
 token (`getToken`) and the production flag are inputs; the route matcher that
 decides which requests reach the middleware is not modelled.
 */
module Middleware {
  import opened Js

  /** The parts of the request URL that the middleware reads or rewrites. */
  datatype Url = Url(protocol: string, host: string, pathname: string, query: seq<(string, string)>)

  /** The decoded session JWT; `role` is whatever the token carries. */
  datatype Token = Token(role: Json)

  datatype Action = Next | Redirect(status: nat, location: Url)

  const ApexHost: string := "movingquotetexas.com"
  const WwwHost: string := "www.movingquotetexas.com"

  /** 301 Moved Permanently, section 15.4.2 of RFC 9110. */
  const MovedPermanently: nat := 301
  /** 307 Temporary Redirect, section 15.4.8 of RFC 9110: the status
      `NextResponse.redirect` uses when none is given. */
  const TemporaryRedirect: nat := 307

  /** `new URL(path, req.url)`: same origin, the given path, no query. */
  function SameOrigin(url: Url, path: string): Url {
    Url(url.protocol, url.host, path, [])
  }

  predicate IsAdminPath(path: string) {
    StartsWith(path, "/admin")
  }

  /** The middleware's decision. `hostHeader` is the `host` request header (None
      when absent) and `token` what `getToken` would return for this request; it
      is consulted only under `/admin`. */
  function Decide(isProd: bool, hostHeader: Option<string>, url: Url, token: Option<Token>): (a: Action)
    ensures isProd && hostHeader == Some(ApexHost) ==>
      a == Redirect(MovedPermanently, url.(protocol := "https:", host := WwwHost))
    ensures !ApexInProd(isProd, hostHeader) && url.pathname == "/home" ==>
      a == Redirect(MovedPermanently, url.(pathname := "/"))
    ensures a.Redirect? && a.status == MovedPermanently ==>
      (isProd && hostHeader == Some(ApexHost)) || (url.pathname == "/home" && a.location == url.(pathname := "/"))
    ensures !IsAdminPath(url.pathname) ==> a.Next? || a.status == MovedPermanently
    ensures a.Redirect? && a.status != MovedPermanently ==> a.status == TemporaryRedirect && IsAdminPath(url.pathname)
  {
    var host := hostHeader.GetOr("");
    if isProd && host == ApexHost then
      Redirect(MovedPermanently, url.(protocol := "https:", host := WwwHost))
    else if url.pathname == "/home" then
      Redirect(MovedPermanently, url.(pathname := "/"))
    else if !IsAdminPath(url.pathname) then
      Next
    else if token.None? then
      Redirect(TemporaryRedirect, SameOrigin(url, "/sign-in").(query := [("callbackUrl", url.pathname)]))
    else if token.value.role == JStr("USER") then
      Redirect(TemporaryRedirect, SameOrigin(url, "/"))
    else if token.value.role != JStr("ADMIN") then
      Redirect(TemporaryRedirect, SameOrigin(url, "/403"))
    else
      Next
  }

  /** Whether the www rule applies to a request. */
  predicate ApexInProd(isProd: bool, hostHeader: Option<string>) {
    isProd && hostHeader == Some(ApexHost)
  }

  /** The /admin guard: once the www and /home rules are past, an admin page is
      served exactly to a token whose role is the string "ADMIN". */
  lemma AdminNeedsAdminRole(isProd: bool, hostHeader: Option<string>, url: Url, token: Option<Token>)
    requires !ApexInProd(isProd, hostHeader) && IsAdminPath(url.pathname)
    ensures Decide(isProd, hostHeader, url, token).Next? <==> token.Some? && token.value.role == JStr("ADMIN")
  {
    assert url.pathname != "/home" by {
      assert url.pathname[..6] == "/admin";
    }
  }

  /** Where each refused visitor is sent: to sign-in with the page as callback when
      there is no session, home for the "USER" role, and the 403 page for any other
      role, a missing one included. */
  lemma AdminRefusals(isProd: bool, hostHeader: Option<string>, url: Url, token: Option<Token>)
    requires !ApexInProd(isProd, hostHeader) && IsAdminPath(url.pathname)
    ensures token.None? ==>
      Decide(isProd, hostHeader, url, token)
        == Redirect(TemporaryRedirect, Url(url.protocol, url.host, "/sign-in", [("callbackUrl", url.pathname)]))
    ensures token.Some? && token.value.role == JStr("USER") ==>
      Decide(isProd, hostHeader, url, token) == Redirect(TemporaryRedirect, Url(url.protocol, url.host, "/", []))
    ensures token.Some? && token.value.role != JStr("USER") && token.value.role != JStr("ADMIN") ==>
      Decide(isProd, hostHeader, url, token) == Redirect(TemporaryRedirect, Url(url.protocol, url.host, "/403", []))
  {
    AdminNeedsAdminRole(isProd, hostHeader, url, token);
  }

  /** Outside `/admin` the token plays no part in the decision. */
  lemma PublicPathsIgnoreToken(isProd: bool, hostHeader: Option<string>, url: Url, t1: Option<Token>, t2: Option<Token>)
    requires !IsAdminPath(url.pathname)
    ensures Decide(isProd, hostHeader, url, t1) == Decide(isProd, hostHeader, url, t2)
  {
  }

  /** Outside production the host never matters. */
  lemma DevIgnoresHost(hostHeader1: Option<string>, hostHeader2: Option<string>, url: Url, token: Option<Token>)
    ensures Decide(false, hostHeader1, url, token) == Decide(false, hostHeader2, url, token)
  {
  }

  /** Follows redirects, the next request carrying the target's host, for at most
      `fuel` hops; the result counts the redirects before a page is served. */
  function Hops(isProd: bool, hostHeader: Option<string>, url: Url, token: Option<Token>, fuel: nat): Option<nat>
    decreases fuel
  {
    match Decide(isProd, hostHeader, url, token)
    case Next => Some(0)
    case Redirect(_, target) =>
      if fuel == 0 then None
      else
        match Hops(isProd, Some(target.host), target, token, fuel - 1)
        case None => None
        case Some(n) => Some(n + 1)
  }

  /** Every target of a redirect other than the www one is served directly. */
  lemma RedirectTargetsAreServed(isProd: bool, url: Url, token: Option<Token>)
    requires !ApexInProd(isProd, Some(url.host))
    requires Decide(isProd, Some(url.host), url, token).Redirect?
    ensures var target := Decide(isProd, Some(url.host), url, token).location;
            Decide(isProd, Some(target.host), target, token) == Next
  {
    var target := Decide(isProd, Some(url.host), url, token).location;
    assert target.host == url.host;
    assert target.pathname in {"/", "/sign-in", "/403"};
    assert !IsAdminPath(target.pathname) by {
      if target.pathname == "/sign-in" {
        assert target.pathname[1] != "/admin"[1];
      }
    }
  }

  /** No redirect loop: with the host header matching the URL, every request is
      served after at most two redirects. */
  lemma NoRedirectLoop(isProd: bool, url: Url, token: Option<Token>)
    ensures Hops(isProd, Some(url.host), url, token, 2).Some?
    ensures Hops(isProd, Some(url.host), url, token, 2).value <= 2
  {
    var a := Decide(isProd, Some(url.host), url, token);
    if a.Redirect? {
      var t1 := a.location;
      if ApexInProd(isProd, Some(url.host)) {
        assert t1.host == WwwHost;
        var b := Decide(isProd, Some(t1.host), t1, token);
        if b.Redirect? {
          RedirectTargetsAreServed(isProd, t1, token);
        }
      } else {
        RedirectTargetsAreServed(isProd, url, token);
      }
    }
  }
}
