/** `authHandler.ServeHTTP`: one authorization decision per request. The
    pipeline runs namespace derivation, credential extraction, account
    inspection, endpoint resolution, resource construction and the policy
    decision, in that order, and ends in exactly one `Outcome`. */
module Handler {
  import opened Wrappers
  import opened Strings
  import opened AuthTypes
  import opened Namespace

  const StatusTemporaryRedirect := 307
  const StatusUnauthorized := 401
  const StatusForbidden := 403
  const StatusInternalServerError := 500

  /** How a request ends: handed to the wrapped handler, answered with an
      error status and body, or redirected. */
  datatype Outcome =
    | Forward(request: Request)
    | Error(status: int, body: string)
    | Redirect(status: int, location: string)

  /** The token found on a request and the request as it continues. */
  datatype Credential = Credential(token: string, request: Request)

  /** Token extraction. A non-empty `Authorization` header decides alone:
      the token follows the bearer scheme, or is empty when the header uses
      another scheme. Only without that header is the `micro-token` cookie
      read; its value, less a leading `micro-token=`, becomes the token and
      is written back as a bearer `Authorization` header. */
  function ExtractToken(req: Request): (c: Credential)
    ensures var header := HeaderGet(req.headers, AuthorizationKey);
      |header| > 0 ==>
        && c.request == req
        && (if HasPrefix(header, BearerScheme) then BearerScheme + c.token == header
            else c.token == "")
    ensures var header := HeaderGet(req.headers, AuthorizationKey);
      |header| == 0 && TokenCookieName in req.cookies ==>
        var value := req.cookies[TokenCookieName];
        && (if HasPrefix(value, TokenCookieName + "=") then TokenCookieName + "=" + c.token == value
            else c.token == value)
        && c.request == SetHeader(req, AuthorizationKey, BearerScheme + c.token)
    ensures var header := HeaderGet(req.headers, AuthorizationKey);
      |header| == 0 && TokenCookieName !in req.cookies ==> c == Credential("", req)
  {
    var header := HeaderGet(req.headers, AuthorizationKey);
    if |header| > 0 then
      if HasPrefix(header, BearerScheme) then Credential(header[|BearerScheme|..], req)
      else Credential("", req)
    else if TokenCookieName in req.cookies then
      var token := TrimPrefix(req.cookies[TokenCookieName], TokenCookieName + "=");
      Credential(token, SetHeader(req, AuthorizationKey, BearerScheme + token))
    else Credential("", req)
  }

  /** The account the decision is made for: the inspected one, or an
      anonymous account (empty id) in the request's namespace when
      inspection failed. */
  function AccountFor(inspected: Option<Account>, namespace: string): (a: Account)
    ensures inspected.Some? ==> a == inspected.value
    ensures inspected.None? ==> a.id == "" && a.namespace == namespace
  {
    match inspected
    case Some(acc) => acc
    case None => Account("", namespace)
  }

  /** The endpoint the resource is built from. The two sentinel errors fall
      back to an endpoint carrying only the request path; any other error
      is fatal and keeps its message. */
  function EndpointFor(resolution: Resolution, path: string): (r: Result<Endpoint>)
    ensures resolution.Resolved? ==> r == Success(resolution.endpoint)
    ensures resolution.ErrInvalidPath? || resolution.ErrNotFound? ==> r == Success(Endpoint("", "", path))
    ensures resolution.ResolveError? ==> r == Failure(resolution.message)
  {
    match resolution
    case Resolved(ep) => Success(ep)
    case ErrInvalidPath => Success(Endpoint("", "", path))
    case ErrNotFound => Success(Endpoint("", "", path))
    case ResolveError(msg) => Failure(msg)
  }

  /** The resource name: the service prefix, followed by "." and the
      endpoint name when there is one. */
  function ResourceName(prefix: string, name: string): (r: string)
    ensures HasPrefix(r, prefix)
    ensures |name| == 0 <==> r == prefix
    ensures |name| > 0 ==> r == prefix + "." + name
  {
    if |name| > 0 then prefix + "." + name else prefix
  }

  /** Recovers the endpoint name from a resource name built on `prefix`. */
  function EndpointNameOf(prefix: string, resourceName: string): string {
    if |resourceName| > |prefix| then resourceName[|prefix| + 1..] else ""
  }

  /** The resource name determines the endpoint name: building a name and
      reading it back is the identity. */
  lemma ResourceNameRoundTrip(prefix: string, name: string)
    ensures EndpointNameOf(prefix, ResourceName(prefix, name)) == name
  {
    if |name| > 0 {
      assert (prefix + "." + name)[|prefix| + 1..] == name;
    }
  }

  /** Distinct endpoint names under one prefix give distinct resources. */
  lemma ResourceNameInjective(prefix: string, a: string, b: string)
    requires ResourceName(prefix, a) == ResourceName(prefix, b)
    ensures a == b
  {
    ResourceNameRoundTrip(prefix, a);
    ResourceNameRoundTrip(prefix, b);
  }

  /** The subject of the policy check for endpoint `ep`. The endpoint
      identifier is the path, or the method when the path is empty. */
  function ResourceFor(prefix: string, ep: Endpoint, namespace: string): (res: Resource)
    ensures res.kind == ServiceType && res.namespace == namespace
    ensures res.name == ResourceName(prefix, ep.name)
    ensures |ep.path| > 0 ==> res.endpoint == ep.path
    ensures |ep.path| == 0 ==> res.endpoint == ep.methodName
  {
    Resource(ServiceType, ResourceName(prefix, ep.name),
      if |ep.path| > 0 then ep.path else ep.methodName, namespace)
  }

  /** The policy decision once verification has run. */
  datatype Decision = Allow | Forbidden | Unauthorized | RedirectToLogin(location: string)

  /** The login URL with `redirect_to` set to the request path: `url.Values`
      with one key encodes as `key=` followed by the escaped value, and the
      key `redirect_to` needs no escaping. */
  function LoginRedirect(net: Net, loginURL: string, path: string): (url: string)
    ensures HasPrefix(url, loginURL + "?redirect_to=")
    ensures TrimPrefix(url, loginURL + "?redirect_to=") == net.queryEscape(path)
  {
    loginURL + "?" + "redirect_to=" + net.queryEscape(path)
  }

  /** Decision mapping: verification success allows; otherwise an account
      with an id is forbidden, and an anonymous one is unauthorized or sent
      to the login URL when one is configured. */
  function Decide(allowed: bool, acc: Account, loginURL: string, location: string): (d: Decision)
    ensures d == Allow <==> allowed
    ensures d == Forbidden <==> !allowed && |acc.id| > 0
    ensures d == Unauthorized <==> !allowed && |acc.id| == 0 && loginURL == ""
    ensures d.RedirectToLogin? <==> !allowed && |acc.id| == 0 && loginURL != ""
    ensures d.RedirectToLogin? ==> d.location == location
  {
    if allowed then Allow
    else if |acc.id| > 0 then Forbidden
    else if loginURL == "" then Unauthorized
    else RedirectToLogin(location)
  }

  /** The HTTP behaviour of a decision for the (possibly rewritten) request. */
  function Respond(d: Decision, req: Request): (o: Outcome)
    ensures d == Allow <==> o == Forward(req)
    ensures d == Forbidden <==> o == Error(StatusForbidden, "Forbidden request")
    ensures d == Unauthorized <==> o == Error(StatusUnauthorized, "unauthorized request")
    ensures d.RedirectToLogin? ==> o == Redirect(StatusTemporaryRedirect, d.location)
    ensures o.Redirect? ==> d.RedirectToLogin?
  {
    match d
    case Allow => Forward(req)
    case Forbidden => Error(StatusForbidden, "Forbidden request")
    case Unauthorized => Error(StatusUnauthorized, "unauthorized request")
    case RedirectToLogin(location) => Redirect(StatusTemporaryRedirect, location)
  }

  // The stages of ServeHTTP, named so that properties can refer to them.

  /** The namespace of the request. */
  function RequestNamespace(h: Handler, req: Request): string {
    NamespaceFromRequest(h.namespace, h.net, req)
  }

  /** The credential, after the namespace header has been set. */
  function CredentialOf(h: Handler, req: Request): Credential {
    ExtractToken(SetHeader(req, NamespaceKey, RequestNamespace(h, req)))
  }

  /** The account the decision is made for. */
  function AccountOf(h: Handler, req: Request): Account {
    AccountFor(h.auth.inspect(CredentialOf(h, req).token), RequestNamespace(h, req))
  }

  /** What the resolver makes of the request as rewritten so far. */
  function ResolutionOf(h: Handler, req: Request): Resolution {
    h.resolve(CredentialOf(h, req).request)
  }

  /** The endpoint, or the fatal resolver error. */
  function EndpointOf(h: Handler, req: Request): Result<Endpoint> {
    EndpointFor(ResolutionOf(h, req), req.path)
  }

  /** The request handed on: the rewritten request, with the endpoint
      attached to its context when the resolver found one. */
  function ForwardedRequest(h: Handler, req: Request): (fwd: Request)
    ensures ResolutionOf(h, req).Resolved? ==>
      fwd == CredentialOf(h, req).request.(endpoint := Some(ResolutionOf(h, req).endpoint))
    ensures !ResolutionOf(h, req).Resolved? ==> fwd == CredentialOf(h, req).request
    ensures fwd.headers == CredentialOf(h, req).request.headers && fwd.path == req.path
  {
    var r := CredentialOf(h, req).request;
    match ResolutionOf(h, req)
    case Resolved(ep) => r.(endpoint := Some(ep))
    case _ => r
  }

  /** `authHandler.ServeHTTP`. */
  function ServeHTTP(h: Handler, req: Request): (o: Outcome)
    ensures EndpointOf(h, req).Failure? ==>
      o == Error(StatusInternalServerError, ResolutionOf(h, req).message)
    ensures EndpointOf(h, req).Success? ==>
      var acc := AccountOf(h, req);
      var res := ResourceFor(h.servicePrefix, EndpointOf(h, req).value, RequestNamespace(h, req));
      var allowed := h.auth.verify(acc, res);
      && (o.Forward? <==> allowed)
      && (o == Error(StatusForbidden, "Forbidden request") <==> !allowed && |acc.id| > 0)
      && (o == Error(StatusUnauthorized, "unauthorized request") <==>
            !allowed && |acc.id| == 0 && h.auth.loginURL == "")
      && (o.Redirect? <==> !allowed && |acc.id| == 0 && h.auth.loginURL != "")
      && (o.Redirect? ==> o == Redirect(StatusTemporaryRedirect, LoginRedirect(h.net, h.auth.loginURL, req.path)))
      && (o.Forward? ==> o.request == ForwardedRequest(h, req))
  {
    var ns := RequestNamespace(h, req);
    var cred := CredentialOf(h, req);
    var acc := AccountOf(h, req);
    match EndpointOf(h, req)
    case Failure(msg) => Error(StatusInternalServerError, msg)
    case Success(ep) =>
      var res := ResourceFor(h.servicePrefix, ep, ns);
      var location := LoginRedirect(h.net, h.auth.loginURL, cred.request.path);
      Respond(Decide(h.auth.verify(acc, res), acc, h.auth.loginURL, location), ForwardedRequest(h, req))
  }

  // Properties of token extraction.

  /** A bearer header carries its token verbatim. */
  lemma BearerTokenRoundTrip(req: Request, token: string)
    requires HeaderGet(req.headers, AuthorizationKey) == BearerScheme + token
    ensures ExtractToken(req) == Credential(token, req)
  {
    assert (BearerScheme + token)[|BearerScheme|..] == token;
  }

  /** The cookie fallback writes the canonical header: extracting again from
      the rewritten request finds the same token in the header and changes
      nothing more. */
  lemma ExtractTokenIdempotent(req: Request)
    ensures ExtractToken(ExtractToken(req).request) == ExtractToken(req)
  {
    var c := ExtractToken(req);
    if |HeaderGet(req.headers, AuthorizationKey)| == 0 && TokenCookieName in req.cookies {
      assert HeaderGet(c.request.headers, AuthorizationKey) == BearerScheme + c.token;
      BearerTokenRoundTrip(c.request, c.token);
    }
  }

  /** With a non-empty `Authorization` header the cookies are never read. */
  lemma CookieIgnoredWithHeader(req: Request, cookies: map<string, string>)
    requires |HeaderGet(req.headers, AuthorizationKey)| > 0
    ensures ExtractToken(req.(cookies := cookies)).token == ExtractToken(req).token
  {
  }

  // End-to-end properties of ServeHTTP.

  /** A fatal resolver error ends the request with a 500 before the auth
      collaborator has any say: the outcome is the same whatever it is. */
  lemma FatalResolverSkipsAuth(h: Handler, req: Request, other: Auth)
    requires ResolutionOf(h, req).ResolveError?
    ensures ServeHTTP(h, req) == Error(StatusInternalServerError, ResolutionOf(h, req).message)
    ensures ServeHTTP(h.(auth := other), req) == ServeHTTP(h, req)
  {
    assert ResolutionOf(h.(auth := other), req) == ResolutionOf(h, req);
  }

  /** The sentinel resolver errors are not fatal: the resource is the bare
      service prefix on the request path, and verification decides. */
  lemma SoftResolverErrorFallsBack(h: Handler, req: Request)
    requires ResolutionOf(h, req).ErrInvalidPath? || ResolutionOf(h, req).ErrNotFound?
    ensures var res := Resource(ServiceType, h.servicePrefix, req.path, RequestNamespace(h, req));
      && (ServeHTTP(h, req).Error? ==> ServeHTTP(h, req).status != StatusInternalServerError)
      && (ServeHTTP(h, req).Forward? <==> h.auth.verify(AccountOf(h, req), res))
      && (ServeHTTP(h, req).Forward? ==> ServeHTTP(h, req).request.endpoint == req.endpoint)
  {
  }

  /** A failed inspection does not stop the request: an anonymous account
      in the request's namespace is checked, and if the policy admits it the
      request goes through. */
  lemma AnonymousAllowed(h: Handler, req: Request)
    requires h.auth.inspect(CredentialOf(h, req).token).None?
    requires EndpointOf(h, req).Success?
    requires h.auth.verify(Account("", RequestNamespace(h, req)),
      ResourceFor(h.servicePrefix, EndpointOf(h, req).value, RequestNamespace(h, req)))
    ensures ServeHTTP(h, req) == Forward(ForwardedRequest(h, req))
  {
  }

  /** An account from another namespace is not rejected for that reason:
      whenever the policy admits it, the request goes through. */
  lemma NamespaceMismatchTolerated(h: Handler, req: Request)
    requires AccountOf(h, req).namespace != RequestNamespace(h, req)
    requires EndpointOf(h, req).Success?
    requires h.auth.verify(AccountOf(h, req),
      ResourceFor(h.servicePrefix, EndpointOf(h, req).value, RequestNamespace(h, req)))
    ensures ServeHTTP(h, req).Forward?
  {
  }

  /** The request handed to the wrapped handler carries the namespace
      header, a bearer `Authorization` header when the token came from the
      cookie, the original path and cookies, and the resolved endpoint
      exactly when the resolver found one. */
  lemma ForwardedRequestShape(h: Handler, req: Request)
    requires ServeHTTP(h, req).Forward?
    ensures var fwd := ServeHTTP(h, req).request;
      && HeaderGet(fwd.headers, NamespaceKey) == RequestNamespace(h, req)
      && fwd.path == req.path && fwd.cookies == req.cookies
      && (ResolutionOf(h, req).Resolved? ==> fwd.endpoint == Some(ResolutionOf(h, req).endpoint))
      && (!ResolutionOf(h, req).Resolved? ==> fwd.endpoint == req.endpoint)
      && (|HeaderGet(req.headers, AuthorizationKey)| == 0 && TokenCookieName in req.cookies ==>
            HeaderGet(fwd.headers, AuthorizationKey) == BearerScheme + CredentialOf(h, req).token)
      && (|HeaderGet(req.headers, AuthorizationKey)| > 0 ==>
            HeaderGet(fwd.headers, AuthorizationKey) == HeaderGet(req.headers, AuthorizationKey))
  {
  }
}
