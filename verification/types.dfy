/** The records the authorization handler reads and builds, the constants of
    the auth package it uses, and the opaque collaborators it consults. */
module AuthTypes {
  import opened Wrappers

  /** Constants of the go-micro `auth` package. */
  const BearerScheme := "Bearer "
  const TokenCookieName := "micro-token"
  const DefaultNamespace := "go.micro"
  const NamespaceKey := "Micro-Namespace"

  /** Canonical name of the header that carries the credential. */
  const AuthorizationKey := "Authorization"

  /** Type of every resource the handler asks about. */
  const ServiceType := "service"

  /** An identity returned by `Inspect`; the empty `id` means "nobody". */
  datatype Account = Account(id: string, namespace: string)

  /** The resolver's view of a request: logical service name, method (an
      RPC method name or an HTTP verb, depending on the resolver; the
      source's `Method`) and path. */
  datatype Endpoint = Endpoint(name: string, methodName: string, path: string)

  /** The subject of a policy check. `kind` is the source's `Type`. */
  datatype Resource = Resource(kind: string, name: string, endpoint: string, namespace: string)

  /** The parts of an HTTP request the handler reads or writes. Headers map
      a canonical header name to its first value; cookies map a cookie name
      to its value. `urlHostname` is what `URL.Hostname()` returns, `host`
      is the raw `Host` field, and `endpoint` is the resolved endpoint
      attached to the request's context, if any. */
  datatype Request = Request(
    host: string,
    urlHostname: string,
    path: string,
    headers: map<string, string>,
    cookies: map<string, string>,
    endpoint: Option<Endpoint>)

  /** `Header.Get`: the value stored under `key`, or "" when there is none. */
  function HeaderGet(headers: map<string, string>, key: string): (value: string)
    ensures key in headers ==> value == headers[key]
    ensures key !in headers ==> value == ""
  {
    if key in headers then headers[key] else ""
  }

  /** `Header.Set`: the request with `key` holding exactly `value`. */
  function SetHeader(req: Request, key: string, value: string): (r: Request)
    ensures HeaderGet(r.headers, key) == value
    ensures forall k :: k != key ==> HeaderGet(r.headers, k) == HeaderGet(req.headers, k)
    ensures r.host == req.host && r.urlHostname == req.urlHostname && r.path == req.path
    ensures r.cookies == req.cookies && r.endpoint == req.endpoint
  {
    req.(headers := req.headers[key := value])
  }

  /** Outcome of `resolver.Resolve`: an endpoint, one of the two sentinel
      errors, or any other error with its message. */
  datatype Resolution =
    | Resolved(endpoint: Endpoint)
    | ErrInvalidPath
    | ErrNotFound
    | ResolveError(message: string)

  /** Outcome of `net.SplitHostPort`: the host part, the "missing port in
      address" error, or any other error. */
  datatype HostPortSplit = HostPort(host: string) | MissingPort | AddrError

  /** Library functions the handler calls but whose internals are not part
      of this model.
      - `parseIP(h)` is `net.ParseIP(h) != nil`;
      - `effectiveTLDPlusOne(h)` is `publicsuffix.EffectiveTLDPlusOne(h)`,
        `None` when it returns an error;
      - `queryEscape` is `url.QueryEscape`, which `url.Values.Encode`
        applies to keys and values. */
  datatype Net = Net(
    parseIP: string -> bool,
    splitHostPort: string -> HostPortSplit,
    effectiveTLDPlusOne: string -> Option<string>,
    queryEscape: string -> string)

  /** The auth collaborator: `Inspect` (`None` when it returns an error),
      `Verify` (true when it returns nil) and the configured login URL. */
  datatype Auth = Auth(
    inspect: string -> Option<Account>,
    verify: (Account, Resource) -> bool,
    loginURL: string)

  /** An `authHandler`: its configuration and collaborators. */
  datatype Handler = Handler(
    servicePrefix: string,
    namespace: string,
    auth: Auth,
    resolve: Request -> Resolution,
    net: Net)
}
