# Request authorization in the go-micro API gateway, modelled in Dafny

This project models `authHandler` from `api/server/auth/auth.go` of go-micro.
The handler runs once for each HTTP request that reaches the API frontend.
It makes one authorization decision, in four sequential steps:

1. **Namespace derivation** (`NamespaceFromRequest`). A statically
   configured namespace is used as is. In `domain` mode the tenant comes
   from the host name. Local hosts, hosts without a subdomain and hosts
   under `micro.mu` map to the default namespace `go.micro`. Every other
   host's subdomain labels are reversed, so `team.project.example.com`
   becomes `project.team`.
2. **Credential extraction**. A bearer `Authorization` header wins. Any
   other non-empty header yields no token. Only a request without that
   header falls back to the `micro-token` cookie, and the cookie's token is
   then written back as a bearer header.
3. **Resource construction**. The resolver maps the request to an
   endpoint. "Invalid path" and "not found" fall back to a path-only
   endpoint; any other error ends the request with a 500. The resource is
   named `prefix` or `prefix.name`, and its endpoint is the path, or the
   method when the path is empty.
4. **Decision**. Verification success forwards the request. Otherwise a
   known account gets 403, and an anonymous one gets 401, or a 307 to the
   login URL when one is configured.

Collaborators are fields of function type. These are the account
inspection, policy verification, login URL, path resolver, IP parsing,
host/port splitting, public-suffix lookup and query escaping. Everything
else is pure functions over immutable records. The single loop in the
source, the in-place swap that reverses the subdomain components, is the
method `Sequences.SwapReverse`, proved equal to the reference `Reverse`.

Files:
- `wrappers.dfy`: `Option` and `Result`.
- `strings.dfy`: the Go `strings` functions used (prefix/suffix trimming,
  `Split`, `Join`) and the split/join round trips.
- `sequences.dfy`: `Reverse`, the swap loop, and the fact that reversal is
  an involution.
- `types.dfy`: requests, accounts, endpoints, resources, the resolver's
  outcomes, the collaborators, and the `auth` package constants
  (`Bearer `, `micro-token`, `go.micro`, `Micro-Namespace`).
- `namespace.dfy`: namespace derivation.
- `handler.dfy`: token extraction, account fallback, endpoint fallback,
  resource naming, the decision, and `ServeHTTP` end to end.

The `auth` and `resolver` packages are not part of this model. The four
constants above carry the values the go-micro `auth` package gives them.

## Model

| member | source | states |
|---|---|---|
| Namespace.HostOf | api/server/auth/auth.go:142-150 | Domain mode removes the port. A non-empty `URL.Hostname()` is used as is. Otherwise the host part split off `req.Host` is used. `req.Host` itself is used when it has no port, and the empty string when splitting fails for another reason. |
| Namespace.IsLocal | api/server/auth/auth.go:152-160 | A host that parses as an IP address, `localhost` or `127.0.0.1` is local. Any other local host parses as an IP address. |
| Namespace.NamespaceFromRequest | api/server/auth/auth.go:135-185 | Outside `domain` mode the configured namespace comes back unchanged. In domain mode, IP/localhost/127.0.0.1 hosts, a failed public-suffix lookup, a host equal to its registrable domain, and the registrable domain `micro.mu` all give `go.micro`. Otherwise the result's dot-components are exactly the reverse of the subdomain's, and reversing them again and joining gives back the subdomain. |
| Namespace.ReverseLabels | api/server/auth/auth.go:175-184 | The result's components are the reverse of the subdomain's components, and reversing and rejoining them recovers the subdomain. |
| Namespace.ReverseLabelsInvolutive | api/server/auth/auth.go:178-184 | Reversing the labels twice gives back the original subdomain. |
| Namespace.ReverseLabelsSingle | api/server/auth/auth.go:178-184 | A subdomain with no dot is returned as is. |
| Namespace.ReverseLabelsComponents | api/server/auth/auth.go:179-184 | Joining the reversed components and splitting again yields the reversed components, and reversing those gives back the originals. |
| Namespace.ReverseLabelsPair | api/server/auth/auth.go:176-184 | Two dot-free labels `a.b` become `b.a`. |
| Namespace.NamespaceTwoLabels | api/server/auth/auth.go:162-184 | In domain mode, host `a.b.<domain>` with dot-free labels, whose registrable domain is `<domain>` (not `micro.mu`), gives namespace `b.a`. |
| Namespace.NamespaceExample | api/server/auth/auth.go:162-184 | `team.project.example.com` with registrable domain `example.com` gives namespace `project.team`. |
| Sequences.SwapReverse | api/server/auth/auth.go:179-183 | The swap loop from `len/2-1` down to 0 keeps the length, and its result is exactly the reversed sequence. |
| Sequences.Reverse | api/server/auth/auth.go:179-183 | Reversal keeps the length and puts element `len-1-k` at position `k`. |
| Sequences.ReverseInvolutive | api/server/auth/auth.go:179-183 | Reversing twice gives back the original sequence. |
| Strings.Split | api/server/auth/auth.go:179 | Splitting on `.` gives at least one component, and no component contains a dot. |
| Strings.JoinEnds | api/server/auth/auth.go:184 | `strings.Join` of no components is empty. Otherwise the result starts with the first component and ends with the last, and with two or more components it contains the separator. |
| Strings.JoinSplit | api/server/auth/auth.go:179-184 | Joining the components of a split gives back the string. |
| Strings.SplitJoin | api/server/auth/auth.go:179-184 | Splitting the join of dot-free components gives back the components. |
| Strings.TrimSuffix | api/server/auth/auth.go:176 | When the host ends in `.domain`, the result followed by `.domain` is the host. Otherwise the host is unchanged. |
| Strings.TrimPrefix | api/server/auth/auth.go:56 | When the value starts with the prefix, the prefix followed by the result is the value. Otherwise the value is unchanged. |
| AuthTypes.HeaderGet | api/server/auth/auth.go:48 | `Header.Get` gives the stored value, or the empty string when the header is absent. |
| AuthTypes.SetHeader | api/server/auth/auth.go:44 | After `Header.Set`, the key holds exactly the new value. Every other header, and every other part of the request, is unchanged. |
| Handler.ExtractToken | api/server/auth/auth.go:46-59 | A non-empty header leaves the request untouched. With the bearer scheme, scheme plus token equals the header; with another scheme the token is empty. Without a header, the cookie is read: `micro-token=` plus the token is the cookie value if it has that prefix, else the token is the value, and the request gains `Authorization: Bearer <token>`. With neither, the token is empty and the request unchanged. |
| Handler.BearerTokenRoundTrip | api/server/auth/auth.go:48-52 | A header `Bearer <t>` yields exactly `t` and leaves the request unchanged. |
| Handler.ExtractTokenIdempotent | api/server/auth/auth.go:53-58 | Extracting again from the rewritten request gives the same token and request. The header written by the cookie fallback is read back as the same bearer token. |
| Handler.CookieIgnoredWithHeader | api/server/auth/auth.go:48-53 | With a non-empty `Authorization` header, no change to the cookies changes the token. |
| Handler.AccountFor | api/server/auth/auth.go:61-67 | A successful inspection gives its account. A failed one gives an anonymous account (empty id) in the request's namespace. |
| Handler.NamespaceMismatchTolerated | api/server/auth/auth.go:69-74 | An account from another namespace that the policy admits is forwarded, so the namespace mismatch never rejects. |
| Handler.AnonymousAllowed | api/server/auth/auth.go:61-113 | When inspection fails and the policy admits the anonymous account, the request is forwarded. |
| Handler.EndpointFor | api/server/auth/auth.go:76-84 | A resolved endpoint is used as is. Invalid-path and not-found give an endpoint with empty name and method and the request path. Any other error is fatal and keeps its message. |
| Handler.FatalResolverSkipsAuth | api/server/auth/auth.go:77-84 | A non-sentinel resolver error gives a 500 with the error text. The outcome is the same whatever the auth collaborator is, so neither Inspect's result nor Verify decides anything. |
| Handler.SoftResolverErrorFallsBack | api/server/auth/auth.go:77-109 | After a sentinel error the request never gets a 500, whatever its path, including the empty path. It is forwarded exactly when Verify admits the resource named by the bare prefix with the request path as endpoint. No endpoint is attached to its context. |
| Handler.ResourceName | api/server/auth/auth.go:92-96 | The name starts with the prefix. It equals the prefix exactly when the endpoint name is empty, and is `prefix.name` otherwise. |
| Handler.ResourceNameRoundTrip | api/server/auth/auth.go:92-96 | The endpoint name can be read back from the resource name. |
| Handler.ResourceNameInjective | api/server/auth/auth.go:92-96 | Under one prefix, distinct endpoint names give distinct resource names. |
| Handler.ResourceFor | api/server/auth/auth.go:98-108 | The type is `service` and the namespace is the request's. The name is the prefixed endpoint name. The endpoint is the path when non-empty, else the method. |
| Handler.LoginRedirect | api/server/auth/auth.go:129-131 | The location is the login URL, then `?redirect_to=`, then the escaped request path. |
| Handler.Decide | api/server/auth/auth.go:106-127 | Each outcome holds exactly under its condition. Allow iff verified; Forbidden iff not verified with an id; Unauthorized iff not verified, anonymous and no login URL; RedirectToLogin iff not verified, anonymous and a login URL is set. |
| Handler.Respond | api/server/auth/auth.go:109-132 | Each decision maps to exactly one response. Allow forwards; Forbidden is 403 `Forbidden request`; Unauthorized is 401 `unauthorized request`; RedirectToLogin is a 307 to its location. |
| Handler.ServeHTTP | api/server/auth/auth.go:41-133 | A fatal resolver error gives a 500 with its text. Otherwise, with the account and resource the pipeline builds, each condition holds exactly when its outcome occurs. Forward iff Verify succeeds; 403 iff it fails for an account with an id; 401 iff it fails for an anonymous account with no login URL; a 307 to `loginURL?redirect_to=<escaped path>` iff Verify fails for an anonymous account and a login URL is set. A forward carries the rewritten request. |
| Handler.ForwardedRequest | api/server/auth/auth.go:85-90 | The request handed on is the rewritten request. Its headers and path are kept, and the resolved endpoint is attached to its context only when the resolver succeeded. |
| Handler.ForwardedRequestShape | api/server/auth/auth.go:41-90 | A forwarded request has the namespace header, the original path and cookies, and the original `Authorization` header if it had one. A token taken from the cookie appears as the bearer header. The resolved endpoint is in the context exactly when the resolver found one. |

## Left out

- HTTP plumbing: the response writer, `http.Error`'s trailing newline, and
  `req.Clone`. The outcome is a value (`Forward`, `Error`, `Redirect`), and
  the forwarded request is the rewritten request.
- `http.Redirect` makes a relative location absolute against the request
  path. The model keeps the location as built.
- Logging at lines 72, 82 and 165. It has no behavioural effect.
- `net.ParseIP`, `net.SplitHostPort` (including the match on its "missing
  port in address" message), `publicsuffix.EffectiveTLDPlusOne` and
  `url.QueryEscape` are uninterpreted functions. `URL.Hostname()` is an
  input field. `url.Values.Encode` on the single key `redirect_to` is
  modelled as `redirect_to=` followed by the escaped path.
- The go-micro `auth` collaborator (`Inspect`, `Verify`,
  `Options().LoginURL`) and `resolver.Resolve` are inputs. Only an
  account's id and namespace, and an endpoint's name, method and path, are
  modelled. The other fields are not read by this file. `Verify` is
  therefore given only an account's id and namespace. A real `Verify` may
  also look at the roles and metadata `Inspect` returned; the model folds
  those away. No proved property depends on them.
- `CombinedAuthHandler` (lines 19-31) only wires the handler to
  `auth.DefaultAuth` and a default path resolver. A `Handler` value is
  built directly instead.
- Headers are a map from canonical name to first value. Go's header-name
  canonicalisation and multi-valued headers are not modelled.
