/** `authHandler.NamespaceFromRequest`: the tenant a request belongs to,
    either configured statically or derived from the request's domain. */
module Namespace {
  import opened Wrappers
  import opened Strings
  import opened Sequences
  import opened AuthTypes

  /** The configured namespace that switches on domain derivation. */
  const DomainMode := "domain"

  /** The registrable domain whose hosts all map to the default namespace. */
  const RootDomain := "micro.mu"

  /** The host of the request without its port: `URL.Hostname()` when that
      is non-empty, else the host part of `req.Host`, else `req.Host` itself
      when it carries no port, else the empty string. */
  function HostOf(net: Net, req: Request): (host: string)
    ensures |req.urlHostname| > 0 ==> host == req.urlHostname
    ensures |req.urlHostname| == 0 && net.splitHostPort(req.host).HostPort? ==>
      host == net.splitHostPort(req.host).host
    ensures |req.urlHostname| == 0 && net.splitHostPort(req.host).MissingPort? ==>
      host == req.host
    ensures |req.urlHostname| == 0 && net.splitHostPort(req.host).AddrError? ==>
      host == ""
  {
    if |req.urlHostname| > 0 then req.urlHostname
    else match net.splitHostPort(req.host)
      case HostPort(h) => h
      case MissingPort => req.host
      case AddrError => ""
  }

  /** Hosts that stand for a development machine rather than a tenant. */
  predicate IsLocal(net: Net, host: string)
    ensures net.parseIP(host) ==> IsLocal(net, host)
    ensures host == "localhost" || host == "127.0.0.1" ==> IsLocal(net, host)
    ensures IsLocal(net, host) && !net.parseIP(host) ==> host in {"localhost", "127.0.0.1"}
  {
    net.parseIP(host) || host == "localhost" || host == "127.0.0.1"
  }

  /** The subdomain of `host` under its registrable `domain`. */
  function Subdomain(host: string, domain: string): string {
    TrimSuffix(host, "." + domain)
  }

  /** The subdomain's dot-separated labels in reverse order, dot-joined.
      `Reverse` is what the swap loop `SwapReverse` computes. */
  function ReverseLabels(subdomain: string): (ns: string)
    ensures Split(ns, '.') == Reverse(Split(subdomain, '.'))
    ensures Join(Reverse(Split(ns, '.')), '.') == subdomain
  {
    var comps := Split(subdomain, '.');
    ReverseLabelsComponents(comps);
    JoinSplit(subdomain, '.');
    Join(Reverse(comps), '.')
  }

  /** Joining the reversed components and splitting again gives the
      reversed components, which reverse back to the originals. */
  lemma ReverseLabelsComponents(comps: seq<string>)
    requires |comps| >= 1
    requires SeparatorFree(comps, '.')
    ensures Split(Join(Reverse(comps), '.'), '.') == Reverse(comps)
    ensures Reverse(Split(Join(Reverse(comps), '.'), '.')) == comps
  {
    var rev := Reverse(comps);
    assert SeparatorFree(rev, '.') by {
      forall i | 0 <= i < |rev| ensures '.' !in rev[i] {
        assert rev[i] == comps[|comps| - 1 - i];
      }
    }
    SplitJoin(rev, '.');
    ReverseInvolutive(comps);
  }

  /** Reversing the labels twice gives back the subdomain. */
  lemma ReverseLabelsInvolutive(subdomain: string)
    ensures ReverseLabels(ReverseLabels(subdomain)) == subdomain
  {
    var ns := ReverseLabels(subdomain);
    assert ReverseLabels(ns) == Join(Reverse(Split(ns, '.')), '.');
  }

  /** A subdomain with a single label is its own namespace. */
  lemma ReverseLabelsSingle(subdomain: string)
    requires '.' !in subdomain
    ensures ReverseLabels(subdomain) == subdomain
  {
    SplitSingle(subdomain, '.');
    ReverseShort([subdomain]);
  }

  /** The namespace for `req` under the configured namespace `configured`. */
  function NamespaceFromRequest(configured: string, net: Net, req: Request): (ns: string)
    ensures configured != DomainMode ==> ns == configured
    ensures configured == DomainMode && IsLocal(net, HostOf(net, req)) ==>
      ns == DefaultNamespace
    ensures configured == DomainMode && net.effectiveTLDPlusOne(HostOf(net, req)).None? ==>
      ns == DefaultNamespace
    ensures configured == DomainMode && net.effectiveTLDPlusOne(HostOf(net, req)).Some? ==>
      var host := HostOf(net, req);
      var domain := net.effectiveTLDPlusOne(host).value;
      if IsLocal(net, host) || domain == host || domain == RootDomain then
        ns == DefaultNamespace
      else
        && Split(ns, '.') == Reverse(Split(Subdomain(host, domain), '.'))
        && Join(Reverse(Split(ns, '.')), '.') == Subdomain(host, domain)
  {
    if configured != DomainMode then configured
    else
      var host := HostOf(net, req);
      if IsLocal(net, host) then DefaultNamespace
      else match net.effectiveTLDPlusOne(host)
        case None => DefaultNamespace
        case Some(domain) =>
          if domain == host || domain == RootDomain then DefaultNamespace
          else ReverseLabels(Subdomain(host, domain))
  }

  /** Two labels swap places. */
  lemma ReverseLabelsPair(a: string, b: string)
    requires '.' !in a && '.' !in b
    ensures ReverseLabels(a + "." + b) == b + "." + a
  {
    SplitSingle(b, '.');
    SplitAtSeparator(a, b, '.');
    var rev := Reverse(Split(a + "." + b, '.'));
    assert rev == [b, a];
    var ns := ReverseLabels(a + "." + b);
    JoinSplit(ns, '.');
    assert Join([b, a], '.') == b + "." + a;
  }

  /** A host of two dot-free labels under its registrable domain maps to
      the two labels in reverse order. */
  lemma NamespaceTwoLabels(net: Net, req: Request, a: string, b: string, domain: string)
    requires req.urlHostname == a + "." + b + "." + domain
    requires '.' !in a && '.' !in b
    requires !IsLocal(net, req.urlHostname)
    requires net.effectiveTLDPlusOne(req.urlHostname) == Some(domain)
    requires domain != RootDomain
    ensures NamespaceFromRequest(DomainMode, net, req) == b + "." + a
  {
    var host := req.urlHostname;
    assert host == (a + "." + b) + ("." + domain);
    assert Subdomain(host, domain) == a + "." + b;
    ReverseLabelsPair(a, b);
  }

  /** The worked example: `team.project.example.com`, registrable domain
      `example.com`, is namespace `project.team`. */
  lemma NamespaceExample(net: Net, req: Request)
    requires req.urlHostname == "team.project.example.com"
    requires !net.parseIP(req.urlHostname)
    requires net.effectiveTLDPlusOne(req.urlHostname) == Some("example.com")
    ensures NamespaceFromRequest(DomainMode, net, req) == "project.team"
  {
    assert req.urlHostname == "team" + "." + "project" + "." + "example.com";
    assert "project.team" == "project" + "." + "team";
    NamespaceTwoLabels(net, req, "team", "project", "example.com");
  }
}
