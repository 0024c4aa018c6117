/** The two request handlers of the service. */
module Handlers {
  import opened Prelude
  import opened Net
  import opened Http
  import opened Resolver

  /** `default_handler` for `GET /`: the resolved client address in display
      form, with the transport peer's address (not its port) as the
      fallback. */
  function DefaultHandler(headers: HeaderMap, peer: SocketAddr, v6: Ipv6Syntax): (body: string)
  {
    DisplayIp(ExtractClientIp(headers, peer.ip, v6), v6)
  }

  /** The IPv6 display form is read back by the address parser. */
  ghost predicate DisplayParsesBack(v6: Ipv6Syntax) {
    forall x :: ParseIp(v6.render(x), v6) == Some(V6(x))
  }

  /** The body of `GET /` parses back to the resolved address: for IPv4
      always, for IPv6 whenever the IPv6 display form does. */
  lemma DefaultHandlerParsesBack(headers: HeaderMap, peer: SocketAddr, v6: Ipv6Syntax)
    requires ExtractClientIp(headers, peer.ip, v6).V4? || DisplayParsesBack(v6)
    ensures ParseIp(DefaultHandler(headers, peer, v6), v6) == Some(ExtractClientIp(headers, peer.ip, v6))
  {
    match ExtractClientIp(headers, peer.ip, v6)
    case V4(a) => ParseFormatIpv4(a, v6);
    case V6(x) =>
  }

  /** Without any recognised header the body is the peer's own address in
      display form, whatever its port. */
  lemma DefaultHandlerShowsPeer(headers: HeaderMap, peer: SocketAddr, v6: Ipv6Syntax)
    requires forall k :: 0 <= k < |Names| ==> Names[k] !in headers
    ensures DefaultHandler(headers, peer, v6) == DisplayIp(peer.ip, v6)
  {
    NoHeadersGiveFallback(headers, peer.ip, v6);
  }

  /** `livez_handler` for `GET /livez`: a fixed text, independent of the
      request and of the resolver. */
  function LivezHandler(): (body: string)
    ensures body == "Healthy"
  {
    "Healthy"
  }

  /** The health text can never be mistaken for a resolved address. */
  lemma LivezIsNotAnAddress(v6: Ipv6Syntax)
    requires WellFormed(v6)
    ensures ParseIp(LivezHandler(), v6).None?
  {
    NoLeadingOctetIsNotAddress(LivezHandler(), v6);
  }
}
