/** The records of types.go that routing works on. */
module Types {
  import opened Prelude

  datatype Upstream = Upstream(address: string, weight: int, healthy: bool, nodeName: string)

  /** The protocol strings, the four known ones told apart. */
  datatype Protocol = HTTP | HTTPS | TCP | TLSPassthrough | OtherProtocol(name: string)

  function ToProtocol(s: string): Protocol {
    match s
    case "http" => HTTP
    case "https" => HTTPS
    case "tcp" => TCP
    case "tls-passthrough" => TLSPassthrough
    case _ => OtherProtocol(s)
  }

  datatype RouteDefinition = RouteDefinition(
    serviceName: string, protocol: Protocol, host: string, path: string, port: int,
    priority: int, weight: int, stripPrefix: bool, enabled: bool, upstreams: seq<Upstream>,
    via: string, redirectCode: int, redirectURL: string, redirectNoCache: bool,
    noCacheStatusRaw: string, hasNoCacheStatus: bool, tagValues: map<string, string>)
  {
    predicate IsRedirect() { redirectCode > 0 && redirectURL != "" }

    predicate IsHTTP() { protocol == HTTP || protocol == HTTPS }

    predicate IsTCP() { protocol == TCP || protocol == TLSPassthrough }
  }

  datatype HTTPRoute = HTTPRoute(
    host: string, path: string, upstreams: seq<Upstream>, stripPrefix: bool, serviceName: string,
    via: string, redirectCode: int, redirectURL: string, redirectNoCache: bool,
    noCacheMatcher: Option<string>, noCacheOptOut: bool, tagValues: map<string, string>)

  datatype TCPRoute = TCPRoute(
    port: int, sni: string, upstreams: seq<Upstream>, passthrough: bool, serviceName: string)
}
