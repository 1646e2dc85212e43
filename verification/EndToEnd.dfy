/** From route definitions and the bytes of a ClientHello to the upstream: the compiler,
    the TCP table, the parser and the proxy taken together. */
module EndToEnd {
  import opened Prelude
  import opened Bytes
  import opened Types
  import opened Compiler
  import opened CompilerProofs
  import opened TcpTable
  import opened TcpSni
  import opened TcpProxy
  import HelloLayout
  import Grouping

  lemma {:induction false} HealthyIsAllHealthy(ups: seq<Upstream>)
    ensures HealthyCount(Healthy(ups)) == |Healthy(ups)|
    ensures forall i | 0 <= i < |Healthy(ups)| :: Healthy(ups)[i].healthy
  {
    if ups != [] {
      var n := |ups| - 1;
      HealthyIsAllHealthy(ups[..n]);
      if ups[n].healthy { TotalSnoc(Healthy(ups[..n]), ups[n]); }
      else { assert Healthy(ups) == Healthy(ups[..n]); }
    }
  }

  predicate ServableTCP(r: TCPRoute) { r.upstreams != [] && HealthyCount(r.upstreams) == |r.upstreams| }

  predicate ServableHTTP(r: HTTPRoute) {
    if r.redirectCode > 0 && r.redirectURL != "" then r.upstreams == []
    else r.redirectCode == 0 && r.upstreams != [] && forall u | u in r.upstreams :: u.healthy
  }

  /** Every compiled TCP route can be proxied: it has upstreams and all are healthy. */
  lemma CompiledTcpServable(parse: StatusParser, s: seq<RouteDefinition>)
    ensures forall i | 0 <= i < |Compiled(parse, s).tcpRoutes| :: ServableTCP(Compiled(parse, s).tcpRoutes[i])
  {
    hide Winners, Healthy, HealthyCount;
    var kept := Keep(Winners(s, Tcp), ServedIn(Tcp));
    forall i | 0 <= i < |kept|
      ensures ServableTCP(Compiled(parse, s).tcpRoutes[i])
    {
      assert ServedIn(Tcp)(kept[i]);
      HealthyIsAllHealthy(kept[i].upstreams);
    }
  }

  /** Every compiled HTTP route is a redirect without upstreams, or has upstreams that are
      all healthy. */
  lemma CompiledHttpServable(parse: StatusParser, s: seq<RouteDefinition>)
    ensures forall i | 0 <= i < |Compiled(parse, s).httpRoutes| :: ServableHTTP(Compiled(parse, s).httpRoutes[i])
  {
    hide Winners, Healthy;
    var kept := Keep(Winners(s, Http), ServedIn(Http));
    forall i | 0 <= i < |kept|
      ensures ServableHTTP(Compiled(parse, s).httpRoutes[i])
    {
      assert ServedIn(Http)(kept[i]);
      HealthyIsAllHealthy(kept[i].upstreams);
    }
  }

  /** A compiled HTTP route with what its definition says. */
  predicate ServesHTTP(parse: StatusParser, c: HTTPRoute, w: RouteDefinition) {
    && c.host == w.host && c.path == w.path && c.serviceName == w.serviceName && c.via == w.via
    && c.stripPrefix == w.stripPrefix && c.tagValues == w.tagValues
    && (c.noCacheOptOut <==> w.hasNoCacheStatus && w.noCacheStatusRaw == "")
    && c.noCacheMatcher == (if w.hasNoCacheStatus && w.noCacheStatusRaw != "" then parse(w.noCacheStatusRaw) else None)
    && (if w.IsRedirect()
        then c.redirectCode == w.redirectCode && c.redirectURL == w.redirectURL
             && c.redirectNoCache == w.redirectNoCache && c.upstreams == []
        else c.redirectCode == 0 && c.redirectURL == "" && !c.redirectNoCache && c.upstreams == Healthy(w.upstreams))
  }

  predicate ServesTCP(c: TCPRoute, w: RouteDefinition) {
    && c.port == w.port && c.sni == w.host && c.serviceName == w.serviceName
    && (c.passthrough <==> w.protocol == TLSPassthrough)
    && c.upstreams == Healthy(w.upstreams)
  }

  // ----- Exactly which keys are served ---------------------------------------------

  /** The definition's protocol is of the family. */
  predicate OfFamily(kind: Kind, r: RouteDefinition) {
    if kind == Http then r.protocol == HTTP || r.protocol == HTTPS else r.protocol == TCP || r.protocol == TLSPassthrough
  }

  /** The definition at `i` is the first one in the list that claims the key. */
  ghost predicate FirstClaims(s: seq<RouteDefinition>, kind: Kind, k: string, i: nat) {
    && i < |s| && OfFamily(kind, s[i]) && Key(kind, s[i]) == k
    && forall j | 0 <= j < i && OfFamily(kind, s[j]) :: Key(kind, s[j]) != k
  }

  lemma WinnerFirstClaims(s: seq<RouteDefinition>, kind: Kind, k: string, w: RouteDefinition)
    ensures WinnerFor(s, kind, k) == Some(w) <==> exists i: nat :: FirstClaims(s, kind, k, i) && s[i] == w
  {
    hide Key, First;
    if WinnerFor(s, kind, k).Some? {
      var i := FirstIn(s, Claiming(kind, k));
      assert FirstClaims(s, kind, k, i);
    }
    forall i: nat | FirstClaims(s, kind, k, i)
      ensures WinnerFor(s, kind, k) == Some(s[i])
    {
      assert Claiming(kind, k)(s[i]) && forall j | 0 <= j < i :: !Claiming(kind, k)(s[j]);
      FirstAt(s, Claiming(kind, k), i);
    }
  }

  /** Such a claimant can be served: it is an HTTP redirect, or has a healthy upstream. */
  predicate Serveable(kind: Kind, r: RouteDefinition) {
    || (kind == Http && r.redirectCode > 0 && r.redirectURL != "")
    || exists i | 0 <= i < |r.upstreams| :: r.upstreams[i].healthy
  }

  lemma ServeableExactly(kind: Kind, r: RouteDefinition)
    ensures Served(kind, r) <==> Serveable(kind, r)
  {
    hide Keep;
    KeepSome(r.upstreams, IsHealthy);
  }

  ghost predicate HttpKeyIn(rs: seq<HTTPRoute>, k: string) {
    exists i | 0 <= i < |rs| :: HttpRouteKey(rs[i].host, rs[i].path) == k
  }

  ghost predicate TcpKeyIn(rs: seq<TCPRoute>, k: string) {
    exists i | 0 <= i < |rs| :: TcpRouteKey(rs[i].port, rs[i].sni) == k
  }

  /** The compiled configuration has a route for a key exactly if the first definition that
      claims it is a redirect or has an upstream that is healthy; one is enough. */
  lemma KeyServedExactly(parse: StatusParser, s: seq<RouteDefinition>, k: string)
    ensures HttpKeyIn(Compiled(parse, s).httpRoutes, k) <==>
            exists i: nat :: FirstClaims(s, Http, k, i) && Serveable(Http, s[i])
    ensures TcpKeyIn(Compiled(parse, s).tcpRoutes, k) <==>
            exists i: nat :: FirstClaims(s, Tcp, k, i) && Serveable(Tcp, s[i])
  {
    hide Serveable, Key, OfFamily;
    CompiledKeys(parse, s, k);
    hide Compiled;
    forall kind
      ensures KeptKey(s, kind, k) <==> exists i: nat :: FirstClaims(s, kind, k, i) && Serveable(kind, s[i])
    {
      KeptKeyExactly(s, kind, k);
    }
  }

  ghost predicate KeptKey(s: seq<RouteDefinition>, kind: Kind, k: string) {
    exists r :: r in Keep(Winners(s, kind), ServedIn(kind)) && Key(kind, r) == k
  }

  lemma CompiledKeys(parse: StatusParser, s: seq<RouteDefinition>, k: string)
    ensures HttpKeyIn(Compiled(parse, s).httpRoutes, k) <==> KeptKey(s, Http, k)
    ensures TcpKeyIn(Compiled(parse, s).tcpRoutes, k) <==> KeptKey(s, Tcp, k)
  {
    hide Winners, Keep, Healthy, HttpRouteKey, TcpRouteKey;
    var c := Compiled(parse, s);
    var hs, ts := Keep(Winners(s, Http), ServedIn(Http)), Keep(Winners(s, Tcp), ServedIn(Tcp));
    assert forall i | 0 <= i < |hs| :: Key(Http, hs[i]) == HttpRouteKey(c.httpRoutes[i].host, c.httpRoutes[i].path);
    assert forall i | 0 <= i < |ts| :: Key(Tcp, ts[i]) == TcpRouteKey(c.tcpRoutes[i].port, c.tcpRoutes[i].sni);
    hide Key, Compiled;
    assert forall i | 0 <= i < |hs| :: hs[i] in hs;
    assert forall i | 0 <= i < |ts| :: ts[i] in ts;
  }

  lemma KeptKeyExactly(s: seq<RouteDefinition>, kind: Kind, k: string)
    ensures KeptKey(s, kind, k) <==> exists i: nat :: FirstClaims(s, kind, k, i) && Serveable(kind, s[i])
  {
    hide Winners, Keep, Key, Served, Serveable;
    KeyServed(s, kind, k);
    var winner := WinnerFor(s, kind, k);
    if winner.Some? {
      var w := winner.value;
      WinnerFirstClaims(s, kind, k, w);
      ServeableExactly(kind, w);
    }
    forall i: nat | FirstClaims(s, kind, k, i)
      ensures winner == Some(s[i])
    {
      WinnerFirstClaims(s, kind, k, s[i]);
    }
  }

  /** Warnings are for the definitions of another protocol, with their protocol and name. */
  lemma WarningsExactly(parse: StatusParser, s: seq<RouteDefinition>, protocol: Protocol, name: string)
    ensures UnknownProtocol(protocol, name) in Compiled(parse, s).warnings <==>
            exists i | 0 <= i < |s| ::
              && s[i].protocol == protocol && s[i].serviceName == name
              && protocol !in {HTTP, HTTPS, TCP, TLSPassthrough}
  {
    hide Winners, Conflicts, Keep;
    var kept, ws := Keep(s, Unknown), Compiled(parse, s).warnings;
    assert ws == Image(kept, ToWarning);
    hide Compiled;
    if UnknownProtocol(protocol, name) in ws {
      var i :| 0 <= i < |ws| && ws[i] == UnknownProtocol(protocol, name);
      Grouping.KeepMembers(s, Unknown, kept[i]);
    }
    if i :| 0 <= i < |s| && s[i].protocol == protocol && s[i].serviceName == name && Unknown(s[i]) {
      Grouping.KeepMembers(s, Unknown, s[i]);
      var j :| 0 <= j < |kept| && kept[j] == s[i];
      assert ws[j] == UnknownProtocol(protocol, name);
    }
  }

  /** The upstreams of a compiled route: the healthy ones of its definition and no other,
      each as often as there. */
  lemma HealthyCounts(ups: seq<Upstream>, u: Upstream)
    ensures multiset(Healthy(ups))[u] == if u.healthy then multiset(ups)[u] else 0
  {
    KeepCount(ups, IsHealthy, u);
  }

  lemma KeptIsWinner(s: seq<RouteDefinition>, kind: Kind, i: nat)
    ensures var kept := Keep(Winners(s, kind), ServedIn(kind));
            i < |kept| ==> WinnerFor(s, kind, Key(kind, kept[i])) == Some(kept[i])
  {
    hide Winners, Keep, Key, InKind, WinnerFor;
    var kept := Keep(Winners(s, kind), ServedIn(kind));
    if i < |kept| {
      assert kept[i] in multiset(kept);
      KeepCount(Winners(s, kind), ServedIn(kind), kept[i]);
      WinnersCount(s, kind, kept[i]);
    }
  }

  /** A compiled HTTP route serves its key for the route definition that won it: its
      fields, and the healthy ones of its upstreams in their order. */
  lemma CompiledHttpIsWinner(parse: StatusParser, s: seq<RouteDefinition>, i: nat)
    ensures var rs := Compiled(parse, s).httpRoutes;
            i < |rs| ==>
              var w := WinnerFor(s, Http, HttpRouteKey(rs[i].host, rs[i].path));
              w.Some? && ServesHTTP(parse, rs[i], w.value)
  {
    hide Winners, Keep, WinnerFor, HttpRouteKey;
    var kept := Keep(Winners(s, Http), ServedIn(Http));
    KeptIsWinner(s, Http, i);
    if i < |kept| {
      var c := Compiled(parse, s).httpRoutes[i];
      assert c == ToHTTP(parse, kept[i]);
      assert ServesHTTP(parse, c, kept[i]);
    }
  }

  /** Likewise for TCP. */
  lemma CompiledTcpIsWinner(parse: StatusParser, s: seq<RouteDefinition>, i: nat)
    ensures var rs := Compiled(parse, s).tcpRoutes;
            i < |rs| ==>
              var w := WinnerFor(s, Tcp, TcpRouteKey(rs[i].port, rs[i].sni));
              w.Some? && ServesTCP(rs[i], w.value)
  {
    hide Winners, Keep, WinnerFor, TcpRouteKey;
    var kept := Keep(Winners(s, Tcp), ServedIn(Tcp));
    KeptIsWinner(s, Tcp, i);
    if i < |kept| {
      assert Compiled(parse, s).tcpRoutes[i] == ToTCP(kept[i]);
    }
  }

  lemma {:induction false} TwoSignatures(all: seq<Grouping.InstanceRoute>)
    requires |all| == 2 && Grouping.Signature(all[0].route) != Grouping.Signature(all[1].route)
    ensures Grouping.SigOrder(all) == [Grouping.Signature(all[0].route), Grouping.Signature(all[1].route)]
  {
    hide Grouping.Signature;
    assert all[..1] == [all[0]] && [all[0]][..0] == [];
    assert Grouping.SigOrder([all[0]]) == [Grouping.Signature(all[0].route)];
    assert !Grouping.Seen([all[0]], Grouping.Signature(all[1].route));
  }

  lemma {:induction false} FirstDeclared(all: seq<Grouping.InstanceRoute>, i: nat)
    requires |all| == 2 && i < 2 && Grouping.Signature(all[0].route) != Grouping.Signature(all[1].route)
    ensures First(all, Grouping.Signed(Grouping.Signature(all[i].route))) == Some(all[i])
  {
    hide Grouping.Signature;
    assert all[1..] == [all[1]];
  }

  /** One instance that declares a route twice, differing only in whether the prefix is
      stripped, gives its service two routes that tie at the top of one key: they are
      grouped apart, and nothing in the sort tells them apart. */
  lemma OneServiceCanTie(r: RouteDefinition, u: Upstream, routes: seq<RouteDefinition>)
    requires r.IsHTTP() && r.enabled
    requires Grouping.Matches([Grouping.InstanceRoute(r, u),
                               Grouping.InstanceRoute(r.(stripPrefix := !r.stripPrefix), u)], routes)
    ensures |routes| == 2 && TopTie(multiset(routes), Http, routes[0], routes[1])
  {
    var all := [Grouping.InstanceRoute(r, u), Grouping.InstanceRoute(r.(stripPrefix := !r.stripPrefix), u)];
    var sigs := Grouping.SigOrder(all);
    assert Grouping.Signature(all[0].route).stripPrefix != Grouping.Signature(all[1].route).stripPrefix;
    TwoSignatures(all);
    FirstDeclared(all, 0);
    FirstDeclared(all, 1);
    assert Grouping.IsEnabled(sigs[0]) && Grouping.IsEnabled(sigs[1]);
    KeepBoth(sigs, Grouping.IsEnabled);
    hide Grouping.UpstreamsFor, Grouping.SigOrder, Grouping.Signature, Grouping.Signed, Keep, First;
    assert routes[0] == r.(upstreams := routes[0].upstreams);
    assert routes[1] == r.(stripPrefix := !r.stripPrefix, upstreams := routes[1].upstreams);
    hide Grouping.Matches;
    TwoClaimantsTie(routes);
  }

  lemma KeepBoth<T>(s: seq<T>, p: T -> bool)
    requires |s| == 2 && p(s[0]) && p(s[1])
    ensures Keep(s, p) == s
  {
    assert s[..1] == [s[0]] && [s[0]][..0] == [];
    assert Keep([s[0]], p) == [s[0]];
  }

  lemma TwoClaimantsTie(routes: seq<RouteDefinition>)
    requires |routes| == 2 && routes[0] != routes[1] && Tied(routes[0], routes[1])
    requires InKind(Http, routes[0]) && InKind(Http, routes[1]) && Key(Http, routes[0]) == Key(Http, routes[1])
    ensures TopTie(multiset(routes), Http, routes[0], routes[1])
  {
    hide Key, InKind;
    assert routes == [routes[0], routes[1]];
    TiedMeansUnordered(routes[0], routes[1]);
    TiedMeansUnordered(routes[0], routes[0]);
  }

  lemma {:induction false} FirstFromList<T>(s: seq<T>, p: T -> bool)
    ensures First(s, p).Some? ==> First(s, p).value in s
  {
    if s != [] && !p(s[0]) { FirstFromList(s[1..], p); }
  }

  /** A connection that is matched at all on a compiled table is given an upstream. */
  lemma MatchedMeansProxied(parse: StatusParser, s: seq<RouteDefinition>, port: int, stream: bytes)
    ensures var answer := Answer(Compiled(parse, s).tcpRoutes, port, stream);
            answer.Some? ==> HealthyCount(answer.value.upstreams) > 0
  {
    hide Compiled, PeekSni, PeekLength, First, HealthyCount;
    var routes := Compiled(parse, s).tcpRoutes;
    var answer := Answer(routes, port, stream);
    if answer.Some? {
      var sni := SniFor(routes, port, stream);
      FirstFromList(routes, Both(Listening(port), Exact(sni)));
      FirstFromList(routes, Both(Listening(port), Wildcard(sni)));
      FirstFromList(routes, Both(Listening(port), Default()));
      CompiledTcpServable(parse, s);
    }
  }

  /** On a port with SNI routes a stream that ends before the announced record does is not
      routed at all. */
  lemma NoPeekNoRoute(routes: seq<TCPRoute>, port: int, stream: bytes, i: nat)
    requires i < |routes| && routes[i].port == port && routes[i].sni != ""
    requires |stream| < 5 || (var hi: int, lo: int := stream[3], stream[4];
                              stream[0] == 22 && 0 < hi * 256 + lo <= 16384 && |stream| < 5 + hi * 256 + lo)
    ensures Answer(routes, port, stream) == None
  {
    hide FlatScan, PeekSni;
    OnPortHas(routes, port, i);
    if |stream| >= 5 {
      var hi: int, lo: int := stream[3], stream[4];
      RecordBytes(stream, hi * 256 + lo);
    }
  }

  lemma OnPortHas(routes: seq<TCPRoute>, port: int, i: nat)
    requires i < |routes| && routes[i].port == port && routes[i].sni != ""
    ensures PortHasSNI(routes, port)
  {
    hide Keep;
    KeepCount(routes, Listening(port), routes[i]);
    assert routes[i] in multiset(OnPort(routes, port));
    var ps := OnPort(routes, port);
    var j :| 0 <= j < |ps| && ps[j] == routes[i];
  }

  /** On a port without SNI routes the first route of the port answers, whatever is sent. */
  lemma PlainPortAnswer(routes: seq<TCPRoute>, port: int, stream: bytes, i: nat)
    requires i < |routes| && routes[i].port == port && forall j | 0 <= j < i :: routes[j].port != port
    requires forall j | 0 <= j < |routes| && routes[j].port == port :: routes[j].sni == ""
    ensures Answer(routes, port, stream) == Some(routes[i])
  {
    hide FlatScan, PeekSni, PeekLength, Keep, Fit;
    var ps := OnPort(routes, port);
    forall k | 0 <= k < |ps|
      ensures ps[k].sni == ""
    {
      assert ps[k] in multiset(ps);
      KeepCount(routes, Listening(port), ps[k]);
      assert ps[k] in routes;
    }
    var p := FlatScanExactly(routes, port, "");
    FitOfPlain(routes, port, i);
  }

  lemma FitOfPlain(routes: seq<TCPRoute>, port: int, i: nat)
    requires i < |routes| && routes[i].port == port && forall j | 0 <= j < i :: routes[j].port != port
    requires forall j | 0 <= j < |routes| && routes[j].port == port :: routes[j].sni == ""
    ensures Earliest(routes, port, "", i) && FlatScan(routes, port, "") == Some(routes[i])
  {
    hide FlatScan;
    assert forall j | 0 <= j < |routes| && routes[j].port == port :: Fit(routes[j], "") == 0;
    hide Fit;
    var p := FlatScanExactly(routes, port, "");
    EarliestIsUnique(routes, port, "", i, p);
  }

  /** A TLS client that offers a host_name in a ClientHello of one record is routed by
      that name, as a plain scan of the route list would, and one that offers none by the
      empty name; what follows the record does not matter. */
  lemma RoutedByHostName(routes: seq<TCPRoute>, port: int, c: HelloLayout.Hello, version: bytes, rest: bytes)
    requires PortHasSNI(routes, port)
    requires HelloLayout.HelloOk(c) && |version| == 2
    requires |HelloLayout.EncodeHello(c)| <= 16384
    ensures var hello := HelloLayout.EncodeHello(c);
            var stream := [22] + version + U16(|hello|) + hello + rest;
            var host := HelloLayout.HostOfHello(c);
            Answer(routes, port, stream) == FlatScan(routes, port, if host.None? then "" else AsString(host.value))
  {
    hide FlatScan, PeekSni, PeekLength, HelloLayout.EncodeHello, HelloLayout.HostOfHello, U16, PortHasSNI;
    RecordRoundTrip(c, version, rest);
    assert AsString([]) == "";
  }
}
